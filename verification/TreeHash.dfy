/** The bit-counter tree hash of utilsx1.c. `treehashx1` and `treehashx1_streaming` are the same text but for the
    context passed to the leaf callback, which here is part of the generator; one method models both. */
module TreeHash {
  import opened Arith
  import opened Bits
  import opened Bytes
  import opened Params
  import opened TweakableHash
  import opened Merkle
  import opened LeafGen
  import Address
  import Stream

  // ---- Counter arithmetic ----

  /** All bits below `h` are set. */
  ghost predicate OnesBelow(idx: nat, h: nat) {
    forall l :: 0 <= l < h ==> BitSet(idx, l)
  }

  predicate BitSet(idx: nat, l: nat) {
    Shr(idx, l) % 2 == 1
  }

  /** Incrementing a counter whose trailing ones end at level `h`. */
  lemma {:induction false} CarryUpTo(idx: nat, h: nat, l: nat)
    requires OnesBelow(idx, h) && l <= h
    ensures Shr(idx + 1, l) == Shr(idx, l) + 1
  {
    if l > 0 {
      CarryUpTo(idx, h, l - 1);
      assert BitSet(idx, l - 1);
    }
  }

  lemma CarryClears(idx: nat, h: nat, l: nat)
    requires OnesBelow(idx, h) && l < h
    ensures !BitSet(idx + 1, l)
  {
    CarryUpTo(idx, h, l);
    assert BitSet(idx, l);
  }

  lemma {:induction false} CarryAbove(idx: nat, h: nat, l: nat)
    requires OnesBelow(idx, h) && Shr(idx, h) % 2 == 0 && l > h
    ensures Shr(idx + 1, l) == Shr(idx, l)
    decreases l
  {
    if l == h + 1 {
      CarryUpTo(idx, h, h);
    } else {
      CarryAbove(idx, h, l - 1);
    }
  }

  lemma {:induction false} LastIndex(height: nat, l: nat)
    requires l <= height
    ensures Shr(Pow2(height) - 1, l) == Pow2(height - l) - 1
  {
    if l > 0 {
      LastIndex(height, l - 1);
      assert Pow2(height - l + 1) == 2 * Pow2(height - l);
    }
  }

  lemma LastIndexOnes(height: nat)
    ensures OnesBelow(Pow2(height) - 1, height)
  {
    hide Shr;
    var last := Pow2(height) - 1;
    forall l | 0 <= l < height
      ensures BitSet(last, l)
    {
      LastIndex(height, l);
      assert Pow2(height - l) == 2 * Pow2(height - l - 1);
    }
  }

  /** Only the last counter value has all its bits set. */
  lemma {:induction false} OnesAreLast(idx: nat, height: nat, l: nat)
    requires OnesBelow(idx, height) && Shr(idx, height) == 0 && l <= height
    ensures Shr(idx, l) == Pow2(height - l) - 1
    decreases height - l
  {
    if l < height {
      OnesAreLast(idx, height, l + 1);
      assert BitSet(idx, l);
      assert Shr(idx, l) == 2 * Shr(idx, l + 1) + 1;
    }
  }

  lemma {:induction false} ShrPow(height: nat, l: nat)
    requires l <= height
    ensures Shr(Pow2(height), l) == Pow2(height - l)
  {
    if l > 0 {
      ShrPow(height, l - 1);
    }
  }

  lemma {:induction false} ShrLess(x: nat, h: nat)
    ensures Shr(x, h) <= x
  {
    if h > 0 {
      ShrLess(x, h - 1);
    }
  }

  lemma IndexWidth()
    ensures Pow256(4) == Pow2(32) == 0x1_0000_0000
  {
    assert Pow256(4) == 0x1_0000_0000;
    assert Pow2(8) == 0x100;
    assert Pow2(16) == 0x1_0000;
    assert Pow2(24) == 0x100_0000;
  }

  // ---- Invariants ----

  /** Slot `l` holds the left sibling at level `l` whenever bit `l` of the counter is set. */
  ghost predicate StackHolds(t: Tree, off: nat, idx: nat, stack: seq<Bytes>)
    requires t.Valid()
  {
    forall l :: 0 <= l < |stack| && BitSet(idx, l) ==> stack[l] == Node(t, l, Shr(off, l) + Shr(idx, l) - 1)
  }

  /** Whether node `Sibling(leafIdx >> l)` is among the `Shr(idx, l)` nodes completed at level `l`; at levels below
      `h` node `Shr(idx, l)` is completed too. */
  ghost predicate Seen(leafIdx: nat, idx: nat, h: nat, l: nat) {
    Sibling(Shr(leafIdx, l)) < Shr(idx, l) || (l < h && Sibling(Shr(leafIdx, l)) == Shr(idx, l))
  }

  /** The authentication path slots written so far. */
  ghost predicate AuthHolds(t: Tree, leafIdx: nat, off: nat, idx: nat, h: nat, height: nat, before: seq<Bytes>,
                            slots: seq<Bytes>)
    requires t.Valid()
  {
    && |slots| == |before| >= height
    && forall l :: 0 <= l < |slots| ==>
         slots[l] == if l < height && Seen(leafIdx, idx, h, l) then AuthNode(t, leafIdx, off, l) else before[l]
  }

  lemma AuthLength(t: Tree, leafIdx: nat, off: nat, idx: nat, h: nat, height: nat, before: seq<Bytes>,
                   slots: seq<Bytes>)
    requires t.Valid() && AuthHolds(t, leafIdx, off, idx, h, height, before, slots)
    ensures |slots| == |before|
  {
  }

  /** Finishing a climb at level `h` is starting the next leaf. */
  lemma AuthNextLeaf(t: Tree, leafIdx: nat, off: nat, idx: nat, h: nat, height: nat, before: seq<Bytes>,
                     slots: seq<Bytes>)
    requires t.Valid() && h <= height && OnesBelow(idx, h) && (h < height ==> Shr(idx, h) % 2 == 0)
    requires AuthHolds(t, leafIdx, off, idx, if h < height then h + 1 else h, height, before, slots)
    ensures AuthHolds(t, leafIdx, off, idx + 1, 0, height, before, slots)
  {
    hide AuthNode, Shr, Sibling;
    var next, top := idx + 1, if h < height then h + 1 else h;
    forall l | 0 <= l < height
      ensures Seen(leafIdx, next, 0, l) <==> Seen(leafIdx, idx, top, l)
    {
      if l <= h {
        CarryUpTo(idx, h, l);
      } else {
        CarryAbove(idx, h, l);
      }
    }
  }

  /** Saving the left child at level `h` prepares the stack for the next leaf. */
  lemma StackNextLeaf(t: Tree, off: nat, idx: nat, h: nat, stack: seq<Bytes>, current: Bytes)
    requires t.Valid() && h < |stack| && OnesBelow(idx, h) && Shr(idx, h) % 2 == 0
    requires StackHolds(t, off, idx, stack) && current == Node(t, h, Shr(off, h) + Shr(idx, h))
    ensures StackHolds(t, off, idx + 1, stack[h := current])
  {
    hide Node, Shr;
    var next := stack[h := current];
    forall l | 0 <= l < |next| && BitSet(idx + 1, l)
      ensures next[l] == Node(t, l, Shr(off, l) + Shr(idx + 1, l) - 1)
    {
      if l < h {
        CarryClears(idx, h, l);
        assert false;
      } else if l == h {
        CarryUpTo(idx, h, h);
      } else {
        CarryAbove(idx, h, l);
        assert BitSet(idx, l);
      }
    }
  }

  /** Joining the saved left sibling with the right child gives the parent. */
  lemma ParentNode(t: Tree, off: nat, idx: nat, h: nat, height: nat, left: Bytes, right: Bytes)
    requires t.Valid() && Aligned(off, height) && h < height && Shr(idx, h) % 2 == 1
    requires left == Node(t, h, Shr(off, h) + Shr(idx, h) - 1) && right == Node(t, h, Shr(off, h) + Shr(idx, h))
    ensures Join(t.c, t.base, h + 1, Shr(off, h + 1) + Shr(idx, h + 1), left + right)
            == Node(t, h + 1, Shr(off, h + 1) + Shr(idx, h + 1))
  {
    hide Join;
    AlignedAt(off, height, h);
    var i := Shr(off, h + 1) + Shr(idx, h + 1);
    assert Shr(off, h) + Shr(idx, h) == 2 * i + 1;
  }

  // ---- The code ----

  /** The inner loop: climb from a fresh leaf while the node is a right child. */
  method Ascend(env: Env, ghost t: Tree, treeAddr: Address.Buffer, stack: SlotBuffer, leaf: Bytes, idx: nat,
                leafIdx: nat, idxOffset: nat, height: nat, auth: SlotBuffer?, ghost before: seq<Bytes>)
    returns (current: Bytes, h: nat)
    requires env.Valid() && t.Valid() && t.c == env.c && t.base == t.base.Base()
    requires Fits(env, treeAddr) && treeAddr.rec.Base() == t.base
    requires Aligned(idxOffset, height) && idx < Pow2(height) && idxOffset + Pow2(height) <= Pow2(32)
    requires |stack.slots| == height && StackHolds(t, idxOffset, idx, stack.slots) && leaf == t.leaf(idxOffset + idx)
    requires auth != stack && (auth != null ==> AuthHolds(t, leafIdx, idxOffset, idx, 0, height, before, auth.slots))
    modifies treeAddr, treeAddr.bytes, auth
    ensures Fits(env, treeAddr) && treeAddr.rec.Base() == t.base
    ensures h <= height && OnesBelow(idx, h) && (h < height ==> Shr(idx, h) % 2 == 0)
            && (h == height <==> idx == Pow2(height) - 1)
    ensures current == Node(t, h, Shr(idxOffset, h) + Shr(idx, h))
    ensures auth != null ==>
              AuthHolds(t, leafIdx, idxOffset, idx, if h < height then h + 1 else h, height, before, auth.slots)
  {
    hide Node, Aligned, TweakHash, Address.Buffer.Valid, Pow2, AuthHolds;
    var maxIdx := Pow2(height) - 1;
    current := leaf;
    var internalOffset, internalIdx, internalLeaf := idxOffset, idx, leafIdx;
    h := 0;
    assert Node(t, 0, idxOffset + idx) == t.leaf(idxOffset + idx) by { LeafNode(t, idxOffset + idx); }
    while true
      invariant 0 <= h <= height && OnesBelow(idx, h)
      invariant internalOffset == Shr(idxOffset, h) && internalIdx == Shr(idx, h) && internalLeaf == Shr(leafIdx, h)
      invariant Fits(env, treeAddr) && treeAddr.rec.Base() == t.base
      invariant current == Node(t, h, Shr(idxOffset, h) + Shr(idx, h))
      invariant auth != null ==> AuthHolds(t, leafIdx, idxOffset, idx, h, height, before, auth.slots)
      decreases height - h
    {
      if h == height {
        TopReached(idx, height);
        return;
      }
      if auth != null {
        SaveAuth(t, auth, h, current, internalIdx, internalLeaf, idx, leafIdx, idxOffset, height, before);
      }
      if internalIdx % 2 == 0 && idx < maxIdx {
        return;
      }
      LastIndexOnes(height);
      internalOffset := internalOffset / 2;
      current := JoinLeft(env, t, treeAddr, stack.slots[h], current, h, internalIdx / 2, internalOffset, idx,
          idxOffset, height);
      h, internalIdx, internalLeaf := h + 1, internalIdx / 2, internalLeaf / 2;
    }
  }

  lemma TopReached(idx: nat, height: nat)
    requires OnesBelow(idx, height) && idx < Pow2(height)
    ensures idx == Pow2(height) - 1
  {
    ShrBound(idx, height, height);
    PowZero();
    OnesAreLast(idx, height, 0);
  }

  /** `if ((internal_idx ^ internal_leaf) == 0x01) memcpy(&auth_path[h * SPX_N], ...)` */
  method SaveAuth(ghost t: Tree, auth: SlotBuffer, h: nat, current: Bytes, internalIdx: nat, internalLeaf: nat,
                  ghost idx: nat, ghost leafIdx: nat, ghost off: nat, ghost height: nat, ghost before: seq<Bytes>)
    requires t.Valid() && h < height && internalIdx == Shr(idx, h) && internalLeaf == Shr(leafIdx, h)
    requires current == Node(t, h, Shr(off, h) + Shr(idx, h))
    requires AuthHolds(t, leafIdx, off, idx, h, height, before, auth.slots)
    modifies auth
    ensures AuthHolds(t, leafIdx, off, idx, h + 1, height, before, auth.slots)
  {
    hide Node, Shr, Sibling, BitXor;
    XorIsOne(internalIdx, internalLeaf);
    if BitXor(internalIdx, internalLeaf) == 1 {
      auth.Put(h, current);
    }
  }

  /** Combines the saved left node with the right one at the address of their parent. */
  method JoinLeft(env: Env, ghost t: Tree, treeAddr: Address.Buffer, left: Bytes, right: Bytes, h: nat, index: nat,
                  offset: nat, ghost idx: nat, ghost idxOffset: nat, ghost height: nat)
    returns (parent: Bytes)
    requires env.Valid() && t.Valid() && t.c == env.c && t.base == t.base.Base()
    requires Fits(env, treeAddr) && treeAddr.rec.Base() == t.base
    requires Aligned(idxOffset, height) && idx < Pow2(height) && idxOffset + Pow2(height) <= Pow2(32) && h < height
    requires BitSet(idx, h) && index == Shr(idx, h + 1) && offset == Shr(idxOffset, h + 1)
    requires left == Node(t, h, Shr(idxOffset, h) + Shr(idx, h) - 1)
    requires right == Node(t, h, Shr(idxOffset, h) + Shr(idx, h))
    modifies treeAddr, treeAddr.bytes
    ensures Fits(env, treeAddr) && treeAddr.rec.Base() == t.base
    ensures parent == Node(t, h + 1, Shr(idxOffset, h + 1) + Shr(idx, h + 1))
  {
    hide Node, Aligned, TweakHash, Address.Buffer.Valid, Pow2, Shr;
    SetNodeAddress(env, treeAddr, h + 1, index, offset, idx, idxOffset, height, t.base);
    ParentNode(t, idxOffset, idx, h, height, left, right);
    parent := Thash(env, treeAddr, left + right);
  }

  lemma LeafNode(t: Tree, i: nat)
    requires t.Valid()
    ensures Node(t, 0, i) == t.leaf(i)
  {
  }

  /** `set_tree_height`, `set_tree_index` for the node at `level` above leaf `idx`. */
  method SetNodeAddress(env: Env, treeAddr: Address.Buffer, level: nat, index: nat, offset: nat, ghost idx: nat,
                        ghost idxOffset: nat, ghost height: nat, ghost base: Address.Adrs)
    requires env.Valid() && Fits(env, treeAddr) && treeAddr.rec.Base() == base && base == base.Base()
    requires index == Shr(idx, level) && offset == Shr(idxOffset, level)
    requires idx < Pow2(height) && idxOffset + Pow2(height) <= Pow2(32)
    modifies treeAddr, treeAddr.bytes
    ensures Fits(env, treeAddr) && treeAddr.rec.Base() == base
    ensures treeAddr.rec == base.WithNode(level, Shr(idxOffset, level) + Shr(idx, level))
  {
    hide Address.Buffer.Valid, Pow2;
    IndexWidth();
    ShrLess(idx, level);
    ShrLess(idxOffset, level);
    treeAddr.SetTreeHeight(level);
    treeAddr.SetTreeIndex(index + offset);
  }

  /** treehashx1, treehashx1_streaming: the root of the subtree of this height that starts at leaf `idxOffset`, and the
      authentication path of leaf `leafIdx` of that subtree; every leaf is generated once, in order. A path node outside
      the tree, as for the leaf index ~0, is never written. */
  method TreeHashX1(gen: Generator, leafIdx: nat, idxOffset: nat, height: nat, treeAddr: Address.Buffer,
                    auth: SlotBuffer?)
    returns (root: Bytes)
    requires gen.Valid() && Fits(gen.env, treeAddr) && treeAddr.rec.Base() == gen.Spec().base
    requires {treeAddr, treeAddr.bytes} !! gen.Footprint() && auth !in gen.Footprint()
    requires auth != null ==> height <= |auth.slots|
    requires Aligned(idxOffset, height) && height <= 31 && idxOffset + Pow2(height) <= Pow2(32)
    modifies gen.Footprint(), treeAddr, treeAddr.bytes, auth
    ensures gen.Valid() && Fits(gen.env, treeAddr) && treeAddr.rec.Base() == gen.Spec().base
    ensures root == Node(gen.Spec(), height, Shr(idxOffset, height))
    ensures gen.info.WotsStreaming? ==>
              gen.info.stream.Emitted() == old(gen.info.stream.Emitted()) + gen.Streamed(idxOffset, Pow2(height))
    ensures gen.info.WotsPlain? ==>
              gen.info.wotsSig.slots == gen.Slots(old(gen.info.wotsSig.slots), idxOffset, Pow2(height))
    ensures auth != null ==>
            AuthHolds(gen.Spec(), leafIdx, idxOffset, Pow2(height), 0, height, old(auth.slots), auth.slots)
  {
    hide Stream.Linked, Node, Aligned, AuthHolds, StackHolds, OnesBelow, Address.Buffer.Valid, Pow2, Generator.Valid;
    hide Generator.Spec;
    hide Generator.Streamed, Generator.Slots;
    hide LeavesDone;
    ghost var before := Before(if auth == null then [] else auth.slots,
                               if gen.info.WotsStreaming? then gen.info.stream.Emitted() else [],
                               if gen.info.WotsPlain? then gen.info.wotsSig.slots else []);
    LeavesStart(gen, treeAddr, auth, leafIdx, idxOffset, height, before);
    var stack := new SlotBuffer(height);
    StackStart(gen.Spec(), idxOffset, stack.slots);
    var idx := 0;
    while true
      invariant 0 <= idx < Pow2(height)
      invariant |stack.slots| == height && gen.env.Valid() && StackHolds(gen.Spec(), idxOffset, idx, stack.slots)
      invariant LeavesDone(gen, treeAddr, auth, leafIdx, idxOffset, height, idx, before)
      decreases Pow2(height) - idx
    {
      var current, h := AddLeaf(gen, stack, idx, leafIdx, idxOffset, height, treeAddr, auth, before);
      if h == height {
        ShrBound(idx, height, height);
        PowZero();
        LeavesMeaning(gen, treeAddr, auth, leafIdx, idxOffset, height, idx + 1, before);
        return current;
      }
      StackNextLeaf(gen.Spec(), idxOffset, idx, h, stack.slots, current);
      stack.Put(h, current);
      idx := idx + 1;
    }
  }

  lemma LeavesStart(gen: Generator, treeAddr: Address.Buffer, auth: SlotBuffer?, leafIdx: nat, idxOffset: nat,
                    height: nat, before: Before)
    requires gen.Valid() && Fits(gen.env, treeAddr) && treeAddr.rec.Base() == gen.Spec().base
    requires auth != null ==> before.auth == auth.slots && height <= |auth.slots|
    requires gen.info.WotsStreaming? ==> before.emitted == gen.info.stream.Emitted()
    requires gen.info.WotsPlain? ==> before.slots == gen.info.wotsSig.slots
    ensures LeavesDone(gen, treeAddr, auth, leafIdx, idxOffset, height, 0, before)
  {
    hide Stream.Linked, Generator.Valid, Generator.Spec, Generator.Streamed, Generator.Slots, Address.Buffer.Valid;
    if !gen.info.ForsLeaves? {
      gen.NoLeaf(before.slots, idxOffset);
    }
    assert before.emitted + [] == before.emitted;
    forall l: nat
      ensures Shr(0, l) == 0
    {
      ShrZero(l);
    }
  }

  lemma LeavesMeaning(gen: Generator, treeAddr: Address.Buffer, auth: SlotBuffer?, leafIdx: nat, idxOffset: nat,
                      height: nat, idx: nat, before: Before)
    requires LeavesDone(gen, treeAddr, auth, leafIdx, idxOffset, height, idx, before)
    ensures gen.Valid() && Fits(gen.env, treeAddr) && treeAddr.rec.Base() == gen.Spec().base
    ensures gen.info.WotsStreaming? ==> gen.info.stream.Emitted() == before.emitted + gen.Streamed(idxOffset, idx)
    ensures gen.info.WotsPlain? ==> gen.info.wotsSig.slots == gen.Slots(before.slots, idxOffset, idx)
    ensures auth != null ==> AuthHolds(gen.Spec(), leafIdx, idxOffset, idx, 0, height, before.auth, auth.slots)
  {
  }

  lemma StackStart(t: Tree, off: nat, stack: seq<Bytes>)
    requires t.Valid()
    ensures StackHolds(t, off, 0, stack)
  {
    forall l: nat
      ensures Shr(0, l) == 0
    {
      ShrZero(l);
    }
  }

  /** What the caller's memory held before the call. */
  datatype Before = Before(auth: seq<Bytes>, emitted: Bytes, slots: seq<Bytes>)

  /** The state after `idx` leaves, apart from the stack. */
  ghost predicate LeavesDone(gen: Generator, treeAddr: Address.Buffer, auth: SlotBuffer?, leafIdx: nat, idxOffset: nat,
                             height: nat, idx: nat, before: Before)
    reads gen.Footprint(), treeAddr, treeAddr.bytes, auth
  {
    && gen.Valid() && Fits(gen.env, treeAddr) && treeAddr.rec.Base() == gen.Spec().base
    && (gen.info.WotsStreaming? ==> gen.info.stream.Emitted() == before.emitted + gen.Streamed(idxOffset, idx))
    && (gen.info.WotsPlain? ==> gen.info.wotsSig.slots == gen.Slots(before.slots, idxOffset, idx))
    && (auth != null ==> AuthHolds(gen.Spec(), leafIdx, idxOffset, idx, 0, height, before.auth, auth.slots))
  }

  /** One iteration of the outer loop, up to saving the left child. */
  method AddLeaf(gen: Generator, stack: SlotBuffer, idx: nat, leafIdx: nat, idxOffset: nat, height: nat,
                 treeAddr: Address.Buffer, auth: SlotBuffer?, ghost before: Before)
    returns (current: Bytes, h: nat)
    requires LeavesDone(gen, treeAddr, auth, leafIdx, idxOffset, height, idx, before)
    requires {treeAddr, treeAddr.bytes} !! gen.Footprint() && auth !in gen.Footprint()
    requires stack !in gen.Footprint() && stack != auth
    requires Aligned(idxOffset, height) && idx < Pow2(height) && idxOffset + Pow2(height) <= Pow2(32)
    requires |stack.slots| == height && StackHolds(gen.Spec(), idxOffset, idx, stack.slots)
    modifies gen.Footprint(), treeAddr, treeAddr.bytes, auth
    ensures LeavesDone(gen, treeAddr, auth, leafIdx, idxOffset, height, idx + 1, before)
    ensures h <= height && OnesBelow(idx, h) && (h < height ==> Shr(idx, h) % 2 == 0)
            && (h == height <==> idx == Pow2(height) - 1)
    ensures current == Node(gen.Spec(), h, Shr(idxOffset, h) + Shr(idx, h))
  {
    hide Stream.Linked, Node, Aligned, AuthHolds, StackHolds, OnesBelow, Address.Buffer.Valid, Pow2, Generator.Valid;
    hide Generator.Spec;
    hide Generator.Streamed, Generator.Slots;
    IndexWidth();
    var leaf := gen.Generate(idx + idxOffset);
    if !gen.info.ForsLeaves? {
      gen.NextLeaf(before.slots, idxOffset, idx);
    }
    current, h := Ascend(gen.env, gen.Spec(), treeAddr, stack, leaf, idx, leafIdx, idxOffset, height, auth,
        before.auth);
    if auth != null {
      AuthNextLeaf(gen.Spec(), leafIdx, idxOffset, idx, h, height, before.auth, auth.slots);
    }
  }

  lemma SiblingInTree(idx: nat, l: nat, height: nat)
    requires idx < Pow2(height) && l < height
    ensures Sibling(Shr(idx, l)) < Shr(Pow2(height), l)
  {
    ShrBound(idx, l, height);
    ShrPow(height, l);
    assert Pow2(height - l) == 2 * Pow2(height - l - 1);
  }

  /** After the whole tree the slots hold the authentication path of any leaf inside it. */
  lemma AuthComplete(t: Tree, leafIdx: nat, off: nat, height: nat, before: seq<Bytes>, slots: seq<Bytes>)
    requires t.Valid() && leafIdx < Pow2(height) && |slots| == height
    requires AuthHolds(t, leafIdx, off, Pow2(height), 0, height, before, slots)
    ensures Flatten(slots) == AuthPath(t, leafIdx, off, height)
  {
    hide Pow2;
    forall l | 0 <= l < height
      ensures slots[l] == AuthNode(t, leafIdx, off, l)
    {
      SiblingInTree(leafIdx, l, height);
    }
    FlattenPath(t, leafIdx, off, height, slots);
  }

  lemma {:induction false} FlattenPath(t: Tree, leafIdx: nat, off: nat, count: nat, slots: seq<Bytes>)
    requires t.Valid() && |slots| == count && forall l :: 0 <= l < count ==> slots[l] == AuthNode(t, leafIdx, off, l)
    ensures Flatten(slots) == AuthPath(t, leafIdx, off, count)
  {
    hide AuthNode;
    if count > 0 {
      FlattenPath(t, leafIdx, off, count - 1, slots[..count - 1]);
    }
  }
}
