/** treehash of utils.c: the same tree with an explicit stack of heights instead of the bits of the counter. */
module TreeHashHeights {
  import opened Arith
  import opened Bits
  import opened Bytes
  import opened Params
  import opened TweakableHash
  import opened Merkle
  import opened LeafGen
  import opened TreeHash
  import Address

  // ---- The heights on the stack are the set bits of the counter ----

  /** The set bits of `idx` from `h` up to `top`, highest first. */
  ghost function Levels(idx: nat, h: nat, top: nat): (r: seq<nat>)
    ensures |r| <= if h < top then top - h else 0
    ensures forall l :: l in r ==> h <= l < top
    decreases top - h
  {
    if h >= top then [] else Levels(idx, h + 1, top) + if BitSet(idx, h) then [h] else []
  }

  lemma {:induction false} LevelsAbove(idx: nat, h: nat, l: nat, top: nat)
    requires OnesBelow(idx, h) && !BitSet(idx, h) && l > h
    ensures Levels(idx + 1, l, top) == Levels(idx, l, top)
    decreases top - l
  {
    hide Shr, OnesBelow;
    if l < top {
      CarryAbove(idx, h, l);
      LevelsAbove(idx, h, l + 1, top);
    }
  }

  lemma {:induction false} LevelsBelow(idx: nat, h: nat, l: nat, top: nat)
    requires OnesBelow(idx, h) && !BitSet(idx, h) && l <= h < top
    ensures Levels(idx + 1, l, top) == Levels(idx + 1, h, top)
    decreases h - l
  {
    hide Shr, OnesBelow;
    if l < h {
      LevelsBelow(idx, h, l + 1, top);
      CarryClears(idx, h, l);
    }
  }

  /** Incrementing the counter: the trailing ones leave, the bit above them enters. */
  lemma LevelsCarry(idx: nat, h: nat, top: nat)
    requires OnesBelow(idx, h) && !BitSet(idx, h) && h < top
    ensures Levels(idx + 1, 0, top) == Levels(idx, h, top) + [h]
  {
    hide Shr, OnesBelow;
    LevelsBelow(idx, h, 0, top);
    CarryUpTo(idx, h, h);
    LevelsAbove(idx, h, h + 1, top);
    assert BitSet(idx + 1, h);
  }

  lemma {:induction false} LevelsOfPower(height: nat, l: nat)
    requires l <= height
    ensures Levels(Pow2(height), l, height + 1) == [height]
    decreases height - l
  {
    ShrPow(height, l);
    if l < height {
      LevelsOfPower(height, l + 1);
      assert Pow2(height - l) == 2 * Pow2(height - l - 1);
    } else {
      assert Levels(Pow2(height), height + 1, height + 1) == [];
    }
  }

  /** The counter of a leaf inside the tree has no bit at the tree's height. */
  lemma NoTopBit(idx: nat, height: nat)
    requires idx < Pow2(height)
    ensures !BitSet(idx, height)
  {
    ShrBound(idx, height, height);
    PowZero();
  }

  // ---- Invariants ----

  /** The completed left node at a level. */
  ghost predicate IsLeft(t: Tree, off: nat, idx: nat, level: nat, node: Bytes)
    requires t.Valid()
  {
    Shr(idx, level) > 0 && node == Node(t, level, Shr(off, level) + Shr(idx, level) - 1)
  }

  /** A completed left node for each level on the stack. */
  ghost predicate LeftNodes(t: Tree, off: nat, idx: nat, levels: seq<nat>, stack: seq<Bytes>)
    requires t.Valid()
  {
    |levels| <= |stack| && forall j :: 0 <= j < |levels| ==> IsLeft(t, off, idx, levels[j], stack[j])
  }

  /** Between leaves: `offset` nodes with the heights of the counter's bits. */
  ghost predicate Between(t: Tree, off: nat, idx: nat, height: nat, offset: nat, heights: seq<nat>, stack: seq<Bytes>)
    requires t.Valid()
  {
    && |heights| == |stack| == height + 1
    && offset == |Levels(idx, 0, height + 1)|
    && heights[..offset] == Levels(idx, 0, height + 1)
    && LeftNodes(t, off, idx, heights[..offset], stack)
  }

  /** While merging leaf `idx`: the bits from `h` on, and on top the node at height `h`. */
  ghost predicate Merging(t: Tree, off: nat, idx: nat, height: nat, h: nat, offset: nat, heights: seq<nat>,
                          stack: seq<Bytes>)
    requires t.Valid()
  {
    && |heights| == |stack| == height + 1 && h <= height && OnesBelow(idx, h)
    && offset == |Levels(idx, h, height + 1)| + 1 <= height + 1
    && heights[..offset] == Levels(idx, h, height + 1) + [h]
    && LeftNodes(t, off, idx, heights[..offset - 1], stack)
    && stack[offset - 1] == Node(t, h, Shr(off, h) + Shr(idx, h))
  }

  /** The two topmost heights are equal exactly when the counter's bit is set. */
  lemma EqualHeights(t: Tree, off: nat, idx: nat, height: nat, h: nat, offset: nat, heights: seq<nat>,
                     stack: seq<Bytes>)
    requires t.Valid() && Merging(t, off, idx, height, h, offset, heights, stack) && idx < Pow2(height)
    ensures heights[offset - 1] == h
    ensures (offset >= 2 && heights[offset - 1] == heights[offset - 2]) <==> BitSet(idx, h)
    ensures BitSet(idx, h) ==> h < height && offset >= 2
  {
    hide Node;
    NoTopBit(idx, height);
    var levels := Levels(idx, h, height + 1);
    assert heights[offset - 1] == heights[..offset][offset - 1];
    if offset >= 2 {
      assert heights[offset - 2] == heights[..offset][offset - 2] == levels[offset - 2];
    }
    if !BitSet(idx, h) && offset >= 2 {
      assert levels == Levels(idx, h + 1, height + 1);
      assert levels[offset - 2] in levels;
    }
  }

  /** The heights when the two topmost entries, both `h`, become one entry `h + 1`. */
  lemma MergedHeights(heights: seq<nat>, upper: seq<nat>, offset: nat, h: nat)
    requires offset == |upper| + 2 <= |heights| && heights[..offset] == upper + [h] + [h]
    ensures var next := heights[offset - 2 := h + 1];
            heights[offset - 2] == h && next[..offset - 1] == upper + [h + 1] && next[..offset - 2] == upper
            && heights[..offset - 2] == upper
  {
    assert heights[..offset][offset - 2] == h;
    assert heights[..offset][..offset - 2] == upper;
  }

  lemma FewerLeftNodes(t: Tree, off: nat, idx: nat, upper: seq<nat>, h: nat, stack: seq<Bytes>, parent: Bytes)
    requires t.Valid() && LeftNodes(t, off, idx, upper + [h], stack)
    ensures |upper| < |stack| && IsLeft(t, off, idx, h, stack[|upper|])
    ensures LeftNodes(t, off, idx, upper, stack[|upper| := parent])
  {
    hide IsLeft;
    var levels := upper + [h];
    assert levels[|upper|] == h;
    assert forall j :: 0 <= j < |upper| ==> levels[j] == upper[j];
  }

  /** Merging the two topmost nodes moves one level up. */
  lemma MergeStep(t: Tree, off: nat, idx: nat, height: nat, h: nat, offset: nat, heights: seq<nat>, stack: seq<Bytes>,
                  parent: Bytes)
    requires t.Valid() && Merging(t, off, idx, height, h, offset, heights, stack)
    requires BitSet(idx, h) && h < height && offset >= 2
    requires parent == Node(t, h + 1, Shr(off, h + 1) + Shr(idx, h + 1))
    ensures IsLeft(t, off, idx, h, stack[offset - 2])
    ensures Merging(t, off, idx, height, h + 1, offset - 1, heights[offset - 2 := h + 1], stack[offset - 2 := parent])
  {
    hide Node, Shr, LeftNodes, IsLeft;
    var upper := Levels(idx, h + 1, height + 1);
    assert Levels(idx, h, height + 1) == upper + [h];
    assert heights[..offset - 1] == heights[..offset][..offset - 1] == upper + [h];
    MergedHeights(heights, upper, offset, h);
    FewerLeftNodes(t, off, idx, upper, h, stack, parent);
  }

  /** Incrementing the counter keeps the nodes above the carry and completes the one it enters. */
  lemma NextLeftNodes(t: Tree, off: nat, idx: nat, h: nat, upper: seq<nat>, stack: seq<Bytes>)
    requires t.Valid() && LeftNodes(t, off, idx, upper, stack) && |upper| < |stack|
    requires OnesBelow(idx, h) && !BitSet(idx, h) && forall l :: l in upper ==> l > h
    requires stack[|upper|] == Node(t, h, Shr(off, h) + Shr(idx, h))
    ensures LeftNodes(t, off, idx + 1, upper + [h], stack)
  {
    hide Node, Shr, BitSet, OnesBelow, IsLeft;
    var levels := upper + [h];
    forall j | 0 <= j < |levels|
      ensures IsLeft(t, off, idx + 1, levels[j], stack[j])
    {
      if j < |upper| {
        assert levels[j] == upper[j] && upper[j] in upper;
        LeftAbove(t, off, idx, h, upper[j], stack[j]);
      } else {
        LeftEntered(t, off, idx, h, stack[j]);
      }
    }
  }

  lemma LeftAbove(t: Tree, off: nat, idx: nat, h: nat, level: nat, node: Bytes)
    requires t.Valid() && OnesBelow(idx, h) && !BitSet(idx, h) && level > h && IsLeft(t, off, idx, level, node)
    ensures IsLeft(t, off, idx + 1, level, node)
  {
    hide Node, OnesBelow;
    CarryAbove(idx, h, level);
  }

  lemma LeftEntered(t: Tree, off: nat, idx: nat, h: nat, node: Bytes)
    requires t.Valid() && OnesBelow(idx, h) && node == Node(t, h, Shr(off, h) + Shr(idx, h))
    ensures IsLeft(t, off, idx + 1, h, node)
  {
    hide Node, OnesBelow;
    CarryUpTo(idx, h, h);
  }

  /** A finished merge is the state before the next leaf. */
  lemma MergeDone(t: Tree, off: nat, idx: nat, height: nat, h: nat, offset: nat, heights: seq<nat>, stack: seq<Bytes>)
    requires t.Valid() && Merging(t, off, idx, height, h, offset, heights, stack) && !BitSet(idx, h)
    ensures Between(t, off, idx + 1, height, offset, heights, stack)
  {
    hide Node, Shr, OnesBelow, BitSet, LeftNodes;
    var upper := Levels(idx, h + 1, height + 1);
    assert Levels(idx, h, height + 1) == upper;
    assert heights[..offset - 1] == heights[..offset][..offset - 1] == upper;
    LevelsCarry(idx, h, height + 1);
    NextLeftNodes(t, off, idx, h, upper, stack);
  }

  /** Pushing a leaf starts a merge. */
  lemma PushLeaf(t: Tree, off: nat, idx: nat, height: nat, offset: nat, heights: seq<nat>, stack: seq<Bytes>,
                 leaf: Bytes)
    requires t.Valid() && Between(t, off, idx, height, offset, heights, stack) && leaf == t.leaf(off + idx)
    requires idx < Pow2(height)
    ensures offset < height + 1
    ensures Merging(t, off, idx, height, 0, offset + 1, heights[offset := 0], stack[offset := leaf])
  {
    hide Node, IsLeft, BitSet;
    NoTopBit(idx, height);
    TopIsFree(idx, 0, height);
    ShrNothing(idx + off);
    ShrNothing(off);
    ShrNothing(idx);
    LeafNode(t, off + idx);
    var next := heights[offset := 0];
    assert next[..offset + 1] == heights[..offset] + [0];
    assert next[..offset] == heights[..offset];
  }

  lemma {:induction false} TopIsFree(idx: nat, h: nat, height: nat)
    requires !BitSet(idx, height) && h <= height
    ensures |Levels(idx, h, height + 1)| <= height - h
    decreases height - h
  {
    if h < height {
      TopIsFree(idx, h + 1, height);
    }
  }

  // ---- The code ----

  /** How many slots of the path memory can be written: one behind the path for the 2^height leaf indices after those
      of the tree, because then the test at the top of the tree matches. */
  ghost function PathSlots(leafIdx: nat, height: nat): nat {
    if Shr(leafIdx, height) == 1 then height + 1 else height
  }

  lemma Half(x: nat)
    ensures Sibling(x) == 0 <==> x == 1
  {
  }

  /** The leaf indices that follow those of the tree. */
  lemma NextTreeOver(leafIdx: nat, height: nat)
    ensures Shr(leafIdx, height) == 1 <==> Pow2(height) <= leafIdx < 2 * Pow2(height)
  {
    hide Shr, Pow2;
    var q, unit := Shr(leafIdx, height), Pow2(height);
    ShrDivision(leafIdx, height);
    if q >= 2 {
      MulMonotone(2, q, unit);
    } else {
      assert q == 0 || q == 1;
    }
  }

  /** What that slot gets: the root, exactly for those leaf indices. */
  lemma BehindPath(t: Tree, leafIdx: nat, off: nat, height: nat, before: seq<Bytes>, slots: seq<Bytes>)
    requires t.Valid()
    requires AuthHolds(t, leafIdx, off, Pow2(height), 0, PathSlots(leafIdx, height), before, slots)
    ensures |before| == |slots| >= PathSlots(leafIdx, height)
    ensures Shr(leafIdx, height) == 1 ==> height < |slots| && slots[height] == Node(t, height, Shr(off, height))
    ensures Shr(leafIdx, height) != 1 ==> forall l :: height <= l < |slots| ==> slots[l] == before[l]
  {
    hide Node, Shr, Pow2, Sibling;
    Half(Shr(leafIdx, height));
    ShrPow(height, height);
    PowZero();
  }

  /** `if ((leaf_idx >> h) ^ 1) == index, memcpy(auth_path + h * SPX_N, node)` */
  method SaveAuth(ghost t: Tree, auth: SlotBuffer, h: nat, node: Bytes, index: nat, leafIdx: nat, ghost idx: nat,
                  ghost off: nat, ghost height: nat, ghost before: seq<Bytes>)
    requires t.Valid() && h <= height && index == Shr(idx, h) && idx < Pow2(height)
    requires node == Node(t, h, Shr(off, h) + Shr(idx, h))
    requires AuthHolds(t, leafIdx, off, idx, h, PathSlots(leafIdx, height), before, auth.slots)
    modifies auth
    ensures AuthHolds(t, leafIdx, off, idx, h + 1, PathSlots(leafIdx, height), before, auth.slots)
  {
    hide Node, Pow2, Shr, Sibling, BitXor;
    if h == height {
      ShrBound(idx, height, height);
      PowZero();
      Half(Shr(leafIdx, h));
    }
    XorOne(Shr(leafIdx, h));
    if BitXor(Shr(leafIdx, h), 1) == index {
      auth.Put(h, node);
    }
  }

  /** treehash, for any leaf index: the root and the authentication path that treehashx1 returns, for the same
      arguments, and for some leaf indices outside the tree one slot more. */
  method TreeHashByHeights(gen: Generator, leafIdx: nat, idxOffset: nat, height: nat, treeAddr: Address.Buffer,
                           auth: SlotBuffer)
    returns (root: Bytes)
    requires gen.Valid() && Fits(gen.env, treeAddr) && treeAddr.rec.Base() == gen.Spec().base
    requires {treeAddr, treeAddr.bytes} !! gen.Footprint() && auth !in gen.Footprint()
    requires PathSlots(leafIdx, height) <= |auth.slots|
    requires Aligned(idxOffset, height) && height <= 31 && idxOffset + Pow2(height) <= Pow2(32)
    modifies gen.Footprint(), treeAddr, treeAddr.bytes, auth
    ensures root == Node(gen.Spec(), height, Shr(idxOffset, height))
    ensures AuthHolds(gen.Spec(), leafIdx, idxOffset, Pow2(height), 0, PathSlots(leafIdx, height), old(auth.slots),
            auth.slots)
  {
    hide Node, Aligned, Levels, Between, Merging, AuthHolds, OnesBelow, Address.Buffer.Valid, Pow2, Generator.Valid;
    hide Generator.Spec;
    ghost var t := gen.Spec();
    ghost var before := auth.slots;
    var stack := new SlotBuffer(height + 1);
    var heights := seq(height + 1, _ => 0);
    var offset := 0;
    StartBetween(t, idxOffset, height, leafIdx, heights, stack.slots, before);
    var idx := 0;
    while idx < Pow2(height)
      invariant 0 <= idx <= Pow2(height) && offset >= 0
      invariant gen.Valid() && Fits(gen.env, treeAddr) && treeAddr.rec.Base() == t.base
      invariant |heights| == height + 1 && Between(t, idxOffset, idx, height, offset, heights, stack.slots)
      invariant AuthHolds(t, leafIdx, idxOffset, idx, 0, PathSlots(leafIdx, height), before, auth.slots)
    {
      offset, heights := AddLeaf(gen, treeAddr, stack, heights, offset, idx, leafIdx, idxOffset, height, auth, before);
      idx := idx + 1;
    }
    RootOnStack(t, idxOffset, height, offset, heights, stack.slots);
    root := stack.slots[0];
  }

  /** One iteration of the outer loop: push the next leaf, then merge. */
  method AddLeaf(gen: Generator, treeAddr: Address.Buffer, stack: SlotBuffer, heights0: seq<nat>, offset0: nat,
                 idx: nat, leafIdx: nat, idxOffset: nat, height: nat, auth: SlotBuffer, ghost before: seq<Bytes>)
    returns (offset: nat, heights: seq<nat>)
    requires gen.Valid() && Fits(gen.env, treeAddr) && treeAddr.rec.Base() == gen.Spec().base
    requires {treeAddr, treeAddr.bytes} !! gen.Footprint() && auth !in gen.Footprint()
    requires stack !in gen.Footprint() && stack != auth
    requires Aligned(idxOffset, height) && idx < Pow2(height) && idxOffset + Pow2(height) <= Pow2(32)
    requires Between(gen.Spec(), idxOffset, idx, height, offset0, heights0, stack.slots)
    requires AuthHolds(gen.Spec(), leafIdx, idxOffset, idx, 0, PathSlots(leafIdx, height), before, auth.slots)
    modifies gen.Footprint(), treeAddr, treeAddr.bytes, auth, stack
    ensures gen.Valid() && Fits(gen.env, treeAddr) && treeAddr.rec.Base() == gen.Spec().base
    ensures |heights| == height + 1 && Between(gen.Spec(), idxOffset, idx + 1, height, offset, heights, stack.slots)
    ensures AuthHolds(gen.Spec(), leafIdx, idxOffset, idx + 1, 0, PathSlots(leafIdx, height), before, auth.slots)
  {
    hide Node, Aligned, Levels, Between, Merging, AuthHolds, OnesBelow, Address.Buffer.Valid, Pow2, Generator.Valid;
    hide Generator.Spec;
    IndexWidth();
    StackSize(gen.Spec(), idxOffset, idx, height, offset0, heights0, stack.slots);
    var leaf := gen.Generate(idx + idxOffset);
    PushLeaf(gen.Spec(), idxOffset, idx, height, offset0, heights0, stack.slots, leaf);
    stack.Put(offset0, leaf);
    offset, heights := MergeTop(gen.env, gen.Spec(), treeAddr, stack, heights0[offset0 := 0], offset0 + 1, idx, leafIdx,
                                idxOffset, height, auth, before);
  }

  lemma StackSize(t: Tree, off: nat, idx: nat, height: nat, offset: nat, heights: seq<nat>, stack: seq<Bytes>)
    requires t.Valid() && Between(t, off, idx, height, offset, heights, stack)
    ensures |stack| == height + 1 && |heights| == height + 1
  {
  }

  lemma StartBetween(t: Tree, off: nat, height: nat, leafIdx: nat, heights: seq<nat>, stack: seq<Bytes>,
                     before: seq<Bytes>)
    requires t.Valid() && |heights| == |stack| == height + 1 && PathSlots(leafIdx, height) <= |before|
    ensures Between(t, off, 0, height, 0, heights, stack)
    ensures AuthHolds(t, leafIdx, off, 0, 0, PathSlots(leafIdx, height), before, before)
  {
    forall l: nat
      ensures Shr(0, l) == 0
    {
      ShrZero(l);
    }
    NoLevels(0, height + 1);
  }

  lemma {:induction false} NoLevels(h: nat, top: nat)
    ensures Levels(0, h, top) == []
    decreases top - h
  {
    if h < top {
      NoLevels(h + 1, top);
      ShrZero(h);
    }
  }

  lemma RootOnStack(t: Tree, off: nat, height: nat, offset: nat, heights: seq<nat>, stack: seq<Bytes>)
    requires t.Valid() && Between(t, off, Pow2(height), height, offset, heights, stack)
    ensures |stack| > 0 && stack[0] == Node(t, height, Shr(off, height))
  {
    hide Node;
    LevelsOfPower(height, 0);
    ShrPow(height, height);
    PowZero();
    assert heights[..offset][0] == height;
  }

  /** The inner loop: while the topmost nodes have equal height, hash them together. */
  method MergeTop(env: Env, ghost t: Tree, treeAddr: Address.Buffer, stack: SlotBuffer, heights0: seq<nat>,
                  offset0: nat, idx: nat,
                  leafIdx: nat, idxOffset: nat, height: nat, auth: SlotBuffer, ghost before: seq<Bytes>)
    returns (offset: nat, heights: seq<nat>)
    requires env.Valid() && t.Valid() && t.c == env.c && t.base == t.base.Base() && stack != auth
    requires Fits(env, treeAddr) && treeAddr.rec.Base() == t.base
    requires Aligned(idxOffset, height) && idx < Pow2(height) && idxOffset + Pow2(height) <= Pow2(32)
    requires Merging(t, idxOffset, idx, height, 0, offset0, heights0, stack.slots)
    requires AuthHolds(t, leafIdx, idxOffset, idx, 0, PathSlots(leafIdx, height), before, auth.slots)
    modifies stack, treeAddr, treeAddr.bytes, auth
    ensures Fits(env, treeAddr) && treeAddr.rec.Base() == t.base
    ensures |heights| == height + 1 && Between(t, idxOffset, idx + 1, height, offset, heights, stack.slots)
    ensures AuthHolds(t, leafIdx, idxOffset, idx + 1, 0, PathSlots(leafIdx, height), before, auth.slots)
  {
    hide Node, Aligned, Levels, Between, Merging, AuthHolds, OnesBelow, Address.Buffer.Valid, Pow2;
    offset, heights := offset0, heights0;
    ghost var h := 0;
    MergingMeans(t, idxOffset, idx, height, 0, offset, heights, stack.slots);
    assert Shr(idx, 0) == idx by { ShrNothing(idx); }
    SaveAuth(t, auth, 0, stack.slots[offset - 1], idx, leafIdx, idx, idxOffset, height, before);
    EqualHeights(t, idxOffset, idx, height, h, offset, heights, stack.slots);
    while offset >= 2 && heights[offset - 1] == heights[offset - 2]
      invariant Fits(env, treeAddr) && treeAddr.rec.Base() == t.base
      invariant Merging(t, idxOffset, idx, height, h, offset, heights, stack.slots)
      invariant |heights| == |stack.slots| == height + 1 && 1 <= offset <= height + 1 && h <= height
      invariant heights[offset - 1] == h
      invariant (offset >= 2 && heights[offset - 1] == heights[offset - 2]) <==> BitSet(idx, h)
      invariant BitSet(idx, h) ==> h < height && offset >= 2
      invariant AuthHolds(t, leafIdx, idxOffset, idx, h + 1, PathSlots(leafIdx, height), before, auth.slots)
      decreases offset
    {
      var level := heights[offset - 1] + 1;
      MergePair(env, t, treeAddr, stack, heights, offset, level, idx, idxOffset, height);
      heights := heights[offset - 2 := level];
      offset := offset - 1;
      h := h + 1;
      MergingMeans(t, idxOffset, idx, height, h, offset, heights, stack.slots);
      SaveAuth(t, auth, level, stack.slots[offset - 1], Shr(idx, level), leafIdx, idx, idxOffset, height, before);
      EqualHeights(t, idxOffset, idx, height, h, offset, heights, stack.slots);
    }
    MergeDone(t, idxOffset, idx, height, h, offset, heights, stack.slots);
    MergedAuth(t, leafIdx, idxOffset, idx, h, height, before, auth.slots, offset, heights, stack.slots);
  }

  lemma MergingMeans(t: Tree, off: nat, idx: nat, height: nat, h: nat, offset: nat, heights: seq<nat>,
                     stack: seq<Bytes>)
    requires t.Valid() && Merging(t, off, idx, height, h, offset, heights, stack)
    ensures |heights| == |stack| == height + 1 && 1 <= offset <= height + 1 && h <= height && OnesBelow(idx, h)
    ensures stack[offset - 1] == Node(t, h, Shr(off, h) + Shr(idx, h))
  {
    hide Node, Shr, LeftNodes, Levels, IsLeft;
  }

  lemma MergedAuth(t: Tree, leafIdx: nat, off: nat, idx: nat, h: nat, height: nat, before: seq<Bytes>,
                   slots: seq<Bytes>, offset: nat, heights: seq<nat>, stack: seq<Bytes>)
    requires t.Valid() && Merging(t, off, idx, height, h, offset, heights, stack) && !BitSet(idx, h)
    requires AuthHolds(t, leafIdx, off, idx, h + 1, PathSlots(leafIdx, height), before, slots)
    ensures AuthHolds(t, leafIdx, off, idx + 1, 0, PathSlots(leafIdx, height), before, slots)
  {
    hide AuthNode, Shr;
    if h == PathSlots(leafIdx, height) {
      assert AuthHolds(t, leafIdx, off, idx, h, PathSlots(leafIdx, height), before, slots);
    }
    AuthNextLeaf(t, leafIdx, off, idx, h, PathSlots(leafIdx, height), before, slots);
  }

  /** The parent of the two topmost nodes replaces the lower one. */
  method MergePair(env: Env, ghost t: Tree, treeAddr: Address.Buffer, stack: SlotBuffer, ghost heights: seq<nat>,
                   offset: nat, level: nat, idx: nat, idxOffset: nat, ghost height: nat)
    requires env.Valid() && t.Valid() && t.c == env.c && t.base == t.base.Base()
    requires Fits(env, treeAddr) && treeAddr.rec.Base() == t.base
    requires Aligned(idxOffset, height) && idx < Pow2(height) && idxOffset + Pow2(height) <= Pow2(32)
    requires level > 0 && Merging(t, idxOffset, idx, height, level - 1, offset, heights, stack.slots)
    requires BitSet(idx, level - 1) && level - 1 < height && 2 <= offset <= |stack.slots| && |heights| == |stack.slots|
    modifies stack, treeAddr, treeAddr.bytes
    ensures Fits(env, treeAddr) && treeAddr.rec.Base() == t.base
    ensures Merging(t, idxOffset, idx, height, level, offset - 1, heights[offset - 2 := level], stack.slots)
  {
    hide Node, Aligned, Levels, Merging, OnesBelow, Address.Buffer.Valid, Pow2, TweakHash, Shr;
    ghost var expected := Node(t, level, Shr(idxOffset, level) + Shr(idx, level));
    MergingMeans(t, idxOffset, idx, height, level - 1, offset, heights, stack.slots);
    MergeStep(t, idxOffset, idx, height, level - 1, offset, heights, stack.slots, expected);
    var parent := JoinLeft(env, t, treeAddr, stack.slots[offset - 2], stack.slots[offset - 1], level - 1,
        Shr(idx, level),
                           Shr(idxOffset, level), idx, idxOffset, height);
    stack.Put(offset - 2, parent);
  }
}
