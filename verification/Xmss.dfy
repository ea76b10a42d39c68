/** One layer of the hypertree (merkle.c): a WOTS signature followed by the authentication path of its key. */
module Xmss {
  import opened Arith
  import opened Bits
  import opened Bytes
  import opened Params
  import opened TweakableHash
  import opened Merkle
  import opened WotsDigits
  import opened LeafGen
  import opened WotsLeaf
  import Address
  import ComputeRoot
  import PathStream
  import Stream
  import TreeHash
  import Wots

  // ---- Specification ----

  /** The address of subtree `tree` of layer `layer`. */
  function Base(layer: nat, tree: nat): Address.Adrs {
    Address.ZERO_ADRS.(layer := layer % 256, tree := tree)
  }

  function SigBytes(p: Params): nat { p.WotsBytes() + p.TreeHeight() * p.n }

  function Root(c: Ctx, skSeed: Bytes, base: Address.Adrs): (r: Bytes)
    requires c.Valid()
    ensures |r| == c.sc.p.n
  {
    Node(WotsTree(c, skSeed, base), c.sc.p.TreeHeight(), 0)
  }

  function Signature(c: Ctx, skSeed: Bytes, base: Address.Adrs, msg: Bytes, idx: nat): (r: Bytes)
    requires c.Valid() && |msg| == c.sc.p.n
    ensures |r| == SigBytes(c.sc.p)
  {
    Wots.Signature(c, skSeed, Wots.KeypairAdrs(c, base, Address.TYPE_WOTS, idx), msg)
    + AuthPath(WotsTree(c, skSeed, base), idx, 0, c.sc.p.TreeHeight())
  }

  /** The root computed from a claimed signature of `msg` by key pair `idx`. */
  function RootFromSig(c: Ctx, base: Address.Adrs, idx: nat, sig: Bytes, msg: Bytes): (r: Bytes)
    requires c.Valid() && |msg| == c.sc.p.n && |sig| == SigBytes(c.sc.p)
    ensures |r| == c.sc.p.n
  {
    var cut := c.sc.p.WotsBytes();
    var leaf := Wots.LeafFromSig(c, base, idx, sig[..cut], msg);
    Climb(c, base.(typ := Address.TYPE_HASHTREE), leaf, idx, 0, sig[cut..], c.sc.p.TreeHeight())
  }

  /** An honest signature leads to the root of the subtree that signed, whatever the message. */
  lemma RootOfSignature(c: Ctx, skSeed: Bytes, base: Address.Adrs, msg: Bytes, idx: nat)
    requires c.Valid() && |msg| == c.sc.p.n && idx < Pow2(c.sc.p.TreeHeight())
    ensures RootFromSig(c, base, idx, Signature(c, skSeed, base, msg, idx), msg) == Root(c, skSeed, base)
  {
    hide Climb, AuthPath, Node, Wots.LeafFromSig, Wots.Signature, Wots.Leaf, Wots.KeypairAdrs;
    var p, t := c.sc.p, WotsTree(c, skSeed, base);
    var sig := Signature(c, skSeed, base, msg, idx);
    assert sig[..p.WotsBytes()] == Wots.Signature(c, skSeed, Wots.KeypairAdrs(c, base, Address.TYPE_WOTS, idx), msg);
    assert sig[p.WotsBytes()..] == AuthPath(t, idx, 0, p.TreeHeight());
    Wots.LeafOfSignature(c, skSeed, base, idx, msg);
    ZeroAligned(p.TreeHeight());
    RootFromAuthPath(t, idx, 0, p.TreeHeight());
  }

  lemma {:induction false} ZeroAligned(height: nat)
    ensures Aligned(0, height) && Shr(0, height) == 0
  {
    if height > 0 {
      ZeroAligned(height - 1);
    }
  }

  // ---- Code ----

  /** The caller's addresses name the subtree; everything else in them is left over. */
  ghost predicate SubtreeAddresses(env: Env, wotsAddr: Address.Buffer, treeAddr: Address.Buffer, base: Address.Adrs)
    reads wotsAddr, wotsAddr.bytes, treeAddr, treeAddr.bytes
  {
    && wotsAddr != treeAddr && wotsAddr.bytes != treeAddr.bytes
    && Fits(env, wotsAddr) && Fits(env, treeAddr)
    && base == Base(base.layer, base.tree)
    && wotsAddr.rec.layer == base.layer && wotsAddr.rec.tree == base.tree
    && treeAddr.rec.Base().(typ := 0) == base
  }

  /** The set_type and copy_subtree_addr calls at the start of merkle_sign. */
  method PrepareAddresses(env: Env, wotsAddr: Address.Buffer, treeAddr: Address.Buffer, ghost base: Address.Adrs)
    returns (leafAddr: Address.Buffer, pkAddr: Address.Buffer)
    requires env.Valid() && SubtreeAddresses(env, wotsAddr, treeAddr, base)
    modifies treeAddr, treeAddr.bytes
    ensures fresh(leafAddr) && fresh(leafAddr.bytes) && fresh(pkAddr) && fresh(pkAddr.bytes)
    ensures LeafAddresses(env, leafAddr, pkAddr, base)
    ensures SubtreeAddresses(env, wotsAddr, treeAddr, base)
    ensures treeAddr.rec.Base() == base.(typ := Address.TYPE_HASHTREE)
  {
    hide Address.Buffer.Valid;
    leafAddr := new Address.Buffer(env.c.sc.Layout());
    pkAddr := new Address.Buffer(env.c.sc.Layout());
    treeAddr.SetType(Address.TYPE_HASHTREE);
    leafAddr.SetType(Address.TYPE_WOTS);
    pkAddr.SetType(Address.TYPE_WOTSPK);
    leafAddr.CopySubtree(wotsAddr);
    pkAddr.CopySubtree(wotsAddr);
  }

  /** merkle_sign: `msg` is the value of `root` on entry. The leaf index ~0 asks for the root only. */
  method MerkleSign(env: Env, msg: Bytes, skSeed: Bytes, wotsAddr: Address.Buffer, treeAddr: Address.Buffer,
                    idxLeaf: nat, ghost base: Address.Adrs)
    returns (sig: Bytes, root: Bytes)
    requires env.Valid() && SubtreeAddresses(env, wotsAddr, treeAddr, base) && |msg| == env.c.sc.p.n
    requires idxLeaf < Pow2(env.c.sc.p.TreeHeight()) || idxLeaf == NONE
    modifies treeAddr, treeAddr.bytes
    ensures SubtreeAddresses(env, wotsAddr, treeAddr, base)
    ensures treeAddr.rec.Base() == base.(typ := Address.TYPE_HASHTREE)
    ensures root == Root(env.c, skSeed, base)
    ensures idxLeaf < Pow2(env.c.sc.p.TreeHeight()) ==> sig == Signature(env.c, skSeed, base, msg, idxLeaf)
  {
    hide LeafAddresses, Node, Signature, ChainLengths, Wots.KeypairAdrs, Address.Buffer.Valid, Pow2;
    hide TreeHash.AuthHolds, Flatten;
    var p := env.c.sc.p;
    var steps := ComputeChainLengths(p, msg);
    var leafAddr, pkAddr := PrepareAddresses(env, wotsAddr, treeAddr, base);
    var wotsSig := new SlotBuffer(p.Len());
    var auth := new SlotBuffer(p.TreeHeight());
    var gen := new Generator(env, skSeed, WotsPlain(wotsSig), leafAddr, pkAddr, idxLeaf, steps, base);
    ZeroAligned(p.TreeHeight());
    TreeFits(p);
    ghost var authBefore := auth.slots;
    root := TreeHash.TreeHashX1(gen, idxLeaf, 0, p.TreeHeight(), treeAddr, auth);
    TreeHash.AuthLength(gen.Spec(), idxLeaf, 0, Pow2(p.TreeHeight()), 0, p.TreeHeight(), authBefore, auth.slots);
    sig := Flatten(wotsSig.slots) + Flatten(auth.slots);
    if idxLeaf < Pow2(p.TreeHeight()) {
      AssembleSignature(env.c, skSeed, base, msg, idxLeaf, wotsSig.slots, authBefore, auth.slots);
    }
  }

  /** The signature memory after the tree hash, read as bytes. */
  lemma AssembleSignature(c: Ctx, skSeed: Bytes, base: Address.Adrs, msg: Bytes, idx: nat, wotsSlots: seq<Bytes>,
                          authBefore: seq<Bytes>, auth: seq<Bytes>)
    requires c.Valid() && |msg| == c.sc.p.n && idx < Pow2(c.sc.p.TreeHeight()) && |auth| == c.sc.p.TreeHeight()
    requires wotsSlots
             == SigNodes(c, skSeed, Wots.KeypairAdrs(c, base, Address.TYPE_WOTS, idx), ChainLengths(c.sc.p, msg))
    requires TreeHash.AuthHolds(WotsTree(c, skSeed, base), idx, 0, Pow2(c.sc.p.TreeHeight()), 0, c.sc.p.TreeHeight(),
             authBefore, auth)
    ensures Flatten(wotsSlots) + Flatten(auth) == Signature(c, skSeed, base, msg, idx)
  {
    hide Node, AuthPath, ChainLengths, Wots.Values, TreeHash.AuthHolds, Pow2, Wots.KeypairAdrs, Flatten;
    var kp, steps := Wots.KeypairAdrs(c, base, Address.TYPE_WOTS, idx), ChainLengths(c.sc.p, msg);
    FlattenSigNodes(c, skSeed, kp, steps, c.sc.p.Len());
    assert wotsSlots[..c.sc.p.Len()] == wotsSlots;
    TreeHash.AuthComplete(WotsTree(c, skSeed, base), idx, 0, c.sc.p.TreeHeight(), authBefore, auth);
  }

  lemma TreeFits(p: Params)
    requires p.Valid()
    ensures 1 <= p.TreeHeight() <= 16 && 0 + Pow2(p.TreeHeight()) <= Pow2(32) && Pow2(p.TreeHeight()) <= 65536
  {
    hide Pow2;
    Pow2Monotone(p.TreeHeight(), 16);
    Pow2Monotone(16, 32);
    SmallPowers();
    Pow2Sixteen();
  }

  lemma Pow2Sixteen()
    ensures Pow2(16) == 65536
  {
    assert Pow2(8) == 256;
  }

  /** Two zeroed addresses with the layer of the top tree. */
  method TopAddresses(env: Env) returns (wotsAddr: Address.Buffer, treeAddr: Address.Buffer)
    requires env.Valid()
    ensures fresh(wotsAddr) && fresh(wotsAddr.bytes) && fresh(treeAddr) && fresh(treeAddr.bytes)
    ensures SubtreeAddresses(env, wotsAddr, treeAddr, Base(env.c.sc.p.d - 1, 0))
  {
    hide Address.Buffer.Valid;
    treeAddr := new Address.Buffer(env.c.sc.Layout());
    wotsAddr := new Address.Buffer(env.c.sc.Layout());
    treeAddr.SetLayer(env.c.sc.p.d - 1);
    wotsAddr.SetLayer(env.c.sc.p.d - 1);
  }

  /** merkle_gen_root: the root of the top layer's only subtree. */
  method MerkleGenRoot(env: Env, skSeed: Bytes, uninitialized: Bytes) returns (root: Bytes)
    requires env.Valid() && |uninitialized| == env.c.sc.p.n
    ensures root == Root(env.c, skSeed, Base(env.c.sc.p.d - 1, 0))
  {
    hide SubtreeAddresses, Root, Signature, Pow2;
    var wotsAddr, topTreeAddr := TopAddresses(env);
    var sig;
    sig, root := MerkleSign(env, uninitialized, skSeed, wotsAddr, topTreeAddr, NONE, Base(env.c.sc.p.d - 1, 0));
  }

  /** The sibling at level `h`: a single leaf at level 0, a rebuilt subtree above. */
  method SiblingNode(gen: Generator, idx: nat, h: nat, height: nat, treeAddr: Address.Buffer) returns (target: Bytes)
    requires gen.Valid() && gen.info.WotsStreaming? && gen.signLeaf == idx
    requires ComputeRoot.Ready(gen.env, treeAddr, gen.Spec().base, idx, 0)
    requires {treeAddr, treeAddr.bytes} !! gen.Footprint()
    requires h < height <= 31 && idx < Pow2(height) && Pow2(height) <= Pow2(32)
    modifies gen.Footprint(), treeAddr, treeAddr.bytes
    ensures gen.Valid() && ComputeRoot.Ready(gen.env, treeAddr, gen.Spec().base, idx, 0)
    ensures target == AuthNode(gen.Spec(), idx, 0, h)
    ensures gen.info.stream.Emitted() == old(gen.info.stream.Emitted())
  {
    hide Stream.Linked, Node, Generator.Valid, Generator.Spec, Pow2, Generator.Streamed, Address.Buffer.Valid;
    if h == 0 {
      TreeHash.SiblingInTree(idx, 0, height);
      TreeHash.IndexWidth();
      XorOne(idx);
      target := gen.Generate(BitXor(idx, 1));
      PathStream.NothingStreamed(gen, Sibling(idx), 1);
      assert old(gen.info.stream.Emitted()) + [] == old(gen.info.stream.Emitted());
      LeafIsAuthNode(gen.Spec(), idx);
    } else {
      ZeroAligned(height);
      target := PathStream.RebuildSibling(gen, idx, 0, h, height, treeAddr);
    }
  }

  lemma LeafIsAuthNode(t: Tree, idx: nat)
    requires t.Valid()
    ensures AuthNode(t, idx, 0, 0) == t.leaf(Sibling(idx))
  {
  }

  /** One level: the sibling is rebuilt and emitted, and the parent computed. */
  method EmitLevel(gen: Generator, stream: Stream.Stream, current: SlotBuffer, idx: nat, h: nat, height: nat,
                   treeAddr: Address.Buffer)
    requires gen.Valid() && gen.info == WotsStreaming(stream) && gen.signLeaf == idx
    requires ComputeRoot.Ready(gen.env, treeAddr, gen.Spec().base, idx, 0)
    requires {treeAddr, treeAddr.bytes} !! gen.Footprint() && current !in gen.Footprint()
    requires h < height <= 31 && idx < Pow2(height) && Pow2(height) <= Pow2(32)
    requires PathStream.OnPath(gen.Spec(), idx, 0, h, current.slots)
    modifies gen.Footprint(), treeAddr, treeAddr.bytes, current
    ensures gen.Valid() && ComputeRoot.Ready(gen.env, treeAddr, gen.Spec().base, idx, 0)
    ensures PathStream.OnPath(gen.Spec(), idx, 0, h + 1, current.slots)
    ensures stream.Emitted() == old(stream.Emitted()) + AuthNode(gen.Spec(), idx, 0, h)
  {
    hide Stream.Linked, Node, AuthNode, Generator.Spec, Pow2, Address.Buffer.Valid, LeafAddresses, ComputeRoot.Ready;
    hide Stream.Stream.Emitted, PathStream.OnPath, Params.Valid, Scheme.Valid;
    ZeroAligned(height);
    var target := SiblingNode(gen, idx, h, height, treeAddr);
    PathStream.FinishLevel(gen.env, gen.Spec(), stream, current, target, idx, 0, h, height, treeAddr);
  }

  /** The level loop of merkle_sign_streaming, after the signing leaf has been generated. */
  method EmitPath(gen: Generator, stream: Stream.Stream, current: SlotBuffer, idx: nat, height: nat,
                  treeAddr: Address.Buffer)
    returns (root: Bytes)
    requires gen.Valid() && gen.info == WotsStreaming(stream) && gen.signLeaf == idx
    requires ComputeRoot.Ready(gen.env, treeAddr, gen.Spec().base, idx, 0)
    requires {treeAddr, treeAddr.bytes} !! gen.Footprint() && current !in gen.Footprint()
    requires 1 <= height <= 31 && idx < Pow2(height) && Pow2(height) <= Pow2(32)
    requires PathStream.OnPath(gen.Spec(), idx, 0, 0, current.slots)
    modifies gen.Footprint(), treeAddr, treeAddr.bytes, current
    ensures gen.Valid() && ComputeRoot.Ready(gen.env, treeAddr, gen.Spec().base, idx, 0)
    ensures root == Node(gen.Spec(), height, 0)
    ensures stream.Emitted() == old(stream.Emitted()) + AuthPath(gen.Spec(), idx, 0, height)
  {
    hide Stream.Linked, Node, AuthNode, Generator.Spec, Generator.Valid, Pow2, Address.Buffer.Valid, ComputeRoot.Ready;
    hide Stream.Stream.Emitted;
    ZeroAligned(height);
    for h := 0 to height
      invariant gen.Valid() && ComputeRoot.Ready(gen.env, treeAddr, gen.Spec().base, idx, 0)
      invariant PathStream.OnPath(gen.Spec(), idx, 0, h, current.slots)
      invariant stream.Emitted() == old(stream.Emitted()) + AuthPath(gen.Spec(), idx, 0, h)
    {
      EmitLevel(gen, stream, current, idx, h, height, treeAddr);
    }
    ShrBound(idx, height, height);
    PowZero();
    root := current.slots[Shr(idx, height) % 2];
  }

  /** merkle_sign_streaming: the WOTS signature is emitted first and once, the path nodes follow in order; for key
      generation (leaf index ~0) nothing is emitted. */
  method MerkleSignStreaming(env: Env, stream: Stream.Stream, msg: Bytes, skSeed: Bytes, wotsAddr: Address.Buffer,
                             treeAddr: Address.Buffer, idxLeaf: nat, ghost base: Address.Adrs)
    returns (root: Bytes)
    requires env.Valid() && SubtreeAddresses(env, wotsAddr, treeAddr, base) && |msg| == env.c.sc.p.n
    requires idxLeaf < Pow2(env.c.sc.p.TreeHeight()) || idxLeaf == NONE
    requires stream.Valid() && stream.buffer != treeAddr.bytes && stream.buffer != wotsAddr.bytes
    modifies treeAddr, treeAddr.bytes, stream, stream.buffer
    ensures SubtreeAddresses(env, wotsAddr, treeAddr, base)
    ensures treeAddr.rec.Base() == base.(typ := Address.TYPE_HASHTREE)
    ensures root == Root(env.c, skSeed, base)
    ensures stream.Valid()
    ensures stream.Emitted() == old(stream.Emitted())
                                + if idxLeaf == NONE then [] else Signature(env.c, skSeed, base, msg, idxLeaf)
  {
    hide Stream.Linked, LeafAddresses, Node, AuthPath, Wots.Values, ChainLengths, Address.Buffer.Valid, Pow2;
    hide Wots.KeypairAdrs;
    hide TreeHash.AuthHolds, ComputeRoot.Ready, Stream.Stream.Emitted;
    var p := env.c.sc.p;
    var steps := ComputeChainLengths(p, msg);
    var leafAddr, pkAddr := PrepareAddresses(env, wotsAddr, treeAddr, base);
    var gen := new Generator(env, skSeed, WotsStreaming(stream), leafAddr, pkAddr, idxLeaf, steps, base);
    TreeFits(p);
    ZeroAligned(p.TreeHeight());
    ghost var before := stream.Emitted();
    if idxLeaf == NONE {
      root := TreeHash.TreeHashX1(gen, idxLeaf, 0, p.TreeHeight(), treeAddr, null);
      PathStream.NothingStreamed(gen, 0, Pow2(p.TreeHeight()));
      assert stream.Emitted() == before + [];
      return;
    }
    root := EmitSignature(gen, stream, idxLeaf, p.TreeHeight(), treeAddr);
    assert before
        + (Wots.Values(env.c, skSeed, gen.SigningKey(), steps, p.Len())
            + AuthPath(gen.Spec(), idxLeaf, 0, p.TreeHeight()))
           == before + Signature(env.c, skSeed, base, msg, idxLeaf);
  }

  /** The signing leaf first, whose generation emits the WOTS signature; then the path. */
  method EmitSignature(gen: Generator, stream: Stream.Stream, idx: nat, height: nat, treeAddr: Address.Buffer)
    returns (root: Bytes)
    requires gen.Valid() && gen.info == WotsStreaming(stream) && gen.signLeaf == idx
    requires Fits(gen.env, treeAddr) && treeAddr.rec.Base() == gen.Spec().base
    requires {treeAddr, treeAddr.bytes} !! gen.Footprint()
    requires 1 <= height <= 31 && idx < Pow2(height) && Pow2(height) <= Pow2(32)
    modifies gen.Footprint(), treeAddr, treeAddr.bytes
    ensures gen.Valid() && Fits(gen.env, treeAddr) && treeAddr.rec.Base() == gen.Spec().base
    ensures root == Node(gen.Spec(), height, 0)
    ensures stream.Emitted()
            == old(stream.Emitted())
               + (Wots.Values(gen.env.c, gen.skSeed, gen.SigningKey(), gen.steps, |gen.steps|)
                   + AuthPath(gen.Spec(), idx, 0, height))
  {
    hide Stream.Linked, LeafAddresses, Node, AuthPath, Wots.Values, Address.Buffer.Valid, Pow2, Wots.KeypairAdrs;
    hide Generator.Valid, Generator.Spec, ComputeRoot.Ready, Stream.Stream.Emitted;
    ghost var before := stream.Emitted();
    var current := new SlotBuffer(2);
    TreeHash.IndexWidth();
    var leaf := gen.Generate(idx);
    current.Put(idx % 2, leaf);
    ReadyForPath(gen.env, treeAddr, gen.Spec(), idx, current.slots);
    root := EmitPath(gen, stream, current, idx, height, treeAddr);
    PathDone(gen.env, treeAddr, gen.Spec().base, idx);
    assert before + Wots.Values(gen.env.c, gen.skSeed, gen.SigningKey(), gen.steps, |gen.steps|)
        + AuthPath(gen.Spec(), idx, 0, height)
           == before + (Wots.Values(gen.env.c, gen.skSeed, gen.SigningKey(), gen.steps, |gen.steps|)
                        + AuthPath(gen.Spec(), idx, 0, height));
  }

  lemma PathDone(env: Env, treeAddr: Address.Buffer, base: Address.Adrs, idx: nat)
    requires ComputeRoot.Ready(env, treeAddr, base, idx, 0)
    ensures Fits(env, treeAddr) && treeAddr.rec.Base() == base
  {
  }

  lemma ReadyForPath(env: Env, treeAddr: Address.Buffer, t: Tree, idx: nat, current: seq<Bytes>)
    requires env.Valid() && t.Valid() && Fits(env, treeAddr) && treeAddr.rec.Base() == t.base && idx < Pow2(32)
    requires |current| == 2 && current[idx % 2] == t.leaf(idx)
    ensures ComputeRoot.Ready(env, treeAddr, t.base, idx, 0) && PathStream.OnPath(t, idx, 0, 0, current)
  {
  }

  /** merkle_gen_root_streaming: key generation leaves the stream untouched. */
  method MerkleGenRootStreaming(env: Env, stream: Stream.Stream, skSeed: Bytes, uninitialized: Bytes)
    returns (root: Bytes)
    requires env.Valid() && |uninitialized| == env.c.sc.p.n && stream.Valid()
    modifies stream, stream.buffer
    ensures root == Root(env.c, skSeed, Base(env.c.sc.p.d - 1, 0))
    ensures stream.Valid() && stream.Emitted() == old(stream.Emitted())
  {
    hide Stream.Linked, SubtreeAddresses, Root, Signature, Pow2, Stream.Stream.Emitted;
    var wotsAddr, topTreeAddr := TopAddresses(env);
    root := MerkleSignStreaming(env, stream, uninitialized, skSeed, wotsAddr, topTreeAddr, NONE,
        Base(env.c.sc.p.d - 1, 0));
    assert old(stream.Emitted()) + [] == old(stream.Emitted());
  }
}
