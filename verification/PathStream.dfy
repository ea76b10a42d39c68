/** The level loop shared by fors_sign_streaming and merkle_sign_streaming: path nodes are emitted in order while the
    root is computed from a two-node buffer. */
module PathStream {
  import opened Arith
  import opened Bits
  import opened Bytes
  import opened Params
  import opened TweakableHash
  import opened Merkle
  import opened LeafGen
  import Address
  import ComputeRoot
  import Stream
  import TreeHash

  /** `current` holds the path node of level `h` in the slot given by its index bit. */
  ghost predicate OnPath(t: Tree, idx: nat, off: nat, h: nat, current: seq<Bytes>)
    requires t.Valid()
  {
    |current| == 2 && current[Shr(idx, h) % 2] == Node(t, h, Shr(off, h) + Shr(idx, h))
  }

  /** `write_stream(target)`, then the parent of the two nodes goes to the slot of its own index bit. */
  method FinishLevel(env: Env, ghost t: Tree, stream: Stream.Stream, current: SlotBuffer, target: Bytes, idx: nat,
                     off: nat, h: nat, ghost height: nat, treeAddr: Address.Buffer)
    requires ComputeRoot.Ready(env, treeAddr, t.base, idx, off) && t.Valid() && t.c == env.c
    requires Aligned(off, height) && h < height
    requires OnPath(t, idx, off, h, current.slots) && target == AuthNode(t, idx, off, h)
    requires stream.Valid() && stream.buffer != treeAddr.bytes
    modifies current, stream, stream.buffer, treeAddr, treeAddr.bytes
    ensures ComputeRoot.Ready(env, treeAddr, t.base, idx, off)
    ensures OnPath(t, idx, off, h + 1, current.slots)
    ensures stream.Valid() && stream.Emitted() == old(stream.Emitted()) + AuthNode(t, idx, off, h)
  {
    hide Stream.Linked, Node, AuthNode, Join, ComputeRoot.Ready, Stream.Stream.Emitted, Aligned;
    current.Put(1 - Shr(idx, h) % 2, target);
    stream.WriteStream(target);
    PathJoin(t, idx, off, h, height);
    var parent := ComputeRoot.ParentOf(env, treeAddr, current.slots[0] + current.slots[1], h + 1, Shr(idx, h + 1),
                                       Shr(off, h + 1), t.base, idx, off);
    current.Put(Shr(idx, h + 1) % 2, parent);
  }

  /** The sibling at level `h`, rebuilt from its own subtree: `treehashx1(target, 0, ..., off + start, h, ...)`.
      The signing leaf is not below it, so nothing is emitted. */
  method RebuildSibling(gen: Generator, idx: nat, off: nat, h: nat, height: nat, treeAddr: Address.Buffer)
    returns (target: Bytes)
    requires gen.Valid() && ComputeRoot.Ready(gen.env, treeAddr, gen.Spec().base, idx, off)
    requires {treeAddr, treeAddr.bytes} !! gen.Footprint()
    requires Aligned(off, height) && h < height <= 31 && idx < Pow2(height) && off + Pow2(height) <= Pow2(32)
    requires gen.info.WotsStreaming? ==> gen.signLeaf == off + idx
    requires !gen.info.WotsPlain?
    modifies gen.Footprint(), treeAddr, treeAddr.bytes
    ensures gen.Valid() && ComputeRoot.Ready(gen.env, treeAddr, gen.Spec().base, idx, off)
    ensures target == AuthNode(gen.Spec(), idx, off, h)
    ensures gen.info.WotsStreaming? ==> gen.info.stream.Emitted() == old(gen.info.stream.Emitted())
  {
    hide Stream.Linked, Node, Generator.Valid, Generator.Spec, Pow2, Sibling, Shr, Aligned, SiblingStart;
    hide Address.Buffer.Valid;
    hide BitXor, Stream.Linked;
    XorOne(Shr(idx, h));
    var start := off + BitXor(Shr(idx, h), 1) * Pow2(h); // ((idx >> h) ^ 1) << h
    assert start == off + SiblingStart(idx, h) by { StartMeans(idx, h); }
    SiblingSubtree(gen.Spec(), idx, off, h, height);
    SiblingFits(idx, h, height);
    target := TreeHash.TreeHashX1(gen, 0, start, h, treeAddr, null);
    if gen.info.WotsStreaming? {
      UnderSiblingIsShr(idx, h, idx);
      NotOwnSibling(Shr(idx, h));
      NothingStreamed(gen, start, Pow2(h));
      assert old(gen.info.stream.Emitted()) + [] == old(gen.info.stream.Emitted());
    }
  }

  lemma StartMeans(idx: nat, h: nat)
    ensures SiblingStart(idx, h) == Sibling(Shr(idx, h)) * Pow2(h)
  {
    hide Sibling, Shr, Pow2;
  }

  lemma NothingStreamed(gen: Generator, from: nat, count: nat)
    requires gen.env.Valid() && |gen.steps| == gen.env.c.sc.p.Len() && !(from <= gen.signLeaf < from + count)
    ensures gen.Streamed(from, count) == []
  {
  }

  /** The sibling subtree ends inside the tree. */
  lemma SiblingFits(idx: nat, h: nat, height: nat)
    requires idx < Pow2(height) && h < height
    ensures SiblingStart(idx, h) + Pow2(h) <= Pow2(height)
  {
    hide Pow2, Sibling, Shr;
    TreeHash.SiblingInTree(idx, h, height);
    TreeHash.ShrPow(height, h);
    var s := Sibling(Shr(idx, h));
    MulMonotone(s + 1, Pow2(height - h), Pow2(h));
    Pow2Add(height - h, h);
    assert (s + 1) * Pow2(h) == s * Pow2(h) + Pow2(h);
  }
}
