/** compute_root and compute_root_streaming of utils.c: the verifier's side of a Merkle tree. */
module ComputeRoot {
  import opened Arith
  import opened Bytes
  import opened Params
  import opened TweakableHash
  import opened Merkle
  import Address
  import Stream
  import TreeHash

  /** The address in use for tree nodes, and the 32-bit index sum. */
  ghost predicate Ready(env: Env, addr: Address.Buffer, base: Address.Adrs, leafIdx: nat, idxOffset: nat)
    reads addr, addr.bytes
  {
    && env.Valid() && Fits(env, addr) && addr.rec.Base() == base && base == base.Base()
    && leafIdx + idxOffset < Pow2(32)
  }

  /** Hashes the two children in `buffer` into their parent at `level`. */
  method ParentOf(env: Env, addr: Address.Buffer, buffer: Bytes, level: nat, index: nat, offset: nat,
                  ghost base: Address.Adrs, ghost leafIdx: nat, ghost idxOffset: nat)
    returns (parent: Bytes)
    requires Ready(env, addr, base, leafIdx, idxOffset)
    requires index == Shr(leafIdx, level) && offset == Shr(idxOffset, level)
    modifies addr, addr.bytes
    ensures Ready(env, addr, base, leafIdx, idxOffset)
    ensures parent == Join(env.c, base, level, Shr(idxOffset, level) + Shr(leafIdx, level), buffer)
  {
    hide TweakHash, Address.Buffer.Valid, Pow2;
    TreeHash.IndexWidth();
    TreeHash.ShrLess(leafIdx, level);
    TreeHash.ShrLess(idxOffset, level);
    addr.SetTreeHeight(level);
    addr.SetTreeIndex(index + offset);
    assert addr.rec == base.WithNode(level, offset + index);
    parent := Thash(env, addr, buffer);
  }

  /** The two-node buffer: the path node goes left when the index bit is 1. */
  method PlaceChildren(index: nat, node: Bytes, sibling: Bytes, ghost leafIdx: nat, ghost level: nat)
    returns (buffer: Bytes)
    requires index == Shr(leafIdx, level)
    ensures buffer == Children(leafIdx, level, node, sibling)
  {
    buffer := if index % 2 == 1 then sibling + node else node + sibling;
  }

  /** One level of the climb. */
  lemma ClimbStep(c: Ctx, base: Address.Adrs, leaf: Bytes, idx: nat, off: nat, path: Bytes, h: nat)
    requires c.Valid() && (h + 1) * c.sc.p.n <= |path| && h * c.sc.p.n <= |path|
    ensures Climb(c, base, leaf, idx, off, path, h + 1)
            == Join(c, base, h + 1, Shr(off, h + 1) + Shr(idx, h + 1),
                    Children(idx, h, Climb(c, base, leaf, idx, off, path, h), Chunk(path, c.sc.p.n, h)))
  {
    hide Join, Children, Chunk;
  }

  lemma ClimbStart(c: Ctx, base: Address.Adrs, leaf: Bytes, idx: nat, off: nat, path: Bytes)
    requires c.Valid()
    ensures 0 * c.sc.p.n == 0 && Climb(c, base, leaf, idx, off, path, 0) == leaf
  {
  }

  lemma LevelInPath(h: nat, height: nat, n: nat, len: nat)
    requires h < height && height * n <= len
    ensures (h + 1) * n <= len && h * n <= len && (h + 1) * n == h * n + n
  {
    MulMonotone(h + 1, height, n);
    MulMonotone(h, height, n);
  }

  /** compute_root */
  method ComputeRoot(env: Env, leaf: Bytes, leafIdx: nat, idxOffset: nat, authPath: Bytes, height: nat,
                     addr: Address.Buffer, ghost base: Address.Adrs)
    returns (root: Bytes)
    requires Ready(env, addr, base, leafIdx, idxOffset)
    requires height >= 1 && height * env.c.sc.p.n <= |authPath|
    modifies addr, addr.bytes
    ensures Ready(env, addr, base, leafIdx, idxOffset)
    ensures root == Climb(env.c, base, leaf, leafIdx, idxOffset, authPath, height)
  {
    hide Climb, Chunk, Children, Join, Ready, Pow2;
    var n := env.c.sc.p.n;
    var index, offset := leafIdx, idxOffset;
    EnvValid(env, addr, base, leafIdx, idxOffset);
    LevelInPath(0, height, n, |authPath|);
    ClimbStart(env.c, base, leaf, leafIdx, idxOffset, authPath);
    var buffer := PlaceChildren(index, leaf, Chunk(authPath, n, 0), leafIdx, 0);
    var i := 0;
    while i < height - 1
      invariant 0 <= i <= height - 1 && (i + 1) * n <= |authPath| && i * n <= |authPath|
      invariant index == Shr(leafIdx, i) && offset == Shr(idxOffset, i)
      invariant Ready(env, addr, base, leafIdx, idxOffset)
      invariant buffer
                == Children(leafIdx, i, Climb(env.c, base, leaf, leafIdx, idxOffset, authPath, i),
                    Chunk(authPath, n, i))
    {
      index, offset := index / 2, offset / 2;
      var node := ParentOf(env, addr, buffer, i + 1, index, offset, base, leafIdx, idxOffset);
      ClimbStep(env.c, base, leaf, leafIdx, idxOffset, authPath, i);
      LevelInPath(i + 1, height, n, |authPath|);
      buffer := PlaceChildren(index, node, Chunk(authPath, n, i + 1), leafIdx, i + 1);
      i := i + 1;
    }
    index, offset := index / 2, offset / 2;
    ClimbStep(env.c, base, leaf, leafIdx, idxOffset, authPath, i);
    root := ParentOf(env, addr, buffer, height, index, offset, base, leafIdx, idxOffset);
  }

  lemma EnvValid(env: Env, addr: Address.Buffer, base: Address.Adrs, leafIdx: nat, idxOffset: nat)
    requires Ready(env, addr, base, leafIdx, idxOffset)
    ensures env.Valid()
  {
  }

  /** Path node `i` from the stream. */
  method ReadSibling(stream: Stream.Stream, n: nat, ghost pending: Bytes, ghost path: Bytes, ghost i: nat,
                     ghost height: nat)
    returns (sibling: Bytes)
    requires stream.Reading() && n <= Stream.BUFFER_SIZE && i < height && |path| == height * n && path <= pending
    requires i * n <= |pending| && stream.Pending() == pending[i * n..]
    modifies stream, stream.buffer
    ensures stream.Reading() && stream.received == old(stream.received)
    ensures (i + 1) * n <= |path| && sibling == Chunk(path, n, i) && stream.Pending() == pending[(i + 1) * n..]
  {
    hide Stream.Linked, Chunk, Stream.Stream.Pending;
    LevelInPath(i, height, n, |path|);
    assert path == pending[..height * n];
    ChunkOfFront(pending, n, i, height * n);
    sibling := Stream.ReadChunk(stream, n, pending, i, i * n);
  }

  /** compute_root_streaming: the same root from path nodes read one at a time, `height * N` bytes in all. */
  method ComputeRootStreaming(env: Env, stream: Stream.Stream, leaf: Bytes, leafIdx: nat, idxOffset: nat, height: nat,
                              addr: Address.Buffer, ghost base: Address.Adrs)
    returns (root: Bytes)
    requires Ready(env, addr, base, leafIdx, idxOffset)
    requires height >= 1 && stream.Reading() && height * env.c.sc.p.n <= stream.remaining && stream.buffer != addr.bytes
    modifies addr, addr.bytes, stream, stream.buffer
    ensures Ready(env, addr, base, leafIdx, idxOffset)
    ensures stream.Reading() && stream.received == old(stream.received)
    ensures |old(stream.Pending())| == old(stream.remaining)
    ensures stream.Pending() == old(stream.Pending())[height * env.c.sc.p.n..]
    ensures root == Climb(env.c, base, leaf, leafIdx, idxOffset, old(stream.Pending())[..height * env.c.sc.p.n], height)
  {
    hide Stream.Linked, Climb, Chunk, Children, Join, Ready, Pow2, Stream.Stream.Pending;
    var n := env.c.sc.p.n;
    ghost var pending := stream.Pending();
    ghost var path := pending[..height * n];
    var index, offset := leafIdx, idxOffset;
    EnvValid(env, addr, base, leafIdx, idxOffset);
    LevelInPath(0, height, n, |path|);
    ClimbStart(env.c, base, leaf, leafIdx, idxOffset, path);
    var sibling := ReadSibling(stream, n, pending, path, 0, height);
    var buffer := PlaceChildren(index, leaf, sibling, leafIdx, 0);
    var i := 0;
    while i < height - 1
      invariant 0 <= i <= height - 1 && (i + 1) * n <= |path| && i * n <= |path|
      invariant index == Shr(leafIdx, i) && offset == Shr(idxOffset, i)
      invariant Ready(env, addr, base, leafIdx, idxOffset)
      invariant stream.Reading() && stream.received == old(stream.received)
      invariant stream.Pending() == pending[(i + 1) * n..]
      invariant buffer == Children(leafIdx, i, Climb(env.c, base, leaf, leafIdx, idxOffset, path, i), Chunk(path, n, i))
    {
      LevelInPath(i + 1, height, n, |path|);
      sibling := ReadSibling(stream, n, pending, path, i + 1, height);
      index, offset := index / 2, offset / 2;
      var node := ParentOf(env, addr, buffer, i + 1, index, offset, base, leafIdx, idxOffset);
      ClimbStep(env.c, base, leaf, leafIdx, idxOffset, path, i);
      buffer := PlaceChildren(index, node, sibling, leafIdx, i + 1);
      i := i + 1;
    }
    index, offset := index / 2, offset / 2;
    ClimbStep(env.c, base, leaf, leafIdx, idxOffset, path, i);
    root := ParentOf(env, addr, buffer, height, index, offset, base, leafIdx, idxOffset);
  }
}
