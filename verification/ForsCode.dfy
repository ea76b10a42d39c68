/** The four FORS routines of fors.c, proved against the functions of module Fors. */
module ForsCode {
  import opened Arith
  import opened Bytes
  import opened Params
  import opened TweakableHash
  import opened Merkle
  import opened LeafGen
  import Address
  import ComputeRoot
  import Fors
  import PathStream
  import Stream
  import TreeHash

  /** copy_keypair_addr and set_type on fresh addresses. */
  method NewAddress(env: Env, forsAddr: Address.Buffer, typ: nat) returns (a: Address.Buffer)
    requires env.Valid() && Fits(env, forsAddr) && typ < 256
    ensures fresh(a) && fresh(a.bytes) && Fits(env, a)
    ensures a.rec == Address.ZERO_ADRS.WithKeypairOf(env.c.sc.p.WideKeypair(), forsAddr.rec).(typ := typ)
  {
    hide Address.Buffer.Valid;
    a := new Address.Buffer(env.c.sc.Layout());
    a.CopyKeypair(env.c.sc.p.WideKeypair(), forsAddr);
    a.SetType(typ);
  }

  /** 32-bit leaf indices across all trees do not overflow. */
  lemma TreeFits(p: Params, i: nat)
    requires p.Valid() && i < p.forsTrees
    ensures Fors.LeafOffset(p, i) + Pow2(p.forsHeight) <= Pow2(32)
  {
    hide Pow2;
    MulMonotone(i + 1, p.forsTrees, Pow2(p.forsHeight));
    MulStep(i + 1, Pow2(p.forsHeight));
  }

  /** The state between two trees: the tree address names the key pair, the generator is ready. */
  ghost predicate Ready(gen: Generator, treeAddr: Address.Buffer, kp: Address.Adrs)
    reads gen.Footprint(), treeAddr, treeAddr.bytes
  {
    && gen.Valid() && gen.info.ForsLeaves? && gen.base == kp && kp == kp.Base()
    && {treeAddr, treeAddr.bytes} !! gen.Footprint()
    && Fits(gen.env, treeAddr) && treeAddr.rec.Base() == kp
  }

  /** Sets the address of the selected leaf and derives its secret value. */
  method SelectSecret(gen: Generator, treeAddr: Address.Buffer, index: nat, ghost kp: Address.Adrs) returns (sk: Bytes)
    requires Ready(gen, treeAddr, kp) && index < Pow2(32)
    modifies treeAddr, treeAddr.bytes
    ensures Ready(gen, treeAddr, kp) && sk == Fors.SecretValue(gen.env.c, gen.skSeed, kp, index)
  {
    hide Stream.Linked, Prf, Address.Buffer.Valid, Pow2, Generator.Valid;
    TreeHash.IndexWidth();
    treeAddr.SetTreeHeight(0);
    treeAddr.SetTreeIndex(index);
    assert treeAddr.rec == kp.WithNode(0, index);
    sk := PrfAddr(gen.env, gen.skSeed, treeAddr);
  }

  /** One tree of fors_sign. */
  method SignTree(gen: Generator, treeAddr: Address.Buffer, m: Bytes, i: nat, index: nat, ghost kp: Address.Adrs)
    returns (part: Bytes, root: Bytes)
    requires Ready(gen, treeAddr, kp) && |m| == gen.env.c.sc.p.ForsMsgBytes() && i < gen.env.c.sc.p.forsTrees
    requires index == Fors.Index(gen.env.c.sc.p, m, i)
    modifies gen.Footprint(), treeAddr, treeAddr.bytes
    ensures Ready(gen, treeAddr, kp)
    ensures part == Fors.Part(gen.env.c, gen.skSeed, kp, m, i) && root == Fors.Root(gen.env.c, gen.skSeed, kp, i)
  {
    hide Stream.Linked, Node, AuthPath, Fors.Index, Fors.SecretValue, Fors.LeafOf, Pow2, TreeHash.AuthHolds, Aligned;
    hide Address.Buffer.Valid;
    var p := gen.env.c.sc.p;
    var idxOffset := i * Pow2(p.forsHeight);
    TreeFits(p, i);
    part := SelectSecret(gen, treeAddr, index + idxOffset, kp);
    var auth := new SlotBuffer(p.forsHeight);
    ghost var before := auth.slots;
    Fors.OffsetAligned(p, i);
    root := TreeHash.TreeHashX1(gen, index, idxOffset, p.forsHeight, treeAddr, auth);
    TreeHash.AuthLength(gen.Spec(), index, idxOffset, Pow2(p.forsHeight), 0, p.forsHeight, before, auth.slots);
    TreeHash.AuthComplete(gen.Spec(), index, idxOffset, p.forsHeight, before, auth.slots);
    part := part + Flatten(auth.slots);
  }

  /** The three addresses and the leaf generator at the start of both signing routines. */
  method Prepare(env: Env, skSeed: Bytes, forsAddr: Address.Buffer)
    returns (gen: Generator, treeAddr: Address.Buffer, pkAddr: Address.Buffer)
    requires env.Valid() && Fits(env, forsAddr)
    ensures fresh(gen) && fresh(gen.Footprint()) && fresh(treeAddr) && fresh(treeAddr.bytes) && fresh(pkAddr)
    ensures fresh(pkAddr.bytes)
    ensures gen.env == env && gen.skSeed == skSeed && Ready(gen, treeAddr, Fors.TreeAdrs(env.c, forsAddr.rec))
    ensures Fits(env, pkAddr) && pkAddr.rec == Fors.PkAdrs(env.c, forsAddr.rec)
    ensures {pkAddr, pkAddr.bytes} !! gen.Footprint() && pkAddr != treeAddr && pkAddr.bytes != treeAddr.bytes
  {
    hide Stream.Linked, Address.Buffer.Valid;
    treeAddr := NewAddress(env, forsAddr, Address.TYPE_FORSTREE);
    var leafAddr := NewAddress(env, forsAddr, Address.TYPE_FORSTREE);
    pkAddr := NewAddress(env, forsAddr, Address.TYPE_FORSPK);
    gen := new Generator(env, skSeed, ForsLeaves, leafAddr, leafAddr, 0, [], Fors.TreeAdrs(env.c, forsAddr.rec));
  }

  /** fors_sign */
  method ForsSign(env: Env, m: Bytes, skSeed: Bytes, forsAddr: Address.Buffer) returns (sig: Bytes, pk: Bytes)
    requires env.Valid() && Fits(env, forsAddr) && |m| == env.c.sc.p.ForsMsgBytes()
    ensures sig == Fors.Signature(env.c, skSeed, forsAddr.rec, m) && pk == Fors.PublicKey(env.c, skSeed, forsAddr.rec)
  {
    hide Fors.Part, Fors.Root, Fors.Index, Ready, TweakHash, Fors.TreeAdrs, Fors.PkAdrs, Address.Buffer.Valid;
    var p := env.c.sc.p;
    ghost var kp := Fors.TreeAdrs(env.c, forsAddr.rec);
    var gen, treeAddr, pkAddr := Prepare(env, skSeed, forsAddr);
    var indices := Fors.MessageToIndices(p, m);
    var roots: Bytes;
    sig, roots := [], [];
    for i := 0 to p.forsTrees
      invariant fresh(gen.Footprint()) && Ready(gen, treeAddr, kp)
      invariant Fits(env, pkAddr) && pkAddr.rec == Fors.PkAdrs(env.c, forsAddr.rec)
      invariant sig == Fors.Parts(env.c, skSeed, kp, m, i) && roots == Fors.Roots(env.c, skSeed, kp, i)
    {
      var part, root := SignTree(gen, treeAddr, m, i, indices[i], kp);
      sig := sig + part;
      roots := roots + root;
    }
    pk := Thash(env, pkAddr, roots);
  }

  /** One level: the sibling is rebuilt and emitted, and the parent computed. */
  method EmitLevel(gen: Generator, stream: Stream.Stream, current: SlotBuffer, idx: nat, off: nat, h: nat, height: nat,
                   treeAddr: Address.Buffer)
    requires gen.Valid() && gen.info.ForsLeaves? && current !in gen.Footprint()
    requires {stream, stream.buffer} !! gen.Footprint()
    requires {treeAddr, treeAddr.bytes} !! gen.Footprint()
    requires ComputeRoot.Ready(gen.env, treeAddr, gen.Spec().base, idx, off) && stream.Valid()
    requires stream.buffer != treeAddr.bytes
    requires Aligned(off, height) && h < height <= 31 && idx < Pow2(height) && off + Pow2(height) <= Pow2(32)
    requires PathStream.OnPath(gen.Spec(), idx, off, h, current.slots)
    modifies gen.Footprint(), treeAddr, treeAddr.bytes, current, stream, stream.buffer
    ensures gen.Valid() && ComputeRoot.Ready(gen.env, treeAddr, gen.Spec().base, idx, off)
    ensures PathStream.OnPath(gen.Spec(), idx, off, h + 1, current.slots)
    ensures stream.Valid() && stream.Emitted() == old(stream.Emitted()) + AuthNode(gen.Spec(), idx, off, h)
  {
    hide Stream.Linked, Node, AuthNode, Generator.Spec, Generator.Valid, Pow2, Address.Buffer.Valid;
    hide Stream.Stream.Emitted;
    hide Aligned, ComputeRoot.Ready, PathStream.OnPath, Params.Valid, Scheme.Valid;
    var target := PathStream.RebuildSibling(gen, idx, off, h, height, treeAddr);
    PathStream.FinishLevel(gen.env, gen.Spec(), stream, current, target, idx, off, h, height, treeAddr);
  }

  /** The level loop of fors_sign_streaming. */
  method EmitPath(gen: Generator, stream: Stream.Stream, current: SlotBuffer, idx: nat, off: nat, height: nat,
                  treeAddr: Address.Buffer, ghost kp: Address.Adrs)
    returns (root: Bytes)
    requires Ready(gen, treeAddr, kp) && current !in gen.Footprint() && {stream, stream.buffer} !! gen.Footprint()
    requires stream.Valid() && stream.buffer != treeAddr.bytes
    requires Aligned(off, height) && 1 <= height <= 31 && idx < Pow2(height) && off + Pow2(height) <= Pow2(32)
    requires PathStream.OnPath(gen.Spec(), idx, off, 0, current.slots)
    modifies gen.Footprint(), treeAddr, treeAddr.bytes, current, stream, stream.buffer
    ensures Ready(gen, treeAddr, kp)
    ensures root == Node(gen.Spec(), height, Shr(off, height))
    ensures stream.Valid() && stream.Emitted() == old(stream.Emitted()) + AuthPath(gen.Spec(), idx, off, height)
  {
    hide Stream.Linked, Node, AuthNode, Generator.Spec, Generator.Valid, Pow2, Address.Buffer.Valid;
    hide Stream.Stream.Emitted;
    hide Aligned, ComputeRoot.Ready, Ready;
    EnterPath(gen, treeAddr, kp, idx, off);
    for h := 0 to height
      invariant gen.Valid() && ComputeRoot.Ready(gen.env, treeAddr, gen.Spec().base, idx, off)
      invariant PathStream.OnPath(gen.Spec(), idx, off, h, current.slots) && stream.Valid()
      invariant stream.Emitted() == old(stream.Emitted()) + AuthPath(gen.Spec(), idx, off, h)
    {
      EmitLevel(gen, stream, current, idx, off, h, height, treeAddr);
    }
    ShrBound(idx, height, height);
    PowZero();
    root := current.slots[Shr(idx, height) % 2];
    LeavePath(gen, treeAddr, kp, idx, off);
  }

  lemma EnterPath(gen: Generator, treeAddr: Address.Buffer, kp: Address.Adrs, idx: nat, off: nat)
    requires Ready(gen, treeAddr, kp) && idx + off < Pow2(32)
    ensures gen.Valid() && gen.info.ForsLeaves? && gen.base == kp && kp == kp.Base()
    ensures {treeAddr, treeAddr.bytes} !! gen.Footprint()
    ensures ComputeRoot.Ready(gen.env, treeAddr, gen.Spec().base, idx, off)
  {
  }

  lemma LeavePath(gen: Generator, treeAddr: Address.Buffer, kp: Address.Adrs, idx: nat, off: nat)
    requires gen.Valid() && gen.info.ForsLeaves? && gen.base == kp && kp == kp.Base()
    requires {treeAddr, treeAddr.bytes} !! gen.Footprint()
    requires ComputeRoot.Ready(gen.env, treeAddr, gen.Spec().base, idx, off)
    ensures Ready(gen, treeAddr, kp)
  {
  }

  /** The selected leaf goes to its side of the two-slot buffer. */
  method StartPath(gen: Generator, treeAddr: Address.Buffer, idx: nat, off: nat, ghost kp: Address.Adrs)
    returns (current: SlotBuffer)
    requires Ready(gen, treeAddr, kp) && idx + off < Pow2(32)
    modifies gen.Footprint()
    ensures Ready(gen, treeAddr, kp) && fresh(current) && PathStream.OnPath(gen.Spec(), idx, off, 0, current.slots)
  {
    hide Stream.Linked, Node, Pow2, Address.Buffer.Valid, Generator.Spec, Generator.Valid;
    current := new SlotBuffer(2);
    TreeHash.IndexWidth();
    var leaf := gen.Generate(idx + off);
    current.Put(idx % 2, leaf);
    LeafOnPath(gen.Spec(), idx, off, current.slots);
  }

  /** One tree of fors_sign_streaming. */
  method StreamTree(gen: Generator, stream: Stream.Stream, treeAddr: Address.Buffer, m: Bytes, i: nat, index: nat,
                    ghost kp: Address.Adrs)
    returns (root: Bytes)
    requires Ready(gen, treeAddr, kp) && |m| == gen.env.c.sc.p.ForsMsgBytes() && i < gen.env.c.sc.p.forsTrees
    requires index == Fors.Index(gen.env.c.sc.p, m, i)
    requires stream.Valid() && stream.buffer != treeAddr.bytes && {stream, stream.buffer} !! gen.Footprint()
    modifies gen.Footprint(), treeAddr, treeAddr.bytes, stream, stream.buffer
    ensures Ready(gen, treeAddr, kp)
    ensures stream.Valid() && stream.Emitted() == old(stream.Emitted()) + Fors.Part(gen.env.c, gen.skSeed, kp, m, i)
    ensures root == Fors.Root(gen.env.c, gen.skSeed, kp, i)
  {
    hide Stream.Linked, Node, AuthPath, Fors.Index, Fors.SecretValue, Fors.LeafOf, Pow2, Aligned;
    hide Address.Buffer.Valid, Stream.Stream.Emitted;
    var p := gen.env.c.sc.p;
    var idxOffset := i * Pow2(p.forsHeight);
    TreeFits(p, i);
    Fors.OffsetAligned(p, i);
    ghost var before := stream.Emitted();
    var curRoot := SelectSecret(gen, treeAddr, index + idxOffset, kp);
    stream.WriteStream(curRoot);
    var current := StartPath(gen, treeAddr, index, idxOffset, kp);
    root := EmitPath(gen, stream, current, index, idxOffset, p.forsHeight, treeAddr, kp);
    assert before + curRoot + AuthPath(gen.Spec(), index, idxOffset, p.forsHeight)
           == before + (curRoot + AuthPath(gen.Spec(), index, idxOffset, p.forsHeight));
  }

  lemma LeafOnPath(t: Tree, idx: nat, off: nat, current: seq<Bytes>)
    requires t.Valid() && |current| == 2 && current[idx % 2] == t.leaf(idx + off)
    ensures PathStream.OnPath(t, idx, off, 0, current)
  {
  }

  /** fors_sign_streaming */
  method ForsSignStreaming(env: Env, stream: Stream.Stream, m: Bytes, skSeed: Bytes, forsAddr: Address.Buffer)
    returns (pk: Bytes)
    requires env.Valid() && Fits(env, forsAddr) && |m| == env.c.sc.p.ForsMsgBytes()
    requires stream.Valid() && stream.buffer != forsAddr.bytes
    modifies stream, stream.buffer
    ensures pk == Fors.PublicKey(env.c, skSeed, forsAddr.rec)
    ensures stream.Valid() && stream.Emitted() == old(stream.Emitted()) + Fors.Signature(env.c, skSeed, forsAddr.rec, m)
  {
    hide Stream.Linked, Fors.Part, Fors.Parts, Fors.Roots, Fors.Index, Ready, TweakHash, Fors.TreeAdrs, Fors.PkAdrs;
    hide Address.Buffer.Valid;
    hide Stream.Stream.Emitted, HashState.Valid;
    var gen, treeAddr, pkAddr := Prepare(env, skSeed, forsAddr);
    var hash := new HashState(env, pkAddr);
    var indices := Fors.MessageToIndices(env.c.sc.p, m);
    StreamTrees(gen, stream, treeAddr, m, indices, hash, Fors.TreeAdrs(env.c, forsAddr.rec));
    pk := hash.Finalize();
  }

  /** The loop over the trees. */
  method StreamTrees(gen: Generator, stream: Stream.Stream, treeAddr: Address.Buffer, m: Bytes, indices: seq<nat>,
                     hash: HashState, ghost kp: Address.Adrs)
    requires Ready(gen, treeAddr, kp) && |m| == gen.env.c.sc.p.ForsMsgBytes() && gen.env.Valid()
    requires |indices| == gen.env.c.sc.p.forsTrees
    requires forall i :: 0 <= i < |indices| ==> indices[i] == Fors.Index(gen.env.c.sc.p, m, i)
    requires stream.Valid() && stream.buffer != treeAddr.bytes && {stream, stream.buffer} !! gen.Footprint()
    requires hash.Valid() && hash.c == gen.env.c && hash.fed == []
    requires {treeAddr, treeAddr.bytes, stream, stream.buffer} + gen.Footprint() !! hash.Footprint()
    modifies gen.Footprint(), treeAddr, treeAddr.bytes, stream, stream.buffer, hash.Footprint()
    ensures hash.Valid() && hash.fed == Fors.Roots(gen.env.c, gen.skSeed, kp, |indices|)
    ensures stream.Valid()
    ensures stream.Emitted() == old(stream.Emitted()) + Fors.Parts(gen.env.c, gen.skSeed, kp, m, |indices|)
  {
    hide Stream.Linked, Fors.Part, Fors.Root, Fors.Index, Ready, Address.Buffer.Valid, HashState.Valid;
    hide Stream.Stream.Emitted, Generator.Valid, Params.Valid, Scheme.Valid;
    ghost var before := stream.Emitted();
    for i := 0 to |indices|
      invariant Ready(gen, treeAddr, kp) && stream.Valid() && hash.Valid()
      invariant stream.Emitted() == before + Fors.Parts(gen.env.c, gen.skSeed, kp, m, i)
      invariant hash.fed == Fors.Roots(gen.env.c, gen.skSeed, kp, i)
    {
      StreamTreeInto(gen, stream, treeAddr, m, i, indices[i], hash, kp, before);
    }
  }

  /** One tree: its part goes to the stream and its root to the hash. */
  method StreamTreeInto(gen: Generator, stream: Stream.Stream, treeAddr: Address.Buffer, m: Bytes, i: nat, index: nat,
                        hash: HashState, ghost kp: Address.Adrs, ghost before: Bytes)
    requires Ready(gen, treeAddr, kp) && |m| == gen.env.c.sc.p.ForsMsgBytes() && gen.env.Valid()
    requires i < gen.env.c.sc.p.forsTrees && index == Fors.Index(gen.env.c.sc.p, m, i)
    requires stream.Valid() && stream.buffer != treeAddr.bytes && {stream, stream.buffer} !! gen.Footprint()
    requires hash.Valid() && hash.c == gen.env.c && hash.fed == Fors.Roots(gen.env.c, gen.skSeed, kp, i)
    requires {treeAddr, treeAddr.bytes, stream, stream.buffer} + gen.Footprint() !! hash.Footprint()
    requires stream.Emitted() == before + Fors.Parts(gen.env.c, gen.skSeed, kp, m, i)
    modifies gen.Footprint(), treeAddr, treeAddr.bytes, stream, stream.buffer, hash.Footprint()
    ensures Ready(gen, treeAddr, kp) && stream.Valid()
    ensures hash.Valid() && hash.fed == Fors.Roots(gen.env.c, gen.skSeed, kp, i + 1)
    ensures stream.Emitted() == before + Fors.Parts(gen.env.c, gen.skSeed, kp, m, i + 1)
  {
    hide Stream.Linked, Fors.Part, Fors.Root, Fors.Index, Ready, Address.Buffer.Valid, HashState.Valid;
    hide Stream.Stream.Emitted, Generator.Valid;
    var root := StreamTree(gen, stream, treeAddr, m, i, index, kp);
    hash.Update(root);
    AppendAssoc(before, Fors.Parts(gen.env.c, gen.skSeed, kp, m, i), Fors.Part(gen.env.c, gen.skSeed, kp, m, i));
  }

  /** One tree of fors_pk_from_sig. */
  method RootOfPart(env: Env, treeAddr: Address.Buffer, part: Bytes, m: Bytes, i: nat, index: nat,
                    ghost kp: Address.Adrs)
    returns (root: Bytes)
    requires env.Valid() && Fits(env, treeAddr) && treeAddr.rec.Base() == kp && kp == kp.Base()
    requires |m| == env.c.sc.p.ForsMsgBytes() && i < env.c.sc.p.forsTrees && index == Fors.Index(env.c.sc.p, m, i)
    requires |part| == Fors.PartBytes(env.c.sc.p)
    modifies treeAddr, treeAddr.bytes
    ensures Fits(env, treeAddr) && treeAddr.rec.Base() == kp
    ensures root == Fors.RootFromPart(env.c, kp, part, m, i)
  {
    hide Climb, Fors.Index, TweakHash, Pow2, Address.Buffer.Valid;
    var p := env.c.sc.p;
    var idxOffset := i * Pow2(p.forsHeight);
    TreeFits(p, i);
    TreeHash.IndexWidth();
    MulStep(p.forsHeight + 1, p.n);
    treeAddr.SetTreeHeight(0);
    treeAddr.SetTreeIndex(index + idxOffset);
    assert treeAddr.rec == kp.WithNode(0, idxOffset + index);
    var leaf := Thash(env, treeAddr, part[..p.n]);
    root := ComputeRoot.ComputeRoot(env, leaf, index, idxOffset, part[p.n..], p.forsHeight, treeAddr, kp);
  }

  /** fors_pk_from_sig */
  method ForsPkFromSig(env: Env, sig: Bytes, m: Bytes, forsAddr: Address.Buffer) returns (pk: Bytes)
    requires env.Valid() && Fits(env, forsAddr) && |m| == env.c.sc.p.ForsMsgBytes() && |sig| == env.c.sc.p.ForsBytes()
    ensures pk == Fors.PkFromSig(env.c, forsAddr.rec, sig, m)
  {
    hide Fors.RootFromPart, Fors.Index, TweakHash, Address.Buffer.Valid, Chunk, Fors.PartBytes;
    var p := env.c.sc.p;
    ghost var kp := Fors.TreeAdrs(env.c, forsAddr.rec);
    var treeAddr := NewAddress(env, forsAddr, Address.TYPE_FORSTREE);
    var pkAddr := NewAddress(env, forsAddr, Address.TYPE_FORSPK);
    var indices := Fors.MessageToIndices(p, m);
    Fors.PartsLength(p);
    var roots: Bytes := [];
    for i := 0 to p.forsTrees
      invariant Fits(env, treeAddr) && treeAddr.rec.Base() == kp
      invariant Fits(env, pkAddr) && pkAddr.rec == Fors.PkAdrs(env.c, forsAddr.rec)
      invariant i * Fors.PartBytes(p) <= |sig| && roots == Fors.RootsFromSig(env.c, kp, sig, m, i)
    {
      MulMonotone(i + 1, p.forsTrees, Fors.PartBytes(p));
      var root := RootOfPart(env, treeAddr, Chunk(sig, Fors.PartBytes(p), i), m, i, indices[i], kp);
      roots := roots + root;
    }
    pk := Thash(env, pkAddr, roots);
  }

  /** fors_pk_from_sig_streaming: secret value and path of each tree are read in turn, FORS bytes in all. */
  method ForsPkFromSigStreaming(env: Env, stream: Stream.Stream, m: Bytes, forsAddr: Address.Buffer) returns (pk: Bytes)
    requires env.Valid() && Fits(env, forsAddr) && |m| == env.c.sc.p.ForsMsgBytes()
    requires stream.Reading() && env.c.sc.p.ForsBytes() <= stream.remaining && stream.buffer != forsAddr.bytes
    modifies stream, stream.buffer
    ensures stream.Reading() && stream.received == old(stream.received)
    ensures |old(stream.Pending())| == old(stream.remaining)
    ensures stream.Pending() == old(stream.Pending())[env.c.sc.p.ForsBytes()..]
    ensures pk == Fors.PkFromSig(env.c, forsAddr.rec, old(stream.Pending())[..env.c.sc.p.ForsBytes()], m)
  {
    hide Stream.Linked, Fors.RootsFromSig, Fors.Index, TweakHash, Fors.TreeAdrs, Fors.PkAdrs, Address.Buffer.Valid;
    hide Fors.PartBytes;
    hide Stream.Stream.Pending, HashState.Valid;
    ghost var pending := stream.Pending();
    var treeAddr := NewAddress(env, forsAddr, Address.TYPE_FORSTREE);
    var pkAddr := NewAddress(env, forsAddr, Address.TYPE_FORSPK);
    BaseOfTrees(env.c, forsAddr.rec);
    var indices := Fors.MessageToIndices(env.c.sc.p, m);
    var hash := new HashState(env, pkAddr);
    Fors.PartsLength(env.c.sc.p);
    ReadTrees(env, stream, treeAddr, m, indices, hash, Fors.TreeAdrs(env.c, forsAddr.rec),
        pending[..env.c.sc.p.ForsBytes()]);
    pk := hash.Finalize();
  }

  lemma BaseOfTrees(c: Ctx, adr: Address.Adrs)
    ensures Fors.TreeAdrs(c, adr).Base() == Fors.TreeAdrs(c, adr)
    ensures Address.ZERO_ADRS.WithKeypairOf(c.sc.p.WideKeypair(), adr).(typ := Address.TYPE_FORSTREE)
            == Fors.TreeAdrs(c, adr)
    ensures Address.ZERO_ADRS.WithKeypairOf(c.sc.p.WideKeypair(), adr).(typ := Address.TYPE_FORSPK)
            == Fors.PkAdrs(c, adr)
  {
  }

  /** The loop over the trees; `sig` is the front of the pending bytes. */
  method ReadTrees(env: Env, stream: Stream.Stream, treeAddr: Address.Buffer, m: Bytes, indices: seq<nat>,
                   hash: HashState, ghost kp: Address.Adrs, ghost sig: Bytes)
    requires env.Valid() && Fits(env, treeAddr) && treeAddr.rec.Base() == kp && kp == kp.Base()
    requires |m| == env.c.sc.p.ForsMsgBytes() && |indices| == env.c.sc.p.forsTrees
    requires forall i :: 0 <= i < |indices| ==> indices[i] == Fors.Index(env.c.sc.p, m, i)
    requires |indices| * Fors.PartBytes(env.c.sc.p) == |sig|
    requires stream.Reading() && sig <= stream.Pending() && stream.buffer != treeAddr.bytes
    requires hash.Valid() && hash.c == env.c && hash.fed == []
    requires {treeAddr, treeAddr.bytes, stream, stream.buffer} !! hash.Footprint()
    modifies treeAddr, treeAddr.bytes, stream, stream.buffer, hash.Footprint()
    ensures stream.Reading() && stream.received == old(stream.received)
    ensures stream.Pending() == old(stream.Pending())[|sig|..]
    ensures hash.Valid() && hash.fed == Fors.RootsFromSig(env.c, kp, sig, m, |indices|)
  {
    hide Stream.Linked, Fors.RootFromPart, Fors.Index, Address.Buffer.Valid, Chunk, Fors.PartBytes;
    hide Stream.Stream.Pending, HashState.Valid;
    hide Address.Adrs.Base, Fors.Part;
    var size := Fors.PartBytes(env.c.sc.p);
    ghost var pending := stream.Pending();
    assert 0 * size == 0;
    for i := 0 to |indices|
      invariant Fits(env, treeAddr) && treeAddr.rec.Base() == kp
      invariant stream.Reading() && stream.received == old(stream.received)
      invariant i * size <= |sig| && stream.Pending() == pending[i * size..]
      invariant hash.Valid() && hash.fed == Fors.RootsFromSig(env.c, kp, sig, m, i)
    {
      MulMonotone(i + 1, |indices|, size);
      MulStep(i + 1, size);
      ReadPart(env, stream, treeAddr, m, i, indices[i], hash, kp, sig, pending, i * size, size);
    }
  }

  /** One iteration: the next part is `part`, and `rest` comes after it. */
  method ReadTreeInto(env: Env, stream: Stream.Stream, treeAddr: Address.Buffer, m: Bytes, i: nat, index: nat,
                      hash: HashState, ghost kp: Address.Adrs, ghost part: Bytes, ghost rest: Bytes)
    requires env.Valid() && Fits(env, treeAddr) && treeAddr.rec.Base() == kp && kp == kp.Base()
    requires |m| == env.c.sc.p.ForsMsgBytes() && i < env.c.sc.p.forsTrees && index == Fors.Index(env.c.sc.p, m, i)
    requires |part| == Fors.PartBytes(env.c.sc.p) && stream.Reading() && stream.Pending() == part + rest
    requires stream.buffer != treeAddr.bytes && hash.Valid() && hash.c == env.c
    requires {treeAddr, treeAddr.bytes, stream, stream.buffer} !! hash.Footprint()
    modifies treeAddr, treeAddr.bytes, stream, stream.buffer, hash.Footprint()
    ensures Fits(env, treeAddr) && treeAddr.rec.Base() == kp
    ensures stream.Reading() && stream.received == old(stream.received) && stream.Pending() == rest
    ensures hash.Valid() && hash.fed == old(hash.fed) + Fors.RootFromPart(env.c, kp, part, m, i)
  {
    hide Stream.Linked, Fors.RootFromPart, Fors.Index, Address.Buffer.Valid, Fors.PartBytes, Stream.Stream.Pending;
    hide HashState.Valid, Env.Valid;
    hide Address.Adrs.Base;
    assert (part + rest)[..|part|] == part && (part + rest)[|part|..] == rest;
    var root := ReadTree(env, stream, treeAddr, m, i, index, kp);
    hash.Update(root);
  }

  /** Element `i` of the signature goes from the stream to the hash as a root. */
  method ReadPart(env: Env, stream: Stream.Stream, treeAddr: Address.Buffer, m: Bytes, i: nat, index: nat,
                  hash: HashState,
                  ghost kp: Address.Adrs, ghost sig: Bytes, ghost pending: Bytes, ghost from: nat, ghost size: nat)
    requires env.Valid() && Fits(env, treeAddr) && treeAddr.rec.Base() == kp && kp == kp.Base()
    requires |m| == env.c.sc.p.ForsMsgBytes() && i < env.c.sc.p.forsTrees && index == Fors.Index(env.c.sc.p, m, i)
    requires size == Fors.PartBytes(env.c.sc.p) && from == i * size && from + size == (i + 1) * size
    requires sig <= pending && from + size <= |sig|
    requires stream.Reading() && stream.Pending() == pending[from..]
    requires stream.buffer != treeAddr.bytes && hash.Valid() && hash.c == env.c
    requires hash.fed == Fors.RootsFromSig(env.c, kp, sig, m, i)
    requires {treeAddr, treeAddr.bytes, stream, stream.buffer} !! hash.Footprint()
    modifies treeAddr, treeAddr.bytes, stream, stream.buffer, hash.Footprint()
    ensures Fits(env, treeAddr) && treeAddr.rec.Base() == kp
    ensures stream.Reading() && stream.received == old(stream.received)
    ensures stream.Pending() == pending[from + size..]
    ensures hash.Valid() && hash.fed == Fors.RootsFromSig(env.c, kp, sig, m, i + 1)
  {
    hide Stream.Linked, Fors.RootFromPart, Fors.Index, Address.Buffer.Valid, Chunk, Fors.PartBytes;
    hide Stream.Stream.Pending, HashState.Valid;
    PartOf(pending, sig, size, i, from);
    ReadTreeInto(env, stream, treeAddr, m, i, index, hash, kp, Chunk(sig, size, i), pending[from + size..]);
  }

  lemma PartOf(pending: Bytes, sig: Bytes, size: nat, i: nat, from: nat)
    requires from == i * size && from + size == (i + 1) * size && sig <= pending && from + size <= |sig|
    ensures pending[from..] == Chunk(sig, size, i) + pending[from + size..]
  {
  }

  /** One tree of fors_pk_from_sig_streaming. */
  method ReadTree(env: Env, stream: Stream.Stream, treeAddr: Address.Buffer, m: Bytes, i: nat, index: nat,
                  ghost kp: Address.Adrs)
    returns (root: Bytes)
    requires env.Valid() && Fits(env, treeAddr) && treeAddr.rec.Base() == kp && kp == kp.Base()
    requires |m| == env.c.sc.p.ForsMsgBytes() && i < env.c.sc.p.forsTrees && index == Fors.Index(env.c.sc.p, m, i)
    requires stream.Reading() && Fors.PartBytes(env.c.sc.p) <= stream.remaining && stream.buffer != treeAddr.bytes
    modifies treeAddr, treeAddr.bytes, stream, stream.buffer
    ensures Fits(env, treeAddr) && treeAddr.rec.Base() == kp
    ensures stream.Reading() && stream.received == old(stream.received)
    ensures |old(stream.Pending())| == old(stream.remaining)
    ensures stream.Pending() == old(stream.Pending())[Fors.PartBytes(env.c.sc.p)..]
    ensures root == Fors.RootFromPart(env.c, kp, old(stream.Pending())[..Fors.PartBytes(env.c.sc.p)], m, i)
  {
    hide Stream.Linked, Climb, Fors.Index, TweakHash, Pow2, Address.Buffer.Valid, Stream.Stream.Pending;
    var p := env.c.sc.p;
    ghost var part := stream.Pending()[..Fors.PartBytes(p)];
    ghost var pending := stream.Pending();
    var idxOffset := i * Pow2(p.forsHeight);
    TreeFits(p, i);
    TreeHash.IndexWidth();
    MulStep(p.forsHeight + 1, p.n);
    treeAddr.SetTreeHeight(0);
    treeAddr.SetTreeIndex(index + idxOffset);
    assert treeAddr.rec == kp.WithNode(0, idxOffset + index);
    var secret := stream.ReadStream(p.n);
    Slices(pending, p.n, p.forsHeight * p.n);
    var leaf := Thash(env, treeAddr, secret);
    root := ComputeRoot.ComputeRootStreaming(env, stream, leaf, index, idxOffset, p.forsHeight, treeAddr, kp);
  }

  /** Reading `a` bytes and then `b` bytes. */
  lemma Slices(s: Bytes, a: nat, b: nat)
    requires a + b <= |s|
    ensures s[..a] == s[..a + b][..a] && s[a..][..b] == s[..a + b][a..] && s[a..][b..] == s[a + b..]
  {
  }
}
