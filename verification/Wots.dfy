/** WOTS+ chains, keys and signatures (wots.c, wotsx1.c). */
module Wots {
  import opened Arith
  import opened Bytes
  import opened Params
  import opened TweakableHash
  import opened WotsDigits
  import Address
  import Stream

  // ---- Specification ----

  /** `steps` hash steps from position `start` of the chain at `adr`. */
  function Chain(c: Ctx, adr: Address.Adrs, x: Bytes, start: nat, steps: nat): (r: Bytes)
    requires c.Valid() && |x| == c.sc.p.n
    ensures |r| == c.sc.p.n
  {
    if steps == 0 then x
    else TweakHash(c, adr.WithHash(start + steps - 1), Chain(c, adr, x, start, steps - 1))
  }

  /** The chain element at position `k` of chain `i` of the key pair at `kp`. */
  function ChainValue(c: Ctx, skSeed: Bytes, kp: Address.Adrs, i: nat, k: nat): (r: Bytes)
    requires c.Valid()
    ensures |r| == c.sc.p.n
  {
    Chain(c, kp.WithChain(i), Prf(c, skSeed, kp.WithChain(i).WithHash(0)), 0, k)
  }

  /** The elements at `positions` of the first `count` chains. */
  function Values(c: Ctx, skSeed: Bytes, kp: Address.Adrs, positions: seq<nat>, count: nat): (r: Bytes)
    requires c.Valid() && count <= |positions|
    ensures |r| == count * c.sc.p.n
  {
    if count == 0 then []
    else
      assert count * c.sc.p.n == (count - 1) * c.sc.p.n + c.sc.p.n;
      Values(c, skSeed, kp, positions, count - 1) + ChainValue(c, skSeed, kp, count - 1, positions[count - 1])
  }

  /** Every chain at its end. */
  function Ends(p: Params): (r: seq<nat>)
    requires p.Valid()
    ensures |r| == p.Len()
  {
    seq(p.Len(), _ => p.w - 1)
  }

  /** The WOTS signature of `msg`. */
  function Signature(c: Ctx, skSeed: Bytes, kp: Address.Adrs, msg: Bytes): (r: Bytes)
    requires c.Valid() && |msg| == c.sc.p.n
    ensures |r| == c.sc.p.WotsBytes()
  {
    Values(c, skSeed, kp, ChainLengths(c.sc.p, msg), c.sc.p.Len())
  }

  function PublicKey(c: Ctx, skSeed: Bytes, kp: Address.Adrs): (r: Bytes)
    requires c.Valid()
    ensures |r| == c.sc.p.WotsBytes()
  {
    Values(c, skSeed, kp, Ends(c.sc.p), c.sc.p.Len())
  }

  /** The address records of one key pair: `base` up to the key pair. */
  function KeypairAdrs(c: Ctx, base: Address.Adrs, typ: nat, idx: nat): Address.Adrs
    requires c.Valid()
  {
    base.(typ := typ % 256).WithKeypair(c.sc.p.WideKeypair(), idx)
  }

  /** The Merkle leaf: the hash of the public key of key pair `idx` in the subtree at `base`. */
  function Leaf(c: Ctx, skSeed: Bytes, base: Address.Adrs, idx: nat): (r: Bytes)
    requires c.Valid()
    ensures |r| == c.sc.p.n
  {
    TweakHash(c, KeypairAdrs(c, base, Address.TYPE_WOTSPK, idx),
              PublicKey(c, skSeed, KeypairAdrs(c, base, Address.TYPE_WOTS, idx)))
  }

  /** The verifier's chain ends from a claimed signature. */
  function EndsFromSig(c: Ctx, kp: Address.Adrs, sig: Bytes, lengths: seq<nat>, count: nat): (r: Bytes)
    requires c.Valid() && count <= |lengths| && count * c.sc.p.n <= |sig|
    requires forall i :: 0 <= i < |lengths| ==> lengths[i] < c.sc.p.w
    ensures |r| == count * c.sc.p.n
  {
    if count == 0 then []
    else
      assert count * c.sc.p.n == (count - 1) * c.sc.p.n + c.sc.p.n;
      var i := count - 1;
      EndsFromSig(c, kp, sig, lengths, i)
      + Chain(c, kp.WithChain(i), Chunk(sig, c.sc.p.n, i), lengths[i], c.sc.p.w - 1 - lengths[i])
  }

  /** The leaf the verifier computes from a claimed signature of `msg`. */
  function LeafFromSig(c: Ctx, base: Address.Adrs, idx: nat, sig: Bytes, msg: Bytes): (r: Bytes)
    requires c.Valid() && |msg| == c.sc.p.n && |sig| == c.sc.p.WotsBytes()
    ensures |r| == c.sc.p.n
  {
    TweakHash(c, KeypairAdrs(c, base, Address.TYPE_WOTSPK, idx),
              EndsFromSig(c, KeypairAdrs(c, base, Address.TYPE_WOTS, idx), sig, ChainLengths(c.sc.p, msg),
                  c.sc.p.Len()))
  }

  // ---- The verifier rebuilds the signer's leaf ----

  lemma {:induction false} ChainCompose(c: Ctx, adr: Address.Adrs, x: Bytes, start: nat, a: nat, b: nat)
    requires c.Valid() && |x| == c.sc.p.n
    ensures Chain(c, adr, Chain(c, adr, x, start, a), start + a, b) == Chain(c, adr, x, start, a + b)
  {
    hide TweakHash;
    if b > 0 {
      ChainCompose(c, adr, x, start, a, b - 1);
    }
  }

  lemma {:induction false} ChunkOfValues(c: Ctx, skSeed: Bytes, kp: Address.Adrs, positions: seq<nat>, count: nat,
                                         i: nat)
    requires c.Valid() && i < count <= |positions|
    ensures (i + 1) * c.sc.p.n <= count * c.sc.p.n
    ensures Chunk(Values(c, skSeed, kp, positions, count), c.sc.p.n, i) == ChainValue(c, skSeed, kp, i, positions[i])
  {
    hide ChainValue, Chunk;
    var n := c.sc.p.n;
    MulMonotone(i + 1, count, n);
    var shorter, last := Values(c, skSeed, kp, positions, count - 1),
        ChainValue(c, skSeed, kp, count - 1, positions[count - 1]);
    if i < count - 1 {
      ChunkOfValues(c, skSeed, kp, positions, count - 1, i);
      ChunkPrefix(shorter, last, n, i);
    } else {
      ChunkSuffix(shorter, last, n, i);
      assert last[..n] == last;
    }
  }

  lemma {:induction false} EndsOfSignature(c: Ctx, skSeed: Bytes, kp: Address.Adrs, lengths: seq<nat>, count: nat)
    requires c.Valid() && |lengths| == c.sc.p.Len() && count <= |lengths|
    requires forall i :: 0 <= i < |lengths| ==> lengths[i] < c.sc.p.w
    requires count * c.sc.p.n <= c.sc.p.WotsBytes()
    ensures EndsFromSig(c, kp, Values(c, skSeed, kp, lengths, c.sc.p.Len()), lengths, count)
            == Values(c, skSeed, kp, Ends(c.sc.p), count)
  {
    hide Chunk, Chain, TweakHash, Prf;
    if count > 0 {
      var i := count - 1;
      assert count * c.sc.p.n == i * c.sc.p.n + c.sc.p.n;
      EndsOfSignature(c, skSeed, kp, lengths, i);
      ChunkOfValues(c, skSeed, kp, lengths, c.sc.p.Len(), i);
      ChainCompose(c, kp.WithChain(i), Prf(c, skSeed, kp.WithChain(i).WithHash(0)), 0, lengths[i],
          c.sc.p.w - 1 - lengths[i]);
      assert Ends(c.sc.p)[i] == c.sc.p.w - 1;
    }
  }

  /** Completing the chains of an honest signature gives the leaf of the key that signed. */
  lemma LeafOfSignature(c: Ctx, skSeed: Bytes, base: Address.Adrs, idx: nat, msg: Bytes)
    requires c.Valid() && |msg| == c.sc.p.n
    ensures LeafFromSig(c, base, idx, Signature(c, skSeed, KeypairAdrs(c, base, Address.TYPE_WOTS, idx), msg), msg)
            == Leaf(c, skSeed, base, idx)
  {
    hide EndsFromSig, Values, TweakHash, ChainLengths;
    EndsOfSignature(c, skSeed, KeypairAdrs(c, base, Address.TYPE_WOTS, idx), ChainLengths(c.sc.p, msg), c.sc.p.Len());
  }

  // ---- Code: chains and the verifier ----

  /** gen_chain: never steps past position w - 1. */
  method GenChain(env: Env, input: Bytes, start: nat, steps: nat, addr: Address.Buffer) returns (out: Bytes)
    requires env.Valid() && Fits(env, addr) && |input| == env.c.sc.p.n
    modifies addr, addr.bytes
    ensures Fits(env, addr) && addr.rec.(last := 0) == old(addr.rec).(last := 0)
    ensures var w := env.c.sc.p.w;
            var taken := if start + steps <= w then steps else if start <= w then w - start else 0;
            out == Chain(env.c, old(addr.rec).(last := 0), input, start, taken)
  {
    hide TweakHash;
    ghost var adr := addr.rec.(last := 0);
    out := input;
    var i := start;
    while i < start + steps && i < env.c.sc.p.w
      invariant start <= i <= start + steps && (i == start || i <= env.c.sc.p.w)
      invariant Fits(env, addr) && addr.rec.(last := 0) == adr
      invariant out == Chain(env.c, adr, input, start, i - start)
    {
      addr.SetHash(i);
      assert addr.rec == adr.WithHash(i);
      out := Thash(env, addr, out);
      i := i + 1;
    }
  }

  /** An address in use for the chains of `kp`: its chain and hash bytes are left over. */
  ghost predicate OnKeypair(rec: Address.Adrs, kp: Address.Adrs) {
    rec.indexHigh == 0 && kp == rec.(mid := 0, last := 0)
  }

  /** The body of the loops of wots_pk_from_sig and wots_leaf_from_pk_streaming: one chain to its end. */
  method CompleteChain(env: Env, i: nat, input: Bytes, length: nat, addr: Address.Buffer, ghost kp: Address.Adrs)
    returns (out: Bytes)
    requires env.Valid() && Fits(env, addr) && OnKeypair(addr.rec, kp)
    requires |input| == env.c.sc.p.n && length < env.c.sc.p.w
    modifies addr, addr.bytes
    ensures Fits(env, addr) && OnKeypair(addr.rec, kp)
    ensures out == Chain(env.c, kp.WithChain(i), input, length, env.c.sc.p.w - 1 - length)
  {
    addr.SetChain(i);
    assert addr.rec.(last := 0) == kp.WithChain(i);
    out := GenChain(env, input, length, env.c.sc.p.w - 1 - length, addr);
  }

  /** wots_pk_from_sig */
  method WotsPkFromSig(env: Env, sig: Bytes, msg: Bytes, addr: Address.Buffer, ghost kp: Address.Adrs)
    returns (pk: Bytes)
    requires env.Valid() && Fits(env, addr) && OnKeypair(addr.rec, kp)
    requires |msg| == env.c.sc.p.n && |sig| == env.c.sc.p.WotsBytes()
    modifies addr, addr.bytes
    ensures Fits(env, addr) && OnKeypair(addr.rec, kp)
    ensures pk == EndsFromSig(env.c, kp, sig, ChainLengths(env.c.sc.p, msg), env.c.sc.p.Len())
  {
    hide ChainLengths, Chain, Chunk;
    var p := env.c.sc.p;
    var lengths := ComputeChainLengths(p, msg);
    pk := [];
    for i := 0 to p.Len()
      invariant Fits(env, addr) && OnKeypair(addr.rec, kp)
      invariant i * p.n <= |sig| && pk == EndsFromSig(env.c, kp, sig, lengths, i)
    {
      MulMonotone(i + 1, p.Len(), p.n);
      var end := CompleteChain(env, i, Chunk(sig, p.n, i), lengths[i], addr, kp);
      pk := pk + end;
    }
  }

  /** wots_leaf_from_pk_streaming: reads one chain value at a time and hashes each chain end at once. */
  method WotsLeafStreaming(env: Env, stream: Stream.Stream, msg: Bytes, addr: Address.Buffer, pkAddr: Address.Buffer,
                           ghost base: Address.Adrs, ghost idx: nat)
    returns (leaf: Bytes)
    requires env.Valid() && Fits(env, addr) && Fits(env, pkAddr) && |msg| == env.c.sc.p.n
    requires OnKeypair(addr.rec, KeypairAdrs(env.c, base, Address.TYPE_WOTS, idx))
    requires pkAddr.rec == KeypairAdrs(env.c, base, Address.TYPE_WOTSPK, idx)
    requires pkAddr != addr && pkAddr.bytes != addr.bytes && stream.buffer != addr.bytes
    requires stream.buffer != pkAddr.bytes
    requires stream.Reading() && env.c.sc.p.WotsBytes() <= stream.remaining
    modifies addr, addr.bytes, stream, stream.buffer
    ensures Fits(env, addr) && OnKeypair(addr.rec, KeypairAdrs(env.c, base, Address.TYPE_WOTS, idx))
    ensures stream.Reading() && stream.received == old(stream.received)
    ensures |old(stream.Pending())| == old(stream.remaining)
    ensures stream.Pending() == old(stream.Pending())[env.c.sc.p.WotsBytes()..]
    ensures leaf == LeafFromSig(env.c, base, idx, old(stream.Pending())[..env.c.sc.p.WotsBytes()], msg)
  {
    hide Stream.Linked, ChainLengths, Chain, Chunk, TweakHash, KeypairAdrs, OnKeypair, HashState.Valid;
    hide HashState.Footprint;
    hide Address.Buffer.Valid, Stream.Stream.Pending;
    var p := env.c.sc.p;
    ghost var kp := KeypairAdrs(env.c, base, Address.TYPE_WOTS, idx);
    ghost var sig := stream.Pending()[..p.WotsBytes()];
    var lengths := ComputeChainLengths(p, msg);
    var hash := new HashState(env, pkAddr);
    ReadChains(env, stream, addr, hash, lengths, kp, sig);
    leaf := hash.Finalize();
  }

  lemma NoEnds(c: Ctx, kp: Address.Adrs, sig: Bytes, lengths: seq<nat>)
    requires c.Valid() && forall i :: 0 <= i < |lengths| ==> lengths[i] < c.sc.p.w
    ensures 0 * c.sc.p.n == 0 && EndsFromSig(c, kp, sig, lengths, 0) == []
  {
  }

  lemma NextEnd(c: Ctx, kp: Address.Adrs, sig: Bytes, lengths: seq<nat>, i: nat)
    requires c.Valid() && i < |lengths| && (i + 1) * c.sc.p.n <= |sig| && i * c.sc.p.n <= |sig|
    requires forall i :: 0 <= i < |lengths| ==> lengths[i] < c.sc.p.w
    ensures EndsFromSig(c, kp, sig, lengths, i + 1)
            == EndsFromSig(c, kp, sig, lengths, i)
               + Chain(c, kp.WithChain(i), Chunk(sig, c.sc.p.n, i), lengths[i], c.sc.p.w - 1 - lengths[i])
  {
    hide Chain, Chunk;
  }

  /** The loop over the chains: the ends that the signature bytes lead to go to the hash. */
  method ReadChains(env: Env, stream: Stream.Stream, addr: Address.Buffer, hash: HashState, lengths: seq<nat>,
                    ghost kp: Address.Adrs, ghost sig: Bytes)
    requires env.Valid() && Fits(env, addr) && OnKeypair(addr.rec, kp) && |lengths| == env.c.sc.p.Len()
    requires forall i :: 0 <= i < |lengths| ==> lengths[i] < env.c.sc.p.w
    requires hash.Valid() && hash.c == env.c && hash.fed == []
    requires {addr, addr.bytes, stream, stream.buffer} !! hash.Footprint()
    requires stream.buffer != addr.bytes && stream.Reading()
    requires |sig| == env.c.sc.p.WotsBytes() && sig <= stream.Pending()
    modifies addr, addr.bytes, stream, stream.buffer, hash.Footprint()
    ensures Fits(env, addr) && OnKeypair(addr.rec, kp)
    ensures stream.Reading() && stream.received == old(stream.received)
    ensures stream.Pending() == old(stream.Pending())[|sig|..]
    ensures hash.Valid() && hash.fed == EndsFromSig(env.c, kp, sig, lengths, |lengths|)
  {
    hide Stream.Linked, Chain, Chunk, EndsFromSig, OnKeypair, HashState.Valid, Address.Buffer.Valid;
    hide Stream.Stream.Pending;
    var p := env.c.sc.p;
    ghost var pending := stream.Pending();
    assert 0 * p.n == 0 && sig == pending[..|sig|];
    NoEnds(env.c, kp, sig, lengths);
    for i := 0 to p.Len()
      invariant hash.Valid() && Fits(env, addr) && OnKeypair(addr.rec, kp)
      invariant stream.Reading() && stream.received == old(stream.received)
      invariant i * p.n <= |sig| && stream.Pending() == pending[i * p.n..]
      invariant hash.fed == EndsFromSig(env.c, kp, sig, lengths, i)
    {
      MulMonotone(i + 1, p.Len(), p.n);
      ChunkOfFront(pending, p.n, i, |sig|);
      MulStep(i + 1, p.n);
      NextEnd(env.c, kp, sig, lengths, i);
      StreamChain(env, stream, addr, hash, i, lengths[i], kp, pending, i * p.n);
    }
  }

  /** One iteration of wots_leaf_from_pk_streaming. */
  method StreamChain(env: Env, stream: Stream.Stream, addr: Address.Buffer, hash: HashState, i: nat, length: nat,
                     ghost kp: Address.Adrs, ghost pending: Bytes, ghost from: nat)
    requires env.Valid() && Fits(env, addr) && OnKeypair(addr.rec, kp) && length < env.c.sc.p.w
    requires hash.Valid() && hash.c == env.c && {addr, addr.bytes, stream, stream.buffer} !! hash.Footprint()
    requires stream.buffer != addr.bytes && stream.Reading()
    requires from == i * env.c.sc.p.n && from + env.c.sc.p.n == (i + 1) * env.c.sc.p.n
    requires from + env.c.sc.p.n <= |pending| && stream.Pending() == pending[from..]
    modifies addr, addr.bytes, stream, stream.buffer, hash.Footprint()
    ensures Fits(env, addr) && OnKeypair(addr.rec, kp)
    ensures stream.Reading() && stream.received == old(stream.received)
    ensures stream.Pending() == pending[from + env.c.sc.p.n..]
    ensures hash.Valid()
    ensures hash.fed == old(hash.fed)
                        + Chain(env.c, kp.WithChain(i), Chunk(pending, env.c.sc.p.n, i), length,
                            env.c.sc.p.w - 1 - length)
  {
    hide Stream.Linked, Chain, Chunk, TweakHash, OnKeypair, HashState.Valid, Address.Buffer.Valid;
    hide Stream.Stream.Pending;
    var value := Stream.ReadChunk(stream, env.c.sc.p.n, pending, i, from);
    var end := CompleteChain(env, i, value, length, addr, kp);
    hash.Update(end);
  }
}
