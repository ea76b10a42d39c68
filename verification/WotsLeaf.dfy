/** wotsx1.c: the public key of a WOTS key pair and, for the signing leaf, its signature, in one pass over the
    chains. */
module WotsLeaf {
  import opened Bytes
  import opened Params
  import opened TweakableHash
  import opened Wots
  import Address
  import Stream

  /** `~0`: a chain position that is never reached, and the sign-leaf of key generation. */
  const NONE: nat := 0xFFFF_FFFF

  /** An address of the subtree at `base` in which the key pair, chain and hash bytes are left over. */
  ghost predicate OnSubtree(c: Ctx, rec: Address.Adrs, base: Address.Adrs, typ: nat) {
    var kpHigh := if c.sc.p.WideKeypair() then 0 else rec.kpHigh;
    rec.indexHigh == 0 && rec.(kpHigh := kpHigh, kpLow := 0, mid := 0, last := 0) == base.(typ := typ)
  }

  lemma SetKeypairOnSubtree(c: Ctx, rec: Address.Adrs, base: Address.Adrs, typ: nat, idx: nat)
    requires c.Valid() && OnSubtree(c, rec, base, typ) && typ < 256
    ensures OnKeypair(rec.WithKeypair(c.sc.p.WideKeypair(), idx), KeypairAdrs(c, base, typ, idx))
  {
  }

  /** The two addresses of a leaf_info_x1 between leaves. */
  ghost predicate LeafAddresses(env: Env, leafAddr: Address.Buffer, pkAddr: Address.Buffer, base: Address.Adrs)
    reads leafAddr, leafAddr.bytes, pkAddr, pkAddr.bytes
  {
    && leafAddr != pkAddr && leafAddr.bytes != pkAddr.bytes
    && Fits(env, leafAddr) && OnSubtree(env.c, leafAddr.rec, base, Address.TYPE_WOTS)
    && Fits(env, pkAddr) && OnSubtree(env.c, pkAddr.rec, base, Address.TYPE_WOTSPK)
    && pkAddr.rec.mid == 0 && pkAddr.rec.last == 0
    && base.kpLow == 0 && base.kpHigh == 0 && base.mid == 0 && base.last == 0 && base.indexHigh == 0
  }

  ghost predicate ValidSteps(p: Params, steps: seq<nat>)
    requires p.Valid()
  {
    |steps| == p.Len() && forall i :: 0 <= i < |steps| ==> steps[i] < p.w
  }

  /** `set_keypair_addr` on both addresses at the start of a leaf. */
  method SelectKeypair(env: Env, leafAddr: Address.Buffer, pkAddr: Address.Buffer, leafIdx: nat,
                       ghost base: Address.Adrs)
    requires env.Valid() && LeafAddresses(env, leafAddr, pkAddr, base)
    modifies leafAddr, leafAddr.bytes, pkAddr, pkAddr.bytes
    ensures Fits(env, leafAddr) && OnKeypair(leafAddr.rec, KeypairAdrs(env.c, base, Address.TYPE_WOTS, leafIdx))
    ensures Fits(env, pkAddr) && pkAddr.rec == KeypairAdrs(env.c, base, Address.TYPE_WOTSPK, leafIdx)
  {
    hide Address.Buffer.Valid, OnSubtree, OnKeypair, KeypairAdrs;
    SetKeypairOnSubtree(env.c, leafAddr.rec, base, Address.TYPE_WOTS, leafIdx);
    SetKeypairOnSubtree(env.c, pkAddr.rec, base, Address.TYPE_WOTSPK, leafIdx);
    leafAddr.SetKeypair(env.c.sc.p.WideKeypair(), leafIdx);
    pkAddr.SetKeypair(env.c.sc.p.WideKeypair(), leafIdx);
    PkRecord(env.c, pkAddr.rec, base, leafIdx);
  }

  /** At the end of a leaf both addresses are again ready for any leaf of the subtree. */
  lemma LeafDone(env: Env, leafAddr: Address.Buffer, pkAddr: Address.Buffer, leafIdx: nat, base: Address.Adrs)
    requires env.Valid() && leafAddr != pkAddr && leafAddr.bytes != pkAddr.bytes
    requires Fits(env, leafAddr) && OnKeypair(leafAddr.rec, KeypairAdrs(env.c, base, Address.TYPE_WOTS, leafIdx))
    requires Fits(env, pkAddr) && pkAddr.rec == KeypairAdrs(env.c, base, Address.TYPE_WOTSPK, leafIdx)
    requires base.kpLow == 0 && base.kpHigh == 0 && base.mid == 0 && base.last == 0 && base.indexHigh == 0
    ensures LeafAddresses(env, leafAddr, pkAddr, base)
  {
    hide Address.Buffer.Valid;
  }

  /** The chain values at `positions`, one per signature slot. */
  ghost function SigNodes(c: Ctx, skSeed: Bytes, kp: Address.Adrs, positions: seq<nat>): (r: seq<Bytes>)
    requires c.Valid()
    ensures |r| == |positions|
  {
    seq(|positions|, i requires 0 <= i < |positions| => ChainValue(c, skSeed, kp, i, positions[i]))
  }

  lemma {:induction false} FlattenSigNodes(c: Ctx, skSeed: Bytes, kp: Address.Adrs, positions: seq<nat>, count: nat)
    requires c.Valid() && count <= |positions|
    ensures Flatten(SigNodes(c, skSeed, kp, positions)[..count]) == Values(c, skSeed, kp, positions, count)
  {
    hide ChainValue;
    if count > 0 {
      FlattenSigNodes(c, skSeed, kp, positions, count - 1);
      var nodes := SigNodes(c, skSeed, kp, positions);
      assert nodes[..count][..count - 1] == nodes[..count - 1];
    }
  }

  /** The start of a chain: the secret key element. */
  method ChainStart(env: Env, skSeed: Bytes, leafAddr: Address.Buffer, i: nat, ghost kp: Address.Adrs)
    returns (buffer: Bytes)
    requires env.Valid() && Fits(env, leafAddr) && OnKeypair(leafAddr.rec, kp)
    modifies leafAddr, leafAddr.bytes
    ensures Fits(env, leafAddr) && leafAddr.rec.(last := 0) == kp.WithChain(i) && OnKeypair(leafAddr.rec, kp)
    ensures buffer == ChainValue(env.c, skSeed, kp, i, 0)
  {
    hide Prf, TweakHash;
    leafAddr.SetChain(i);
    leafAddr.SetHash(0);
    assert leafAddr.rec == kp.WithChain(i).WithHash(0);
    buffer := PrfAddr(env, skSeed, leafAddr);
  }

  /** One step along a chain. */
  method ChainStep(env: Env, skSeed: Bytes, leafAddr: Address.Buffer, i: nat, k: nat, buffer: Bytes,
                   ghost kp: Address.Adrs)
    returns (next: Bytes)
    requires env.Valid() && Fits(env, leafAddr) && leafAddr.rec.(last := 0) == kp.WithChain(i)
    requires OnKeypair(leafAddr.rec, kp)
    requires buffer == ChainValue(env.c, skSeed, kp, i, k)
    modifies leafAddr, leafAddr.bytes
    ensures Fits(env, leafAddr) && leafAddr.rec.(last := 0) == kp.WithChain(i) && OnKeypair(leafAddr.rec, kp)
    ensures next == ChainValue(env.c, skSeed, kp, i, k + 1)
  {
    hide Prf, TweakHash;
    leafAddr.SetHash(k);
    assert leafAddr.rec == kp.WithChain(i).WithHash(k);
    next := Thash(env, leafAddr, buffer);
  }

  /** The chain loop of wots_gen_leafx1: the value at step `wotsK` is saved in its signature slot. */
  method WalkChain(env: Env, skSeed: Bytes, leafAddr: Address.Buffer, i: nat, wotsK: nat, wotsSig: SlotBuffer,
                   ghost kp: Address.Adrs)
    returns (buffer: Bytes)
    requires env.Valid() && Fits(env, leafAddr) && OnKeypair(leafAddr.rec, kp) && i < |wotsSig.slots|
    modifies leafAddr, leafAddr.bytes, wotsSig
    ensures Fits(env, leafAddr) && OnKeypair(leafAddr.rec, kp)
    ensures buffer == ChainValue(env.c, skSeed, kp, i, env.c.sc.p.w - 1)
    ensures wotsSig.slots
            == if wotsK < env.c.sc.p.w then old(wotsSig.slots)[i := ChainValue(env.c, skSeed, kp, i, wotsK)]
                           else old(wotsSig.slots)
  {
    hide ChainValue, OnKeypair, Address.Buffer.Valid;
    buffer := ChainStart(env, skSeed, leafAddr, i, kp);
    var k := 0;
    while true
      invariant 0 <= k < env.c.sc.p.w
      invariant Fits(env, leafAddr) && leafAddr.rec.(last := 0) == kp.WithChain(i) && OnKeypair(leafAddr.rec, kp)
      invariant buffer == ChainValue(env.c, skSeed, kp, i, k)
      invariant wotsSig.slots == if wotsK < k then old(wotsSig.slots)[i := ChainValue(env.c, skSeed, kp, i, wotsK)]
                               else old(wotsSig.slots)
      decreases env.c.sc.p.w - k
    {
      if k == wotsK {
        wotsSig.Put(i, buffer);
      }
      if k == env.c.sc.p.w - 1 {
        break;
      }
      buffer := ChainStep(env, skSeed, leafAddr, i, k, buffer, kp);
      k := k + 1;
    }
  }

  /** wots_gen_leafx1 */
  method GenLeaf(env: Env, skSeed: Bytes, leafAddr: Address.Buffer, pkAddr: Address.Buffer, leafIdx: nat, signLeaf: nat,
                 steps: seq<nat>, wotsSig: SlotBuffer, ghost base: Address.Adrs)
    returns (dest: Bytes)
    requires env.Valid() && LeafAddresses(env, leafAddr, pkAddr, base)
    requires ValidSteps(env.c.sc.p, steps) && |wotsSig.slots| == |steps|
    modifies leafAddr, leafAddr.bytes, pkAddr, pkAddr.bytes, wotsSig
    ensures LeafAddresses(env, leafAddr, pkAddr, base)
    ensures dest == Leaf(env.c, skSeed, base, leafIdx)
    ensures wotsSig.slots == if leafIdx == signLeaf
                             then SigNodes(env.c, skSeed, KeypairAdrs(env.c, base, Address.TYPE_WOTS, leafIdx), steps)
                             else old(wotsSig.slots)
  {
    hide ChainValue, OnKeypair, OnSubtree, KeypairAdrs, TweakHash, Address.Buffer.Valid;
    ghost var kp := KeypairAdrs(env.c, base, Address.TYPE_WOTS, leafIdx);
    SelectKeypair(env, leafAddr, pkAddr, leafIdx, base);
    var pkBuffer := WalkChains(env, skSeed, leafAddr, leafIdx == signLeaf, steps, wotsSig, kp);
    dest := Thash(env, pkAddr, pkBuffer);
    LeafDone(env, leafAddr, pkAddr, leafIdx, base);
  }

  /** The loop over the chains. */
  method WalkChains(env: Env, skSeed: Bytes, leafAddr: Address.Buffer, signing: bool, steps: seq<nat>,
                    wotsSig: SlotBuffer, ghost kp: Address.Adrs)
    returns (pkBuffer: Bytes)
    requires env.Valid() && Fits(env, leafAddr) && OnKeypair(leafAddr.rec, kp)
    requires ValidSteps(env.c.sc.p, steps) && |wotsSig.slots| == |steps|
    modifies leafAddr, leafAddr.bytes, wotsSig
    ensures Fits(env, leafAddr) && OnKeypair(leafAddr.rec, kp)
    ensures pkBuffer == PublicKey(env.c, skSeed, kp)
    ensures wotsSig.slots == if signing then SigNodes(env.c, skSeed, kp, steps) else old(wotsSig.slots)
  {
    hide ChainValue, OnKeypair, Address.Buffer.Valid;
    var p := env.c.sc.p;
    pkBuffer := [];
    ghost var nodes := SigNodes(env.c, skSeed, kp, steps);
    for i := 0 to p.Len()
      invariant Fits(env, leafAddr) && OnKeypair(leafAddr.rec, kp) && |wotsSig.slots| == p.Len()
      invariant pkBuffer == Values(env.c, skSeed, kp, Ends(p), i)
      invariant if signing then wotsSig.slots[..i] == nodes[..i] else wotsSig.slots == old(wotsSig.slots)
    {
      ghost var before := wotsSig.slots;
      var wotsK := if signing then steps[i] else NONE; // wots_steps[i] | wots_k_mask
      var end := WalkChain(env, skSeed, leafAddr, i, wotsK, wotsSig, kp);
      if signing {
        assert wotsSig.slots[..i + 1] == before[..i] + [nodes[i]];
      }
      pkBuffer := pkBuffer + end;
    }
  }

  lemma PkRecord(c: Ctx, rec: Address.Adrs, base: Address.Adrs, idx: nat)
    requires c.Valid() && OnKeypair(rec, KeypairAdrs(c, base, Address.TYPE_WOTSPK, idx)) && rec.mid == 0
    requires rec.last == 0
    ensures rec == KeypairAdrs(c, base, Address.TYPE_WOTSPK, idx)
  {
  }

  /** The chain loop of wots_gen_leafx1_streaming: the value at step `wotsK` goes to the stream, the last one into
      the hash of the public key. */
  method StreamChain(env: Env, skSeed: Bytes, leafAddr: Address.Buffer, i: nat, wotsK: nat, stream: Stream.Stream,
                     hash: HashState, ghost kp: Address.Adrs)
    requires env.Valid() && Fits(env, leafAddr) && OnKeypair(leafAddr.rec, kp)
    requires stream.Valid() && stream.buffer != leafAddr.bytes
    requires hash.Valid() && hash.c == env.c && {leafAddr, leafAddr.bytes, stream, stream.buffer} !! hash.Footprint()
    modifies leafAddr, leafAddr.bytes, stream, stream.buffer, hash.Footprint()
    ensures Fits(env, leafAddr) && OnKeypair(leafAddr.rec, kp)
    ensures hash.Valid() && hash.fed == old(hash.fed) + ChainValue(env.c, skSeed, kp, i, env.c.sc.p.w - 1)
    ensures stream.Valid() && stream.Emitted() == old(stream.Emitted()) + Saved(env.c, skSeed, kp, i, wotsK)
  {
    hide Params.Valid, Scheme.Valid;
    hide Stream.Linked, ChainValue, SavedBefore, OnKeypair, Address.Buffer.Valid, HashState.Valid;
    hide Stream.Stream.Emitted;
    var buffer := ChainStart(env, skSeed, leafAddr, i, kp);
    ghost var fed, emitted := hash.fed, stream.Emitted();
    ChainNotEmpty(env.c);
    SavedNothing(env.c, skSeed, kp, i, wotsK);
    assert emitted + [] == emitted;
    var k := 0;
    while true
      invariant 0 <= k < env.c.sc.p.w
      invariant Fits(env, leafAddr) && leafAddr.rec.(last := 0) == kp.WithChain(i) && OnKeypair(leafAddr.rec, kp)
      invariant buffer == ChainValue(env.c, skSeed, kp, i, k)
      invariant hash.Valid() && hash.fed == fed && stream.Valid() && |buffer| == env.c.sc.p.n
      invariant stream.Emitted() == emitted + SavedBefore(env.c, skSeed, kp, i, wotsK, k)
      decreases env.c.sc.p.w - k
    {
      SaveValue(stream, env.c, skSeed, kp, i, wotsK, k, buffer, emitted);
      if k == env.c.sc.p.w - 1 {
        hash.Update(buffer);
        SavedAll(env.c, skSeed, kp, i, wotsK);
        break;
      }
      buffer := ChainStep(env, skSeed, leafAddr, i, k, buffer, kp);
      k := k + 1;
    }
  }

  lemma ChainNotEmpty(c: Ctx)
    requires c.Valid()
    ensures c.sc.p.w > 0
  {
  }

  /** `if (k == wots_k) write_stream(ctx, buffer, SPX_N)` */
  method SaveValue(stream: Stream.Stream, ghost c: Ctx, ghost skSeed: Bytes, ghost kp: Address.Adrs, ghost i: nat,
                   wotsK: nat, k: nat, buffer: Bytes, ghost emitted: Bytes)
    requires c.Valid() && stream.Valid() && |buffer| == c.sc.p.n && buffer == ChainValue(c, skSeed, kp, i, k)
    requires stream.Emitted() == emitted + SavedBefore(c, skSeed, kp, i, wotsK, k)
    modifies stream, stream.buffer
    ensures stream.Valid() && stream.Emitted() == emitted + SavedBefore(c, skSeed, kp, i, wotsK, k + 1)
  {
    hide Stream.Linked, ChainValue, Stream.Stream.Emitted;
    if k == wotsK {
      assert emitted + [] == emitted;
      stream.WriteStream(buffer);
    }
  }

  /** What the chain has contributed to the stream before step `k`. */
  ghost function SavedBefore(c: Ctx, skSeed: Bytes, kp: Address.Adrs, i: nat, wotsK: nat, k: nat): Bytes
    requires c.Valid()
  {
    if wotsK < k then ChainValue(c, skSeed, kp, i, wotsK) else []
  }

  lemma SavedNothing(c: Ctx, skSeed: Bytes, kp: Address.Adrs, i: nat, wotsK: nat)
    requires c.Valid()
    ensures SavedBefore(c, skSeed, kp, i, wotsK, 0) == []
  {
  }

  lemma SavedAll(c: Ctx, skSeed: Bytes, kp: Address.Adrs, i: nat, wotsK: nat)
    requires c.Valid()
    ensures SavedBefore(c, skSeed, kp, i, wotsK, c.sc.p.w) == Saved(c, skSeed, kp, i, wotsK)
  {
  }

  /** What one chain contributes to the stream. */
  ghost function Saved(c: Ctx, skSeed: Bytes, kp: Address.Adrs, i: nat, wotsK: nat): Bytes
    requires c.Valid()
  {
    if wotsK < c.sc.p.w then ChainValue(c, skSeed, kp, i, wotsK) else []
  }

  /** wots_gen_leafx1_streaming */
  method GenLeafStreaming(env: Env, skSeed: Bytes, leafAddr: Address.Buffer, pkAddr: Address.Buffer, leafIdx: nat,
                          signLeaf: nat, steps: seq<nat>, stream: Stream.Stream, ghost base: Address.Adrs)
    returns (dest: Bytes)
    requires env.Valid() && LeafAddresses(env, leafAddr, pkAddr, base) && ValidSteps(env.c.sc.p, steps)
    requires stream.Valid() && stream.buffer != leafAddr.bytes && stream.buffer != pkAddr.bytes
    modifies leafAddr, leafAddr.bytes, pkAddr, pkAddr.bytes, stream, stream.buffer
    ensures LeafAddresses(env, leafAddr, pkAddr, base)
    ensures dest == Leaf(env.c, skSeed, base, leafIdx)
    ensures stream.Valid()
    ensures stream.Emitted() == old(stream.Emitted())
              + if leafIdx == signLeaf
                then Values(env.c, skSeed, KeypairAdrs(env.c, base, Address.TYPE_WOTS, leafIdx), steps,
                    env.c.sc.p.Len())
                else []
  {
    hide Stream.Linked, ChainValue, OnKeypair, OnSubtree, KeypairAdrs, TweakHash, Address.Buffer.Valid;
    hide HashState.Valid, Stream.Stream.Emitted;
    ghost var kp := KeypairAdrs(env.c, base, Address.TYPE_WOTS, leafIdx);
    SelectKeypair(env, leafAddr, pkAddr, leafIdx, base);
    var hash := new HashState(env, pkAddr);
    StreamChains(env, skSeed, leafAddr, leafIdx == signLeaf, steps, stream, hash, kp);
    assert [] + PublicKey(env.c, skSeed, kp) == PublicKey(env.c, skSeed, kp);
    dest := hash.Finalize();
    LeafDone(env, leafAddr, pkAddr, leafIdx, base);
  }

  /** The loop over the chains. */
  method StreamChains(env: Env, skSeed: Bytes, leafAddr: Address.Buffer, signing: bool, steps: seq<nat>,
                      stream: Stream.Stream, hash: HashState, ghost kp: Address.Adrs)
    requires env.Valid() && Fits(env, leafAddr) && OnKeypair(leafAddr.rec, kp) && ValidSteps(env.c.sc.p, steps)
    requires stream.Valid() && stream.buffer != leafAddr.bytes
    requires hash.Valid() && hash.c == env.c && {leafAddr, leafAddr.bytes, stream, stream.buffer} !! hash.Footprint()
    modifies leafAddr, leafAddr.bytes, stream, stream.buffer, hash.Footprint()
    ensures Fits(env, leafAddr) && OnKeypair(leafAddr.rec, kp)
    ensures hash.Valid() && hash.fed == old(hash.fed) + PublicKey(env.c, skSeed, kp)
    ensures stream.Valid()
    ensures stream.Emitted() == old(stream.Emitted())
                                + if signing then Values(env.c, skSeed, kp, steps, env.c.sc.p.Len()) else []
  {
    hide Stream.Linked, ChainValue, Values, OnKeypair, Address.Buffer.Valid, HashState.Valid, Stream.Stream.Emitted;
    var p := env.c.sc.p;
    NoValues(env.c, skSeed, kp, Ends(p));
    NoValues(env.c, skSeed, kp, steps);
    ghost var fed, emitted := hash.fed, stream.Emitted();
    assert fed + [] == fed && emitted + [] == emitted;
    for i := 0 to p.Len()
      invariant Fits(env, leafAddr) && OnKeypair(leafAddr.rec, kp) && hash.Valid() && stream.Valid()
      invariant hash.fed == fed + Values(env.c, skSeed, kp, Ends(p), i)
      invariant stream.Emitted() == emitted + if signing then Values(env.c, skSeed, kp, steps, i) else []
    {
      var wotsK := if signing then steps[i] else NONE; // wots_steps[i] | wots_k_mask
      NextValue(env.c, skSeed, kp, Ends(p), i, fed);
      NextValue(env.c, skSeed, kp, steps, i, emitted);
      StreamChain(env, skSeed, leafAddr, i, wotsK, stream, hash, kp);
    }
  }

  lemma NoValues(c: Ctx, skSeed: Bytes, kp: Address.Adrs, positions: seq<nat>)
    requires c.Valid()
    ensures Values(c, skSeed, kp, positions, 0) == []
  {
  }

  lemma NextValue(c: Ctx, skSeed: Bytes, kp: Address.Adrs, positions: seq<nat>, i: nat, before: Bytes)
    requires c.Valid() && i < |positions|
    ensures before + Values(c, skSeed, kp, positions, i) + ChainValue(c, skSeed, kp, i, positions[i])
            == before + Values(c, skSeed, kp, positions, i + 1)
  {
    hide ChainValue;
  }
}
