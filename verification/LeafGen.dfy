/** The `gen_leaf` callbacks of the tree hash routines with their `info` argument: WOTS leaves, plain or streaming,
    and FORS leaves. A C callback becomes a tag. */
module LeafGen {
  import opened Bytes
  import opened Params
  import opened TweakableHash
  import opened Merkle
  import opened Wots
  import opened WotsLeaf
  import Address
  import Fors
  import Stream

  /** The tree over the WOTS keys of the subtree at `base` (layer and tree only). */
  function WotsTree(c: Ctx, skSeed: Bytes, base: Address.Adrs): (t: Tree)
    requires c.Valid()
    ensures t.Valid()
  {
    Tree(c, base.(typ := Address.TYPE_HASHTREE), (i: nat) => Leaf(c, skSeed, base, i))
  }

  /** struct leaf_info_x1 or struct fors_gen_leaf_info, and the callback that takes it */
  datatype Info =
    | WotsPlain(wotsSig: SlotBuffer) // wots_gen_leafx1
    | WotsStreaming(stream: Stream.Stream) // wots_gen_leafx1_streaming
    | ForsLeaves // fors_gen_leafx1

  class Generator {
    const env: Env
    const skSeed: Bytes
    const info: Info
    const leafAddr: Address.Buffer
    const pkAddr: Address.Buffer
    const signLeaf: nat
    const steps: seq<nat>
    ghost const base: Address.Adrs

    constructor (env: Env, skSeed: Bytes, info: Info, leafAddr: Address.Buffer, pkAddr: Address.Buffer, signLeaf: nat,
                 steps: seq<nat>, ghost base: Address.Adrs)
      ensures this.env == env && this.skSeed == skSeed && this.info == info && this.leafAddr == leafAddr
      ensures this.pkAddr == pkAddr && this.signLeaf == signLeaf && this.steps == steps && this.base == base
    {
      this.env, this.skSeed, this.info, this.leafAddr, this.pkAddr := env, skSeed, info, leafAddr, pkAddr;
      this.signLeaf, this.steps, this.base := signLeaf, steps, base;
    }

    ghost function Footprint(): set<object> {
      {leafAddr, leafAddr.bytes, pkAddr, pkAddr.bytes}
      + match info
        case WotsPlain(wotsSig) => {wotsSig}
        case WotsStreaming(stream) => {stream, stream.buffer}
        case ForsLeaves => {}
    }

    ghost predicate Valid()
      reads Footprint()
      ensures Valid() ==> env.Valid()
      ensures Valid() && !info.ForsLeaves? ==> ValidSteps(env.c.sc.p, steps)
      ensures Valid() && info.WotsStreaming? ==> info.stream.Valid()
    {
      && env.Valid()
      && match info
         case WotsPlain(wotsSig) =>
           && LeafAddresses(env, leafAddr, pkAddr, base) && ValidSteps(env.c.sc.p, steps) && |wotsSig.slots| == |steps|
         case WotsStreaming(stream) =>
           && LeafAddresses(env, leafAddr, pkAddr, base) && ValidSteps(env.c.sc.p, steps)
           && stream.Valid() && stream.buffer != leafAddr.bytes && stream.buffer != pkAddr.bytes
         case ForsLeaves =>
           && Fits(env, leafAddr) && leafAddr.rec.mid == 0 && leafAddr.rec.(indexHigh := 0, last := 0) == base
    }

    /** The tree whose leaves this generator produces. */
    ghost function Spec(): (t: Tree)
      requires env.Valid()
      ensures t.Valid() && t.c == env.c
    {
      if info.ForsLeaves? then Fors.ForsTree(env.c, skSeed, base) else WotsTree(env.c, skSeed, base)
    }

    /** The address of the signing key pair. */
    ghost function SigningKey(): Address.Adrs
      requires env.Valid()
    {
      KeypairAdrs(env.c, base, Address.TYPE_WOTS, signLeaf)
    }

    /** What the stream receives while leaves [from, from + count) are generated. */
    ghost function Streamed(from: nat, count: nat): Bytes
      requires env.Valid() && |steps| == env.c.sc.p.Len()
    {
      if from <= signLeaf < from + count then Values(env.c, skSeed, SigningKey(), steps, |steps|) else []
    }

    /** The signature slots after leaves [from, from + count) have been generated. */
    ghost function Slots(before: seq<Bytes>, from: nat, count: nat): seq<Bytes>
      requires env.Valid()
    {
      if from <= signLeaf < from + count then SigNodes(env.c, skSeed, SigningKey(), steps) else before
    }

    /** One leaf more. */
    lemma NextLeaf(before: seq<Bytes>, from: nat, count: nat)
      requires env.Valid() && |steps| == env.c.sc.p.Len()
      ensures Streamed(from, count) + Streamed(from + count, 1) == Streamed(from, count + 1)
      ensures Slots(Slots(before, from, count), from + count, 1) == Slots(before, from, count + 1)
    {
    }

    lemma NoLeaf(before: seq<Bytes>, from: nat)
      requires env.Valid() && |steps| == env.c.sc.p.Len()
      ensures Streamed(from, 0) == [] && Slots(before, from, 0) == before
    {
    }

    /** gen_leaf(current, sk_seed, pub_seed, idx, info) */
    method Generate(idx: nat) returns (leaf: Bytes)
      requires Valid() && idx < Pow256(4)
      modifies Footprint()
      ensures Valid() && leaf == Spec().leaf(idx)
      ensures info.WotsStreaming? ==> info.stream.Emitted() == old(info.stream.Emitted()) + Streamed(idx, 1)
      ensures info.WotsPlain? ==> info.wotsSig.slots == Slots(old(info.wotsSig.slots), idx, 1)
    {
      hide Stream.Linked, LeafAddresses, Leaf, TweakHash, KeypairAdrs, Address.Buffer.Valid, Stream.Stream.Emitted;
      match info {
        case WotsPlain(wotsSig) =>
          leaf := GenLeaf(env, skSeed, leafAddr, pkAddr, idx, signLeaf, steps, wotsSig, base);
        case WotsStreaming(stream) =>
          leaf := GenLeafStreaming(env, skSeed, leafAddr, pkAddr, idx, signLeaf, steps, stream, base);
        case ForsLeaves =>
          leaf := GenForsLeaf(env, skSeed, leafAddr, idx, base);
      }
    }
  }

  /** fors_gen_leafx1: only the tree index of the address is set here; the height stays 0. */
  method GenForsLeaf(env: Env, skSeed: Bytes, leafAddr: Address.Buffer, idx: nat, ghost base: Address.Adrs)
    returns (leaf: Bytes)
    requires env.Valid() && idx < Pow256(4)
    requires Fits(env, leafAddr) && leafAddr.rec.mid == 0 && leafAddr.rec.(indexHigh := 0, last := 0) == base
    modifies leafAddr, leafAddr.bytes
    ensures Fits(env, leafAddr) && leafAddr.rec.mid == 0 && leafAddr.rec.(indexHigh := 0, last := 0) == base
    ensures leaf == Fors.LeafOf(env.c, base, idx, Fors.SecretValue(env.c, skSeed, base, idx))
  {
    hide TweakHash, Prf, Address.Buffer.Valid;
    leafAddr.SetTreeIndex(idx);
    assert leafAddr.rec == base.WithNode(0, idx);
    var sk := PrfAddr(env, skSeed, leafAddr);
    leaf := Thash(env, leafAddr, sk);
  }
}
