/** The tweakable hash: its four variants as functions, the one-shot code, and the init/update/finalize code
    (thash.c). */
module TweakableHash {
  import opened Bytes
  import opened Sha2
  import opened Mgf1
  import opened Keccak
  import opened Params
  import Address

  datatype Variant = ShaSimple | ShaRobust | ShakeSimple | ShakeRobust

  /** A parameter set, the hash family, and the abstract primitives. */
  datatype Scheme = Scheme(p: Params, variant: Variant, sha: Md, sha512: Md, sp: Sponge) {
    ghost predicate Valid() {
      && p.Valid()
      && sha.Valid() && sha == Sha256(sha.iv, sha.cf) && |sha.iv| == 32
      && sha512.Valid() && sha512 == Sha512(sha512.iv, sha512.cf) && |sha512.iv| == 64
      && sp.Valid() && sp == Shake256(sp.perm)
    }

    predicate IsSha() { variant.ShaSimple? || variant.ShaRobust? }

    /** set_sha_offsets, set_shake_offsets */
    function Layout(): Address.Layout { if IsSha() then Address.SHA_LAYOUT else Address.SHAKE_LAYOUT }
  }

  /** Every shipped size with every variant is a scheme, whatever the compression functions and the permutation do. */
  lemma ShippedScheme(size: Size, variant: Variant, sha: Md, sha512: Md, sp: Sponge)
    requires sha == Sha256(sha.iv, sha.cf) && |sha.iv| == 32 && forall s, b :: |sha.cf(s, b)| == 32
    requires sha512 == Sha512(sha512.iv, sha512.cf) && |sha512.iv| == 64 && forall s, b :: |sha512.cf(s, b)| == 64
    requires sp == Shake256(sp.perm) && forall s :: |sp.perm(s)| == 200
    ensures Scheme(InitParams(size), variant, sha, sha512, sp).Valid()
  {
    hide Params.Valid, InitParams;
    InitParamsValid(size);
  }

  /** What every hash call depends on besides its arguments. */
  datatype Ctx = Ctx(sc: Scheme, pubSeed: Bytes) {
    ghost predicate Valid() {
      sc.Valid() && |pubSeed| == sc.p.n
    }
  }

  // ---- Specification ----

  /** The address as it enters the hash: compressed to 22 bytes for SHA-256. */
  function AddressBytes(c: Ctx, adr: Address.Adrs): (r: Bytes)
    ensures |r| == if c.sc.IsSha() then 22 else 32
  {
    var full := Address.Encode(c.sc.Layout(), adr);
    if c.sc.IsSha() then full[..22] else full
  }

  /** The block that seed_state compresses once: the public seed and zeros. */
  function SeedBlock(c: Ctx): (r: Bytes)
    requires c.Valid()
    ensures |r| == 64
  {
    c.pubSeed + Zeros(64 - c.sc.p.n)
  }

  function ShaTruncated(c: Ctx, m: Bytes): (r: Bytes)
    requires c.Valid()
    ensures |r| == c.sc.p.n
  {
    HashLength(c.sc.sha, m);
    Hash(c.sc.sha, m)[..c.sc.p.n]
  }

  function BitMask(c: Ctx, adr: Address.Adrs, len: nat): (r: Bytes)
    requires c.Valid()
    ensures |r| == len
  {
    if c.sc.IsSha() then Mask(c.sc.sha, c.pubSeed + AddressBytes(c, adr), len)
    else Xof(c.sc.sp, c.pubSeed + AddressBytes(c, adr), len)
  }

  /** thash: `input` under the tweak `adr` and the public seed of `c`. */
  function TweakHash(c: Ctx, adr: Address.Adrs, input: Bytes): (r: Bytes)
    requires c.Valid()
    ensures |r| == c.sc.p.n
  {
    var a := AddressBytes(c, adr);
    match c.sc.variant
    case ShaSimple => ShaTruncated(c, SeedBlock(c) + a + input)
    case ShaRobust => ShaTruncated(c, SeedBlock(c) + a + Xor(input, BitMask(c, adr, |input|)))
    case ShakeSimple => Xof(c.sc.sp, c.pubSeed + a + input, c.sc.p.n)
    case ShakeRobust => Xof(c.sc.sp, c.pubSeed + a + Xor(input, BitMask(c, adr, |input|)), c.sc.p.n)
  }

  /** prf_addr */
  function Prf(c: Ctx, key: Bytes, adr: Address.Adrs): (r: Bytes)
    requires c.Valid()
    ensures |r| == c.sc.p.n
  {
    if c.sc.IsSha() then ShaTruncated(c, key + AddressBytes(c, adr))
    else Xof(c.sc.sp, key + AddressBytes(c, adr), c.sc.p.n)
  }

  // ---- What is hashed ----

  /** Byte `i` of the mask for a tweak, down to the hash calls; none in the simple variants. */
  function MaskByteAt(c: Ctx, adr: Address.Adrs, i: nat): byte
    requires c.Valid()
  {
    var seed := c.pubSeed + AddressBytes(c, adr);
    match c.sc.variant
    case ShaRobust =>
      HashLength(c.sc.sha, seed + BigEndian(i / 32, 4));
      Hash(c.sc.sha, seed + BigEndian(i / 32, 4))[i % 32]
    case ShakeRobust => OutputByte(c.sc.sp, seed, i)
    case ShaSimple => 0
    case ShakeSimple => 0
  }

  /** What follows the seed: the bytes of the address, then the input XORed byte by byte with the mask. */
  function TweakInput(c: Ctx, adr: Address.Adrs, input: Bytes): (r: Bytes)
    requires c.Valid()
    ensures |r| == (if c.sc.IsSha() then 22 else 32) + |input|
  {
    AddressBytes(c, adr) + seq(|input|, i requires 0 <= i < |input| => XorByte(input[i], MaskByteAt(c, adr, i)))
  }

  /** The seeded hash: SHA-256 from the seed's own block, SHAKE256 from the seed. */
  function SeededHash(c: Ctx, x: Bytes): (r: Bytes)
    requires c.Valid()
    ensures |r| == c.sc.p.n
  {
    if c.sc.IsSha() then
      HashLength(c.sc.sha, c.pubSeed + Zeros(64 - c.sc.p.n) + x);
      Hash(c.sc.sha, c.pubSeed + Zeros(64 - c.sc.p.n) + x)[..c.sc.p.n]
    else Xof(c.sc.sp, c.pubSeed + x, c.sc.p.n)
  }

  /** Every variant is the seeded hash of the address and the input under the mask. */
  lemma TweakHashWritten(c: Ctx, adr: Address.Adrs, input: Bytes)
    requires c.Valid()
    ensures TweakHash(c, adr, input) == SeededHash(c, TweakInput(c, adr, input))
  {
    hide Hash, Xof, BitMask, MaskByteAt, AddressBytes;
    var a := AddressBytes(c, adr);
    var masked := seq(|input|, i requires 0 <= i < |input| => XorByte(input[i], MaskByteAt(c, adr, i)));
    match c.sc.variant {
      case ShaSimple => NoMask(c, adr, input, masked);
      case ShakeSimple => NoMask(c, adr, input, masked);
      case ShaRobust => BytesMasked(c, adr, input, masked);
      case ShakeRobust => BytesMasked(c, adr, input, masked);
    }
    AppendAssoc(SeedBlock(c), a, masked);
    AppendAssoc(c.pubSeed, a, masked);
  }

  lemma NoMask(c: Ctx, adr: Address.Adrs, input: Bytes, masked: Bytes)
    requires c.Valid() && (c.sc.variant.ShaSimple? || c.sc.variant.ShakeSimple?) && |masked| == |input|
    requires forall i :: 0 <= i < |input| ==> masked[i] == XorByte(input[i], MaskByteAt(c, adr, i))
    ensures masked == input
  {
    forall i | 0 <= i < |input|
      ensures masked[i] == input[i]
    {
      XorByteZero(input[i]);
    }
  }

  lemma BytesMasked(c: Ctx, adr: Address.Adrs, input: Bytes, masked: Bytes)
    requires c.Valid() && (c.sc.variant.ShaRobust? || c.sc.variant.ShakeRobust?) && |masked| == |input|
    requires forall i :: 0 <= i < |input| ==> masked[i] == XorByte(input[i], MaskByteAt(c, adr, i))
    ensures masked == Xor(input, BitMask(c, adr, |input|))
  {
    hide MaskByteAt, BitMask;
    forall i | 0 <= i < |input|
      ensures masked[i] == Xor(input, BitMask(c, adr, |input|))[i]
    {
      BitMaskAt(c, adr, |input|, i);
    }
  }

  lemma BitMaskAt(c: Ctx, adr: Address.Adrs, len: nat, i: nat)
    requires c.Valid() && (c.sc.variant.ShaRobust? || c.sc.variant.ShakeRobust?) && i < len
    ensures BitMask(c, adr, len)[i] == MaskByteAt(c, adr, i)
  {
    hide Hash, OutputByte, BigEndian, AddressBytes;
    if c.sc.IsSha() {
      MaskAt(c.sc.sha, c.pubSeed + AddressBytes(c, adr), len, i);
    }
  }

  /** Inputs of one length under any tweaks: what is hashed differs as soon as the tweak or the input does. */
  lemma TweakInputInjective(c: Ctx, adr1: Address.Adrs, input1: Bytes, adr2: Address.Adrs, input2: Bytes)
    requires c.Valid() && adr1.InRange() && adr2.InRange() && |input1| == |input2|
    requires TweakInput(c, adr1, input1) == TweakInput(c, adr2, input2)
    ensures adr1 == adr2 && input1 == input2
  {
    hide MaskByteAt, AddressBytes, TweakInput, XorByte;
    TweakInputParts(c, adr1, input1);
    TweakInputParts(c, adr2, input2);
    AddressBytesInjective(c, adr1, adr2);
    var cut := if c.sc.IsSha() then 22 else 32;
    forall i | 0 <= i < |input1|
      ensures input1[i] == input2[i]
    {
      var x := TweakInput(c, adr1, input1);
      assert x[cut + i] == XorByte(input1[i], MaskByteAt(c, adr1, i));
      XorByteCancels(input1[i], input2[i], MaskByteAt(c, adr1, i));
    }
  }

  lemma TweakInputParts(c: Ctx, adr: Address.Adrs, input: Bytes)
    requires c.Valid()
    ensures var cut, x := if c.sc.IsSha() then 22 else 32, TweakInput(c, adr, input);
            && |x| == cut + |input| && x[..cut] == AddressBytes(c, adr)
            && forall i :: 0 <= i < |input| ==> x[cut + i] == XorByte(input[i], MaskByteAt(c, adr, i))
  {
    hide MaskByteAt, AddressBytes, XorByte;
  }

  lemma XorByteCancels(a: byte, b: byte, mask: byte)
    requires XorByte(a, mask) == XorByte(b, mask)
    ensures a == b
  {
    assert a ^ mask ^ mask == a;
    assert b ^ mask ^ mask == b;
  }

  /** The bytes that enter the hash determine the address. */
  lemma AddressBytesInjective(c: Ctx, adr1: Address.Adrs, adr2: Address.Adrs)
    requires adr1.InRange() && adr2.InRange() && AddressBytes(c, adr1) == AddressBytes(c, adr2)
    ensures adr1 == adr2
  {
    hide Address.Encode;
    var l := c.sc.Layout();
    assert Address.Encode(l, adr1)[..32] == Address.Encode(l, adr1);
    assert Address.Encode(l, adr2)[..32] == Address.Encode(l, adr2);
    Address.EncodeInjective(l, adr1, adr2);
  }

  /** The pseudorandom value: the truncated hash of the key and the address. */
  lemma PrfWritten(c: Ctx, key: Bytes, adr: Address.Adrs)
    requires c.Valid()
    ensures |Hash(c.sc.sha, key + AddressBytes(c, adr))| == 32
    ensures Prf(c, key, adr) == if c.sc.variant.ShaSimple? || c.sc.variant.ShaRobust?
                                then Hash(c.sc.sha, key + AddressBytes(c, adr))[..c.sc.p.n]
                                else OutputRange(c.sc.sp, key + AddressBytes(c, adr), 0, c.sc.p.n)
  {
    hide Hash, OutputRange, AddressBytes;
    HashLength(c.sc.sha, key + AddressBytes(c, adr));
  }

  // ---- Initialisation and the one-shot code ----

  /** The global state after initialize_hash_function. */
  datatype Env = Env(c: Ctx, seeded: Saved) {
    ghost predicate Valid() {
      c.Valid() && (c.sc.IsSha() ==> seeded.Of(c.sc.sha, SeedBlock(c)))
    }
  }

  /** initialize_hash_function: seed_state for SHA-256, nothing for SHAKE256. */
  method InitializeHashFunction(c: Ctx) returns (env: Env)
    requires c.Valid()
    ensures env.Valid() && env.c == c
  {
    hide Blocks;
    var state := new MdState(c.sc.sha);
    if c.sc.IsSha() {
      var block := SeedBlock(c);
      state.IncBlocks(block, 1);
      assert [] + block[..1 * 64] == block;
    }
    env := Env(c, Saved(state.chain, state.count));
  }

  ghost predicate Fits(env: Env, addr: Address.Buffer)
    reads addr, addr.bytes
  {
    addr.Valid() && addr.layout == env.c.sc.Layout()
  }

  /** `memcpy(buf, addr, SPX_SHA256_ADDR_BYTES)` or all SPX_ADDR_BYTES */
  method ReadAddress(env: Env, addr: Address.Buffer) returns (a: Bytes)
    requires Fits(env, addr)
    ensures a == AddressBytes(env.c, addr.rec)
  {
    a := if env.c.sc.IsSha() then addr.bytes[..22] else addr.bytes[..];
    assert addr.bytes[..22] == addr.bytes[..][..22];
  }

  method XorLoop(a: Bytes, mask: Bytes) returns (r: Bytes)
    requires |a| == |mask|
    ensures r == Xor(a, mask)
  {
    hide XorByte;
    r := [];
    for i := 0 to |a|
      invariant r == Xor(a, mask)[..i]
    {
      r := r + [XorByte(a[i], mask[i])];
    }
  }

  /** sha256_inc_finalize from the state that already holds the public seed. */
  method FinishSeeded(env: Env, rest: Bytes) returns (out: Bytes)
    requires env.Valid() && env.c.sc.IsSha()
    ensures out == ShaTruncated(env.c, SeedBlock(env.c) + rest)
  {
    hide Blocks, Hash;
    var state := new MdState(env.c.sc.sha);
    state.Restore(env.seeded, SeedBlock(env.c));
    var outbuf := state.IncFinalize(rest);
    HashLength(env.c.sc.sha, SeedBlock(env.c) + rest);
    out := outbuf[..env.c.sc.p.n];
  }

  method ThashSha256Simple(env: Env, addr: Address.Buffer, input: Bytes) returns (out: Bytes)
    requires env.Valid() && Fits(env, addr) && env.c.sc.variant.ShaSimple?
    ensures out == TweakHash(env.c, addr.rec, input)
  {
    hide AddressBytes, ShaTruncated, SeedBlock;
    var a := ReadAddress(env, addr);
    out := FinishSeeded(env, a + input);
    assert SeedBlock(env.c) + (a + input) == SeedBlock(env.c) + a + input;
  }

  method ThashSha256Robust(env: Env, addr: Address.Buffer, input: Bytes) returns (out: Bytes)
    requires env.Valid() && Fits(env, addr) && env.c.sc.variant.ShaRobust?
    ensures out == TweakHash(env.c, addr.rec, input)
  {
    hide AddressBytes, ShaTruncated, SeedBlock, Mask;
    var a := ReadAddress(env, addr);
    var bitmask := GenerateMask(env.c.sc.sha, |input|, env.c.pubSeed + a);
    var masked := XorLoop(input, bitmask);
    out := FinishSeeded(env, a + masked);
    assert SeedBlock(env.c) + (a + masked) == SeedBlock(env.c) + a + masked;
  }

  method ThashShake256Simple(env: Env, addr: Address.Buffer, input: Bytes) returns (out: Bytes)
    requires env.Valid() && Fits(env, addr) && env.c.sc.variant.ShakeSimple?
    ensures out == TweakHash(env.c, addr.rec, input)
  {
    hide AddressBytes, Xof;
    var a := ReadAddress(env, addr);
    out := ShakeDigest(env.c.sc.sp, env.c.sc.p.n, env.c.pubSeed + a + input);
  }

  method ThashShake256Robust(env: Env, addr: Address.Buffer, input: Bytes) returns (out: Bytes)
    requires env.Valid() && Fits(env, addr) && env.c.sc.variant.ShakeRobust?
    ensures out == TweakHash(env.c, addr.rec, input)
  {
    hide AddressBytes, Xof;
    var a := ReadAddress(env, addr);
    var bitmask := ShakeDigest(env.c.sc.sp, |input|, env.c.pubSeed + a);
    var masked := XorLoop(input, bitmask);
    out := ShakeDigest(env.c.sc.sp, env.c.sc.p.n, env.c.pubSeed + a + masked);
  }

  /** thash: dispatch on the parameter set. The output may overlap the input in C; every variant copies first. */
  method Thash(env: Env, addr: Address.Buffer, input: Bytes) returns (out: Bytes)
    requires env.Valid() && Fits(env, addr)
    ensures out == TweakHash(env.c, addr.rec, input)
  {
    hide TweakHash;
    match env.c.sc.variant {
      case ShaSimple => out := ThashSha256Simple(env, addr, input);
      case ShaRobust => out := ThashSha256Robust(env, addr, input);
      case ShakeSimple => out := ThashShake256Simple(env, addr, input);
      case ShakeRobust => out := ThashShake256Robust(env, addr, input);
    }
  }

  /** prf_addr_sha256, prf_addr_shake256 */
  method PrfAddr(env: Env, key: Bytes, addr: Address.Buffer) returns (out: Bytes)
    requires env.Valid() && Fits(env, addr)
    ensures out == Prf(env.c, key, addr.rec)
  {
    hide AddressBytes, Xof, Hash;
    var a := ReadAddress(env, addr);
    if env.c.sc.IsSha() {
      var outbuf := Digest(env.c.sc.sha, key + a);
      out := outbuf[..env.c.sc.p.n];
    } else {
      out := ShakeDigest(env.c.sc.sp, env.c.sc.p.n, key + a);
    }
  }

  // ---- Streaming: thash_init, thash_update, thash_finalize ----

  /** The `hash_state` buffer, cast to the state type of the variant in use. */
  datatype Parts =
    | ShaSimpleParts(inc: IncState)
    | ShaRobustParts(inc: IncState, mask: MaskState)
    | ShakeSimpleParts(main: IncSponge)
    | ShakeRobustParts(main: IncSponge, bitmask: IncSponge)

  class HashState {
    const c: Ctx
    const parts: Parts
    ghost const adr: Address.Adrs
    ghost var fed: Bytes // the blocks passed to Update

    ghost function Footprint(): set<object> {
      match parts
      case ShaSimpleParts(inc) => {this, inc, inc.st, inc.tmp}
      case ShaRobustParts(inc, mask) => {this, inc, inc.st, inc.tmp, mask, mask.tmp}
      case ShakeSimpleParts(main) => {this, main, main.lanes}
      case ShakeRobustParts(main, bitmask) => {this, main, main.lanes, bitmask, bitmask.lanes}
    }

    /** What the hash has absorbed: prefix, and the blocks masked where the variant masks. */
    ghost predicate Valid()
      reads Footprint()
    {
      && c.Valid()
      && match parts
         case ShaSimpleParts(inc) =>
           && c.sc.variant.ShaSimple?
           && inc.Valid() && inc.st.md == c.sc.sha
           && inc.fed == SeedBlock(c) + AddressBytes(c, adr) + fed
         case ShaRobustParts(inc, mask) =>
           && c.sc.variant.ShaRobust?
           && inc.Valid() && inc.st.md == c.sc.sha
           && mask.Valid() && mask.md == c.sc.sha && mask.n == c.sc.p.n
           && mask.seed == c.pubSeed + AddressBytes(c, adr)
           && mask.n * mask.calls == |fed|
           && inc.tmp != mask.tmp
           && inc.fed == SeedBlock(c) + AddressBytes(c, adr) + Xor(fed, BitMask(c, adr, |fed|))
         case ShakeSimpleParts(main) =>
           && c.sc.variant.ShakeSimple?
           && main.Absorbing() && main.sp == c.sc.sp
           && main.message == c.pubSeed + AddressBytes(c, adr) + fed
         case ShakeRobustParts(main, bitmask) =>
           && c.sc.variant.ShakeRobust?
           && main.Absorbing() && main.sp == c.sc.sp
           && bitmask.Squeezing() && bitmask.sp == c.sc.sp
           && main != bitmask && main.lanes != bitmask.lanes
           && bitmask.message == c.pubSeed + AddressBytes(c, adr) && bitmask.produced == |fed|
           && main.message == c.pubSeed + AddressBytes(c, adr) + Xor(fed, BitMask(c, adr, |fed|))
    }

    /** thash_init */
    constructor (env: Env, addr: Address.Buffer)
      requires env.Valid() && Fits(env, addr)
      ensures Valid() && c == env.c && adr == addr.rec && fed == [] && fresh(Footprint())
    {
      hide Blocks, Hash, Xof, Mask, AddressBytes, SeedBlock, StateBytes, Partial, Padded;
      c := env.c;
      adr := addr.rec;
      fed := [];
      var a := ReadAddress(env, addr);
      match env.c.sc.variant {
        case ShaSimple =>
          var inc := InitSha256(env, a);
          parts := ShaSimpleParts(inc);
        case ShaRobust =>
          var inc := InitSha256(env, a);
          var mask := new MaskState(env.c.sc.sha, env.c.sc.p.n, env.c.pubSeed + a);
          parts := ShaRobustParts(inc, mask);
        case ShakeSimple =>
          var main := InitShake256(env, a);
          parts := ShakeSimpleParts(main);
        case ShakeRobust =>
          var main := InitShake256(env, a);
          var bitmask := InitShake256(env, a);
          bitmask.Finalize();
          parts := ShakeRobustParts(main, bitmask);
      }
      new;
      EmptyXor(SeedBlock(c) + AddressBytes(c, adr), BitMask(c, adr, 0));
      EmptyXor(c.pubSeed + AddressBytes(c, adr), BitMask(c, adr, 0));
    }

    /** thash_update; the block index, seed and address arguments are unused in every variant. */
    method Update(block: Bytes)
      requires Valid() && |block| == c.sc.p.n
      modifies Footprint()
      ensures Valid() && fed == old(fed) + block
    {
      hide Blocks, Hash, BitMask, AddressBytes, SeedBlock, StateBytes, Partial, Padded, Xor, MaskRange, OutputRange;
      ghost var before := fed;
      match parts {
        case ShaSimpleParts(inc) =>
          inc.Update(block);
        case ShaRobustParts(inc, mask) =>
          UpdateSha256(c, adr, inc, mask, before, block);
        case ShakeSimpleParts(main) =>
          main.Absorb(block);
        case ShakeRobustParts(main, bitmask) =>
          UpdateShake256(c, adr, main, bitmask, before, block);
      }
      fed := fed + block;
      AppendAssoc(SeedBlock(c) + AddressBytes(c, adr), before, block);
      AppendAssoc(c.pubSeed + AddressBytes(c, adr), before, block);
    }

    /** thash_finalize */
    method Finalize() returns (out: Bytes)
      requires Valid()
      modifies Footprint()
      ensures out == TweakHash(c, adr, old(fed))
    {
      hide Blocks, Hash, AddressBytes, SeedBlock, StateBytes, Partial, Padded, Xor, BitMask, MaskRange, OutputRange;
      match parts {
        case ShaSimpleParts(inc) =>
          HashLength(c.sc.sha, inc.fed);
          out := inc.Finalize(c.sc.p.n);
        case ShaRobustParts(inc, mask) =>
          HashLength(c.sc.sha, inc.fed);
          out := inc.Finalize(c.sc.p.n);
        case ShakeSimpleParts(main) =>
          main.Finalize();
          out := main.Squeeze(c.sc.p.n);
        case ShakeRobustParts(main, bitmask) =>
          main.Finalize();
          out := main.Squeeze(c.sc.p.n);
      }
    }
  }

  /** The SHA-256 part of thash_init: the seeded state, then the compressed address. */
  method InitSha256(env: Env, a: Bytes) returns (inc: IncState)
    requires env.Valid() && env.c.sc.IsSha() && |a| == 22
    ensures fresh(inc) && fresh(inc.st) && fresh(inc.tmp)
    ensures inc.Valid() && inc.st.md == env.c.sc.sha && inc.fed == SeedBlock(env.c) + a
  {
    hide Blocks;
    inc := new IncState(env.c.sc.sha);
    inc.Restore(env.seeded, SeedBlock(env.c));
    inc.Update(a);
  }

  /** A sponge that has absorbed the public seed and the address. */
  method InitShake256(env: Env, a: Bytes) returns (main: IncSponge)
    requires env.Valid()
    ensures fresh(main) && fresh(main.lanes)
    ensures main.Absorbing() && main.sp == env.c.sc.sp && main.message == env.c.pubSeed + a
  {
    hide StateBytes, Partial;
    main := new IncSponge(env.c.sc.sp);
    main.Absorb(env.c.pubSeed);
    main.Absorb(a);
    assert [] + env.c.pubSeed == env.c.pubSeed;
  }

  /** thash_update_sha256 (robust) */
  method UpdateSha256(c: Ctx, ghost adr: Address.Adrs, inc: IncState, mask: MaskState, ghost fed: Bytes, block: Bytes)
    requires c.Valid() && c.sc.IsSha() && |block| == c.sc.p.n
    requires inc.Valid() && mask.Valid() && inc.tmp != mask.tmp
    requires mask.md == c.sc.sha && mask.n == c.sc.p.n && mask.seed == c.pubSeed + AddressBytes(c, adr)
    requires mask.n * mask.calls == |fed|
    requires inc.fed == SeedBlock(c) + AddressBytes(c, adr) + Xor(fed, BitMask(c, adr, |fed|))
    modifies inc, inc.st, inc.tmp, mask, mask.tmp
    ensures inc.Valid() && mask.Valid() && mask.n * mask.calls == |fed + block|
    ensures inc.fed == SeedBlock(c) + AddressBytes(c, adr) + Xor(fed + block, BitMask(c, adr, |fed + block|))
  {
    hide Blocks, Hash, BitMask, AddressBytes, SeedBlock, Xor, MaskRange;
    var m := mask.Update();
    var buf := XorLoop(block, m);
    inc.Update(buf);
    assert mask.n * mask.calls == |fed| + |block|;
    MaskGrows(c, adr, SeedBlock(c) + AddressBytes(c, adr), fed, block);
  }

  /** thash_update_shake256 (robust) */
  method UpdateShake256(c: Ctx, ghost adr: Address.Adrs, main: IncSponge, bitmask: IncSponge, ghost fed: Bytes,
                        block: Bytes)
    requires c.Valid() && !c.sc.IsSha() && |block| == c.sc.p.n
    requires main.Absorbing() && bitmask.Squeezing() && main != bitmask && main.lanes != bitmask.lanes
    requires bitmask.sp == c.sc.sp && bitmask.message == c.pubSeed + AddressBytes(c, adr) && bitmask.produced == |fed|
    requires main.message == c.pubSeed + AddressBytes(c, adr) + Xor(fed, BitMask(c, adr, |fed|))
    modifies main, main.lanes, bitmask, bitmask.lanes
    ensures main.Absorbing() && bitmask.Squeezing()
    ensures bitmask.message == old(bitmask.message) && bitmask.produced == |fed + block|
    ensures main.message == c.pubSeed + AddressBytes(c, adr) + Xor(fed + block, BitMask(c, adr, |fed + block|))
  {
    hide StateBytes, Partial, Padded, BitMask, AddressBytes, Xor, OutputRange;
    var m := bitmask.Squeeze(c.sc.p.n);
    var buf := XorLoop(block, m);
    main.Absorb(buf);
    MaskGrows(c, adr, c.pubSeed + AddressBytes(c, adr), fed, block);
  }

  lemma AppendAssoc(a: Bytes, b: Bytes, d: Bytes)
    ensures a + b + d == a + (b + d)
  {
  }

  lemma EmptyXor(prefix: Bytes, mask: Bytes)
    requires mask == []
    ensures prefix + Xor([], mask) == prefix && prefix + [] == prefix
  {
    assert Xor([], mask) == [];
  }

  /** Bytes [from, from + len) of the mask that the streaming form takes. */
  ghost function MaskPart(c: Ctx, adr: Address.Adrs, from: nat, len: nat): (r: Bytes)
    requires c.Valid()
    ensures |r| == len
  {
    if c.sc.IsSha() then MaskRange(c.sc.sha, c.pubSeed + AddressBytes(c, adr), from, len)
    else OutputRange(c.sc.sp, c.pubSeed + AddressBytes(c, adr), from, len)
  }

  lemma MaskParts(c: Ctx, adr: Address.Adrs, a: nat, b: nat)
    requires c.Valid()
    ensures BitMask(c, adr, a + b) == BitMask(c, adr, a) + MaskPart(c, adr, a, b)
  {
    hide MaskRange, OutputRange, AddressBytes;
    if c.sc.IsSha() {
      MaskConcat(c.sc.sha, c.pubSeed + AddressBytes(c, adr), 0, a, b);
    } else {
      OutputConcat(c.sc.sp, c.pubSeed + AddressBytes(c, adr), 0, a, b);
    }
  }

  /** Masking block by block with the next stretch of the mask is masking the concatenation. */
  lemma MaskGrows(c: Ctx, adr: Address.Adrs, prefix: Bytes, before: Bytes, block: Bytes)
    requires c.Valid()
    ensures prefix + Xor(before, BitMask(c, adr, |before|)) + Xor(block, MaskPart(c, adr, |before|, |block|))
            == prefix + Xor(before + block, BitMask(c, adr, |before + block|))
  {
    hide Xor, BitMask, MaskPart;
    MaskParts(c, adr, |before|, |block|);
    XorConcat(before, block, BitMask(c, adr, |before|), MaskPart(c, adr, |before|, |block|));
    AppendAssoc(prefix, Xor(before, BitMask(c, adr, |before|)), Xor(block, MaskPart(c, adr, |before|, |block|)));
  }
}
