/** gen_message_random and hash_message (hash_sha256.c, hash_shake256.c). */
module MessageHash {
  import opened Arith
  import opened Bits
  import opened Bytes
  import opened Sha2
  import opened Mgf1
  import opened Keccak
  import opened Params
  import opened TweakableHash

  /** Leaves room for the prefixes the code hashes before the message in a 64-bit byte count. */
  const MAX_MESSAGE: nat := TWO64 - 512

  // ---- Specification ----

  function Repeat(b: byte, n: nat): (r: Bytes)
    ensures |r| == n
  {
    seq(n, _ => b)
  }

  /** HMAC (section 2 of RFC 2104) for a key no longer than a block. */
  function Hmac(md: Md, key: Bytes, text: Bytes): Bytes
    requires md.Valid() && |key| <= md.block
  {
    var k := key + Zeros(md.block - |key|);
    Hash(md, Xor(Repeat(0x5c, md.block), k) + Hash(md, Xor(Repeat(0x36, md.block), k) + text))
  }

  /** SHA-512 takes over from SHA-256 when N is 32. */
  function MessageMd(sc: Scheme): Md {
    if sc.p.n != 32 then sc.sha else sc.sha512
  }

  lemma HmacLength(md: Md, key: Bytes, text: Bytes)
    requires md.Valid() && |key| <= md.block
    ensures |Hmac(md, key, text)| == |md.iv|
  {
    var k := key + Zeros(md.block - |key|);
    HashLength(md, Xor(Repeat(0x5c, md.block), k) + Hash(md, Xor(Repeat(0x36, md.block), k) + text));
  }

  /** gen_message_random: R */
  function MessageRandom(sc: Scheme, skPrf: Bytes, optrand: Bytes, m: Bytes): (r: Bytes)
    requires sc.Valid() && |skPrf| == sc.p.n
    ensures |r| == sc.p.n
  {
    if sc.IsSha() then
      HmacLength(MessageMd(sc), skPrf, optrand + m);
      Hmac(MessageMd(sc), skPrf, optrand + m)[..sc.p.n]
    else Xof(sc.sp, skPrf + optrand + m, sc.p.n)
  }

  /** The digest of hash_message before it is cut up. */
  function MessageDigest(sc: Scheme, r: Bytes, pk: Bytes, m: Bytes): (d: Bytes)
    requires sc.Valid() && |pk| == 2 * sc.p.n
    ensures |d| == sc.p.DigestBytes()
  {
    if sc.IsSha() then
      Mask(MessageMd(sc), r + pk[..sc.p.n] + Hash(MessageMd(sc), r + pk + m), sc.p.DigestBytes())
    else Xof(sc.sp, r + pk + m, sc.p.DigestBytes())
  }

  datatype Selection = Selection(mhash: Bytes, tree: nat, leaf: nat)

  /** The FORS message, the tree index and the leaf index, cut from the digest. */
  function Select(p: Params, d: Bytes): (s: Selection)
    requires p.Valid() && |d| == p.DigestBytes()
    ensures |s.mhash| == p.ForsMsgBytes()
    ensures s.tree < Pow2(p.TreeBits()) && s.leaf < Pow2(p.TreeHeight())
  {
    var cut := p.ForsMsgBytes();
    Selection(d[..cut],
              FromBigEndian(d[cut..cut + p.TreeBytes()]) % Pow2(p.TreeBits()),
              FromBigEndian(d[cut + p.TreeBytes()..]) % Pow2(p.TreeHeight()))
  }

  function HashMessage(sc: Scheme, r: Bytes, pk: Bytes, m: Bytes): (s: Selection)
    requires sc.Valid() && |pk| == 2 * sc.p.n
    ensures |s.mhash| == sc.p.ForsMsgBytes()
    ensures s.tree < Pow2(sc.p.TreeBits()) && s.leaf < Pow2(sc.p.TreeHeight())
  {
    Select(sc.p, MessageDigest(sc, r, pk, m))
  }

  // ---- What the digest means ----

  /** Cutting up a digest gives back what was put together: the FORS message, then the two indices, each big-endian in
      its own bytes. */
  lemma SelectRoundTrip(p: Params, mhash: Bytes, tree: nat, leaf: nat)
    requires p.Valid() && |mhash| == p.ForsMsgBytes() && tree < Pow2(p.TreeBits()) && leaf < Pow2(p.TreeHeight())
    ensures Select(p, mhash + BigEndian(tree, p.TreeBytes()) + BigEndian(leaf, p.LeafBytes()))
            == Selection(mhash, tree, leaf)
  {
    hide BigEndian, FromBigEndian, Pow2, Pow256;
    var treeBytes, leafBytes := BigEndian(tree, p.TreeBytes()), BigEndian(leaf, p.LeafBytes());
    var d, cut := mhash + treeBytes + leafBytes, p.ForsMsgBytes();
    assert d[..cut] == mhash && d[cut..cut + p.TreeBytes()] == treeBytes && d[cut + p.TreeBytes()..] == leafBytes;
    FieldReadBack(tree, p.TreeBits(), p.TreeBytes());
    FieldReadBack(leaf, p.TreeHeight(), p.LeafBytes());
  }

  lemma FieldReadBack(x: nat, bits: nat, len: nat)
    requires x < Pow2(bits) && bits <= 8 * len
    ensures FromBigEndian(BigEndian(x, len)) % Pow2(bits) == x
  {
    hide BigEndian, FromBigEndian, Pow2, Pow256;
    Pow256IsPow2(len);
    Pow2Monotone(bits, 8 * len);
    BigEndianRoundTrip(x, len);
    ModUnique(x, Pow256(len), 0, x);
    ModUnique(x, Pow2(bits), 0, x);
  }

  /** HMAC with its two key blocks written out byte by byte. */
  lemma HmacWritten(md: Md, key: Bytes, text: Bytes) returns (inner: Bytes, outer: Bytes)
    requires md.Valid() && |key| <= md.block
    ensures |inner| == |outer| == md.block
    ensures forall i :: 0 <= i < md.block ==> inner[i] == if i < |key| then key[i] ^ 0x36 else 0x36
    ensures forall i :: 0 <= i < md.block ==> outer[i] == if i < |key| then key[i] ^ 0x5c else 0x5c
    ensures Hmac(md, key, text) == Hash(md, outer + Hash(md, inner + text))
  {
    hide Hash;
    var k := key + Zeros(md.block - |key|);
    inner, outer := Xor(Repeat(0x36, md.block), k), Xor(Repeat(0x5c, md.block), k);
    forall i | 0 <= i < md.block
      ensures inner[i] == if i < |key| then key[i] ^ 0x36 else 0x36
      ensures outer[i] == if i < |key| then key[i] ^ 0x5c else 0x5c
    {
      PadByte(k[i]);
    }
  }

  lemma PadByte(b: byte)
    ensures XorByte(0x36, b) == b ^ 0x36 && XorByte(0x5c, b) == b ^ 0x5c
    ensures (0 as byte) ^ 0x36 == 0x36 && (0 as byte) ^ 0x5c == 0x5c
  {
  }

  /** R: keyed with SK_PRF, over the signing randomness and then the message, cut to N bytes. */
  lemma RandomWritten(sc: Scheme, skPrf: Bytes, optrand: Bytes, m: Bytes)
    requires sc.Valid() && |skPrf| == |optrand| == sc.p.n
    ensures var md := if sc.p.n == 32 then sc.sha512 else sc.sha;
            |Hmac(md, skPrf, optrand + m)| == |md.iv|
    ensures MessageRandom(sc, skPrf, optrand, m) ==
              match sc.variant
              case ShaSimple => Hmac(if sc.p.n == 32 then sc.sha512 else sc.sha, skPrf, optrand + m)[..sc.p.n]
              case ShaRobust => Hmac(if sc.p.n == 32 then sc.sha512 else sc.sha, skPrf, optrand + m)[..sc.p.n]
              case ShakeSimple => OutputRange(sc.sp, skPrf + optrand + m, 0, sc.p.n)
              case ShakeRobust => OutputRange(sc.sp, skPrf + optrand + m, 0, sc.p.n)
  {
    hide Hmac, OutputRange;
    HmacLength(MessageMd(sc), skPrf, optrand + m);
  }

  /** Byte `i` of the digest, down to the hash calls. */
  lemma DigestAt(sc: Scheme, r: Bytes, pk: Bytes, m: Bytes, i: nat)
    requires sc.Valid() && |pk| == 2 * sc.p.n && i < sc.p.DigestBytes()
    ensures var md, d := if sc.p.n == 32 then sc.sha512 else sc.sha, MessageDigest(sc, r, pk, m);
            if sc.variant.ShaSimple? || sc.variant.ShaRobust? then
              var block := Hash(md, r + pk[..sc.p.n] + Hash(md, r + pk + m) + BigEndian(i / |md.iv|, 4));
              |block| == |md.iv| && d[i] == block[i % |md.iv|]
            else d[i] == OutputByte(sc.sp, r + pk + m, i)
  {
    hide Hash, BigEndian, OutputByte, Mask;
    if sc.IsSha() {
      var md := MessageMd(sc);
      MaskAt(md, r + pk[..sc.p.n] + Hash(md, r + pk + m), sc.p.DigestBytes(), i);
    } else {
      XofAt(sc.sp, r + pk + m, sc.p.DigestBytes(), i);
    }
  }

  lemma XofAt(sp: Sponge, m: Bytes, len: nat, i: nat)
    requires sp.Valid() && i < len
    ensures Xof(sp, m, len)[i] == OutputByte(sp, m, i)
  {
    hide OutputByte;
  }

  // ---- Code ----

  /** `buf[i] = pad ^ key[i]` for the key, then `memset(pad)` up to the block. */
  method PadKey(md: Md, pad: byte, key: Bytes) returns (buf: Bytes)
    requires md.Valid() && |key| <= md.block
    ensures buf == Xor(Repeat(pad, md.block), key + Zeros(md.block - |key|))
  {
    hide XorByte;
    buf := [];
    ghost var whole := Xor(Repeat(pad, md.block), key + Zeros(md.block - |key|));
    for i := 0 to |key|
      invariant buf == whole[..i]
    {
      buf := buf + [XorByte(pad, key[i])];
    }
    XorByteZero(pad);
    buf := buf + Repeat(pad, md.block - |key|);
  }

  /** `prefix`, which fills less than `room` whole blocks, is completed from the message; only the rest of the
      message goes to finalize. When the message is too short for that, everything goes to finalize. */
  method HashPrefixed(state: MdState, prefix: Bytes, inblocks: nat, m: Bytes) returns (out: Bytes)
    requires state.Valid() && |prefix| <= inblocks * state.md.block
    requires state.md.countBytes == 9 ==> |state.absorbed| + |prefix| + |m| < TWO64
    modifies state
    ensures out == Hash(state.md, old(state.absorbed) + prefix + m)
  {
    hide Blocks, Hash;
    var room := inblocks * state.md.block;
    ghost var before := state.absorbed;
    if |prefix| + |m| < room {
      out := state.IncFinalize(prefix + m);
      assert before + (prefix + m) == before + prefix + m;
    } else {
      var head := prefix + m[..room - |prefix|];
      state.IncBlocks(head, inblocks);
      assert head[..room] == head;
      out := state.IncFinalize(m[room - |prefix|..]);
      assert before + head + m[room - |prefix|..] == before + prefix + m;
    }
  }

  /** gen_message_random_sha256, gen_message_random_sha512 */
  method GenMessageRandomSha(md: Md, n: nat, skPrf: Bytes, optrand: Bytes, m: Bytes) returns (r: Bytes)
    requires md.Valid() && |skPrf| == |optrand| == n <= |md.iv| <= 64 && n <= 32
    requires |m| <= MAX_MESSAGE
    ensures |Hmac(md, skPrf, optrand + m)| == |md.iv| && r == Hmac(md, skPrf, optrand + m)[..n]
  {
    hide Blocks, Hash, Xor, Zeros, Repeat;
    HmacLength(md, skPrf, optrand + m);
    var state := new MdState(md);
    var ipad := PadKey(md, 0x36, skPrf);
    state.IncBlocks(ipad, 1);
    assert [] + ipad[..1 * md.block] == ipad;
    var inner := HashPrefixed(state, optrand, 1, m);
    assert ipad + optrand + m == ipad + (optrand + m);
    HashLength(md, ipad + (optrand + m));
    var opad := PadKey(md, 0x5c, skPrf);
    var outer := Digest(md, opad + inner);
    r := outer[..n];
  }

  method GenMessageRandom(sc: Scheme, skPrf: Bytes, optrand: Bytes, m: Bytes) returns (r: Bytes)
    requires sc.Valid() && |skPrf| == |optrand| == sc.p.n && |m| <= MAX_MESSAGE
    ensures r == MessageRandom(sc, skPrf, optrand, m)
  {
    hide Hmac, Xof, StateBytes, Partial, Padded;
    if sc.IsSha() {
      r := GenMessageRandomSha(MessageMd(sc), sc.p.n, skPrf, optrand, m);
    } else {
      var inc := new IncSponge(sc.sp);
      inc.Absorb(skPrf);
      inc.Absorb(optrand);
      inc.Absorb(m);
      inc.Finalize();
      r := inc.Squeeze(sc.p.n);
      assert [] + skPrf == skPrf;
      XofIsPrefix(sc.sp, skPrf + optrand + m, sc.p.n);
    }
  }

  lemma XofIsPrefix(sp: Sponge, m: Bytes, len: nat)
    requires sp.Valid()
    ensures Xof(sp, m, len) == OutputRange(sp, m, 0, len)
  {
  }

  /** SPX_INBLOCKS: R and the public key rounded up to whole blocks. */
  function InBlocks(md: Md, n: nat): (k: nat)
    requires md.Valid()
    ensures k * md.block >= 3 * n
  {
    var k := (3 * n + md.block - 1) / md.block;
    QuotientBound(3 * n + md.block - 1, md.block);
    k
  }

  /** The SHA part of hash_message, up to the call of MGF1. */
  method DigestSha(md: Md, n: nat, len: nat, r: Bytes, pk: Bytes, m: Bytes) returns (buf: Bytes)
    requires md.Valid() && 0 < |md.iv| <= 64 && n <= 32 && |r| == n && |pk| == 2 * n
    requires |m| <= MAX_MESSAGE
    ensures buf == Mask(md, r + pk[..n] + Hash(md, r + pk + m), len)
  {
    hide Blocks, Hash, Mask;
    var state := new MdState(md);
    var digest := HashPrefixed(state, r + pk, InBlocks(md, n), m);
    assert [] + (r + pk) == r + pk;
    HashLength(md, r + pk + m);
    buf := GenerateMask(md, len, r + pk[..n] + digest);
  }

  /** hash_message: the digest, then the two indices read big-endian and masked to their width. */
  method ComputeHashMessage(sc: Scheme, r: Bytes, pk: Bytes, m: Bytes) returns (s: Selection)
    requires sc.Valid() && |r| == sc.p.n && |pk| == 2 * sc.p.n && |m| <= MAX_MESSAGE
    ensures s == HashMessage(sc, r, pk, m)
  {
    hide Hash, Mask, Xof, StateBytes, Partial, Padded;
    var buf;
    if sc.IsSha() {
      buf := DigestSha(MessageMd(sc), sc.p.n, sc.p.DigestBytes(), r, pk, m);
    } else {
      var inc := new IncSponge(sc.sp);
      inc.Absorb(r);
      inc.Absorb(pk);
      inc.Absorb(m);
      inc.Finalize();
      buf := inc.Squeeze(sc.p.DigestBytes());
      assert [] + r == r;
      XofIsPrefix(sc.sp, r + pk + m, sc.p.DigestBytes());
    }
    s := SelectIndices(sc.p, buf);
  }

  method SelectIndices(p: Params, buf: Bytes) returns (s: Selection)
    requires p.Valid() && |buf| == p.DigestBytes()
    ensures s == Select(p, buf)
  {
    hide FromBigEndian, Pow2, BitAnd;
    var cut := p.ForsMsgBytes();
    var tree := BytesToUll(buf[cut..cut + p.TreeBytes()]);
    var leaf := BytesToUll(buf[cut + p.TreeBytes()..]);
    TreeBitsFit(p);
    OnesShifted(64, p.TreeBits());
    OnesShifted(32, p.TreeHeight());
    AndMask(tree, p.TreeBits());
    AndMask(leaf, p.TreeHeight());
    var treeMask := (Pow2(64) - 1) / Pow2(64 - p.TreeBits()); // (~(uint64_t)0) >> (64 - SPX_TREE_BITS)
    var leafMask := (Pow2(32) - 1) / Pow2(32 - p.TreeHeight()); // (~(uint32_t)0) >> (32 - SPX_LEAF_BITS)
    s := Selection(buf[..cut], BitAnd(tree, treeMask), BitAnd(leaf, leafMask));
  }

  lemma TreeBitsFit(p: Params)
    requires p.Valid()
    ensures p.TreeBits() <= 64 && p.TreeHeight() <= 32
  {
  }
}
