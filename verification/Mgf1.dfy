/** The mask generation function of sha256.c (appendix B.2.1 of RFC 8017), in one call and N bytes at a time. */
module Mgf1 {
  import opened Arith
  import opened Bytes
  import opened Sha2

  /** Byte `i` of the unbounded mask: the hash of the seed and a four-byte block counter. */
  function MaskByte(md: Md, seed: Bytes, i: nat): byte
    requires md.Valid() && |md.iv| > 0
  {
    HashLength(md, seed + BigEndian(i / |md.iv|, 4));
    Hash(md, seed + BigEndian(i / |md.iv|, 4))[i % |md.iv|]
  }

  /** Bytes [from, from + len) of the mask. */
  function MaskRange(md: Md, seed: Bytes, from: nat, len: nat): (r: Bytes)
    requires md.Valid() && |md.iv| > 0
    ensures |r| == len
  {
    seq(len, i requires 0 <= i < len => MaskByte(md, seed, from + i))
  }

  function Mask(md: Md, seed: Bytes, len: nat): (r: Bytes)
    requires md.Valid() && |md.iv| > 0
    ensures |r| == len
  {
    MaskRange(md, seed, 0, len)
  }

  lemma MaskConcat(md: Md, seed: Bytes, from: nat, a: nat, b: nat)
    requires md.Valid() && |md.iv| > 0
    ensures MaskRange(md, seed, from, a + b) == MaskRange(md, seed, from, a) + MaskRange(md, seed, from + a, b)
  {
    hide MaskByte;
  }

  /** A block of hash output is the aligned stretch of the mask. */
  lemma MaskBlock(md: Md, seed: Bytes, k: nat)
    requires md.Valid() && |md.iv| > 0
    ensures MaskRange(md, seed, |md.iv| * k, |md.iv|) == Hash(md, seed + BigEndian(k, 4))
  {
    hide Hash, BigEndian;
    var n := |md.iv|;
    HashLength(md, seed + BigEndian(k, 4));
    forall i | 0 <= i < n
      ensures MaskByte(md, seed, n * k + i) == Hash(md, seed + BigEndian(k, 4))[i]
    {
      ModUnique(n * k + i, n, k, i);
    }
  }

  lemma MaskPrefix(md: Md, seed: Bytes, from: nat, len: nat, cut: nat)
    requires md.Valid() && |md.iv| > 0 && cut <= len
    ensures MaskRange(md, seed, from, len)[..cut] == MaskRange(md, seed, from, cut)
    ensures MaskRange(md, seed, from, len)[cut..] == MaskRange(md, seed, from + cut, len - cut)
  {
    hide MaskByte;
  }

  /** Byte `i` of the mask, by block number and place. */
  lemma MaskAt(md: Md, seed: Bytes, len: nat, i: nat)
    requires md.Valid() && |md.iv| in {32, 64} && i < len
    ensures |Hash(md, seed + BigEndian(i / |md.iv|, 4))| == |md.iv|
    ensures Mask(md, seed, len)[i] == Hash(md, seed + BigEndian(i / |md.iv|, 4))[i % |md.iv|]
  {
    hide Hash, BigEndian;
    HashLength(md, seed + BigEndian(i / |md.iv|, 4));
  }

  /** mgf1_sha256, mgf1_sha512 */
  method GenerateMask(md: Md, outlen: nat, input: Bytes) returns (out: Bytes)
    requires md.Valid() && |md.iv| > 0
    requires md.countBytes == 9 ==> |input| + 4 < TWO64
    ensures out == Mask(md, input, outlen)
  {
    hide Hash, BigEndian, MaskRange;
    out := [];
    var i := 0;
    while (i + 1) * |md.iv| <= outlen
      invariant i * |md.iv| <= outlen
      invariant out == MaskRange(md, input, 0, i * |md.iv|)
      decreases outlen - i * |md.iv|
    {
      var block := Digest(md, input + BigEndian(i, 4));
      MaskBlock(md, input, i);
      MaskConcat(md, input, 0, i * |md.iv|, |md.iv|);
      out := out + block;
      assert (i + 1) * |md.iv| == i * |md.iv| + |md.iv|;
      i := i + 1;
    }
    assert outlen - i * |md.iv| < |md.iv|;
    if outlen > i * |md.iv| {
      var block := Digest(md, input + BigEndian(i, 4));
      var rest := outlen - i * |md.iv|;
      MaskBlock(md, input, i);
      MaskPrefix(md, input, i * |md.iv|, |md.iv|, rest);
      MaskConcat(md, input, 0, i * |md.iv|, rest);
      out := out + block[..rest];
    }
  }

  /** mgf1_sha256_state_t: the next block counter and the mask bytes not yet handed out. */
  class MaskState {
    const md: Md
    const n: nat
    const seed: Bytes
    const tmp: array<byte>
    var i: nat
    var usedTmpBytes: nat
    ghost var calls: nat

    ghost predicate Valid()
      reads this, tmp
    {
      && md.Valid() && |md.iv| == 32 && md.countBytes == 8
      && n in {16, 24, 32}
      && tmp.Length == 24
      && n * calls + usedTmpBytes == 32 * i
      && usedTmpBytes <= 24 && usedTmpBytes <= n
      && (n == 32 ==> usedTmpBytes == 0)
      && (n == 16 ==> usedTmpBytes in {0, 16})
      && (n == 24 ==> usedTmpBytes in {0, 8, 16, 24})
      && tmp[..usedTmpBytes] == MaskRange(md, seed, n * calls, usedTmpBytes)
    }

    /** mgf1_sha256_state_init; `seed` is pub_seed followed by the compressed address. */
    constructor (md: Md, n: nat, seed: Bytes)
      requires md.Valid() && |md.iv| == 32 && md.countBytes == 8 && n in {16, 24, 32}
      ensures Valid() && this.md == md && this.n == n && this.seed == seed && calls == 0
      ensures fresh(tmp)
    {
      this.md, this.n, this.seed := md, n, seed;
      tmp := new byte[24](_ => 0);
      i, usedTmpBytes, calls := 0, 0, 0;
    }

    /** mgf1_sha256_update: call number k returns bytes [k*n, (k+1)*n) of the mask. */
    method Update() returns (out: Bytes)
      requires Valid()
      modifies this, tmp
      ensures Valid() && calls == old(calls) + 1
      ensures out == MaskRange(md, seed, n * old(calls), n)
    {
      hide Hash, BigEndian, MaskRange;
      ghost var k := calls;
      calls := calls + 1;
      assert n * calls == n * k + n;
      if n == 32 {
        assert n * k == 32 * i;
        MaskBlock(md, seed, i);
        out := Digest(md, seed + BigEndian(i, 4));
        i := i + 1;
        MaskPrefix(md, seed, n * calls, 0, 0);
      } else if usedTmpBytes == n {
        out := tmp[..n];
        usedTmpBytes := 0;
        MaskPrefix(md, seed, n * calls, 0, 0);
      } else {
        var block := Digest(md, seed + BigEndian(i, 4));
        MaskBlock(md, seed, i);
        MaskConcat(md, seed, n * k, usedTmpBytes, 32);
        var all := tmp[..usedTmpBytes] + block;
        i := i + 1;
        MaskPrefix(md, seed, n * k, usedTmpBytes + 32, n);
        out := all[..n];
        usedTmpBytes := |all| - n;
        Memcpy(tmp, 0, all[n..]);
      }
    }
  }
}
