/** Byte strings, the C truncating cast, big-endian conversion (utils.c) and memcpy. */
module Bytes {
  import opened Arith
  import opened Bits

  type byte = bv8
  type Bytes = seq<byte>

  /** The C cast `(unsigned char)x`. */
  function ByteOf(x: nat): byte {
    var low := x % 256;
    low as byte
  }

  lemma ByteOfRange(x: nat)
    requires x < 256
    ensures ByteOf(x) as nat == x
  {
    assert x % 256 == x;
    CastRoundTrip(x);
  }

  /** A number below 256 survives the conversion to a byte. */
  lemma CastRoundTrip(x: nat)
    requires x < 256
    ensures (x as byte) as nat == x
  {
    var b := ByteWith(x);
    CastBack(b);
    assert x as byte == b;
  }

  lemma CastBack(b: byte)
    ensures (b as nat) as byte == b
  {
  }

  lemma {:induction false} ByteWith(x: nat) returns (b: byte)
    requires x < 256
    ensures b as nat == x
  {
    if x == 0 {
      b := 0;
    } else {
      b := ByteWith(x - 1);
      NextByte(b);
      b := b + 1;
    }
  }

  lemma NextByte(b: byte)
    ensures b as nat < 255 ==> b < 255 && (b + 1) as nat == b as nat + 1
  {
  }

  lemma ByteOfValue(x: nat)
    ensures ByteOf(x) as nat == x % 256
  {
    var low := x % 256;
    CastRoundTrip(low);
  }

  lemma ByteOfByte(b: byte)
    ensures ByteOf(b as nat) == b
  {
    var n := b as nat;
    assert n % 256 == n;
  }

  function Zeros(n: nat): (r: Bytes)
    ensures |r| == n
  {
    seq(n, _ => 0)
  }

  /** Exclusive or of two bytes, named so that proofs about byte strings can treat it as a symbol. */
  function XorByte(a: byte, b: byte): byte {
    a ^ b
  }

  lemma XorByteZero(a: byte)
    ensures XorByte(a, 0) == a
  {
  }

  function Xor(a: Bytes, b: Bytes): (r: Bytes)
    requires |a| == |b|
    ensures |r| == |a|
  {
    seq(|a|, i requires 0 <= i < |a| => XorByte(a[i], b[i]))
  }

  lemma XorConcat(a: Bytes, b: Bytes, c: Bytes, d: Bytes)
    requires |a| == |c| && |b| == |d|
    ensures Xor(a + b, c + d) == Xor(a, c) + Xor(b, d)
  {
    hide XorByte;
  }

  /** The N-byte element number `k` of a concatenation: `p + k * N`. */
  function Chunk(p: Bytes, n: nat, k: nat): (r: Bytes)
    requires (k + 1) * n <= |p|
    ensures |r| == n
  {
    assert (k + 1) * n == k * n + n;
    p[k * n..k * n + n]
  }

  lemma ChunkPrefix(a: Bytes, b: Bytes, n: nat, k: nat)
    requires (k + 1) * n <= |a|
    ensures Chunk(a + b, n, k) == Chunk(a, n, k)
  {
    assert (k + 1) * n == k * n + n;
  }

  lemma ChunkSuffix(a: Bytes, b: Bytes, n: nat, k: nat)
    requires |a| == k * n && |b| >= n
    ensures (k + 1) * n <= |a + b| && Chunk(a + b, n, k) == b[..n]
  {
    assert (k + 1) * n == k * n + n;
  }

  /** The bytes of consecutive memory slots. */
  function Flatten(slots: seq<Bytes>): Bytes {
    if slots == [] then [] else Flatten(slots[..|slots| - 1]) + slots[|slots| - 1]
  }

  lemma ChunkOfFront(p: Bytes, n: nat, k: nat, len: nat)
    requires (k + 1) * n <= len <= |p|
    ensures Chunk(p[..len], n, k) == Chunk(p, n, k)
  {
    assert (k + 1) * n == k * n + n;
  }

  function Pow256(n: nat): (r: nat)
    ensures r > 0
  {
    if n == 0 then 1 else 256 * Pow256(n - 1)
  }

  /** `outlen` low bytes of `x`, most significant first. */
  function BigEndian(x: nat, len: nat): (r: Bytes)
    ensures |r| == len
  {
    if len == 0 then [] else BigEndian(x / 256, len - 1) + [ByteOf(x)]
  }

  function FromBigEndian(s: Bytes): nat {
    if s == [] then 0 else 256 * FromBigEndian(s[..|s| - 1]) + s[|s| - 1] as nat
  }

  lemma {:induction false} FromBigEndianBound(s: Bytes)
    ensures FromBigEndian(s) < Pow256(|s|)
  {
    if s != [] {
      FromBigEndianBound(s[..|s| - 1]);
    }
  }

  /** Reading back what was written gives the value reduced to the field's width. */
  lemma {:induction false} BigEndianRoundTrip(x: nat, len: nat)
    ensures FromBigEndian(BigEndian(x, len)) == x % Pow256(len)
  {
    if len > 0 {
      BigEndianRoundTrip(x / 256, len - 1);
      var s := BigEndian(x, len);
      assert s[..len - 1] == BigEndian(x / 256, len - 1);
      ByteOfValue(x);
      ModSplit(x, Pow256(len - 1));
    }
  }

  /** Byte `i` of a big-endian field. */
  lemma {:induction false} BigEndianAt(x: nat, len: nat, i: nat)
    requires i < len
    ensures BigEndian(x, len)[i] as nat == x / Pow256(len - 1 - i) % 256
    decreases len
  {
    if i == len - 1 {
      ByteOfValue(x);
      assert Pow256(0) == 1;
    } else {
      BigEndianAt(x / 256, len - 1, i);
      DivideTwice(x, Pow256(len - 2 - i));
    }
  }

  lemma DivideTwice(x: nat, p: nat)
    requires p > 0
    ensures x / 256 / p == x / (256 * p)
  {
    var q := x / 256 / p;
    var r := x / 256 % p;
    assert x / 256 == q * p + r;
    assert 256 * (q * p) == q * (256 * p) by {
      MulAssoc(256, q, p);
      MulAssoc(q, 256, p);
    }
    ModUnique(x, 256 * p, q, 256 * r + x % 256);
  }

  lemma ModSplit(x: nat, p: nat)
    requires p > 0
    ensures x % (256 * p) == 256 * ((x / 256) % p) + x % 256
  {
    var q, r := (x / 256) / p, (x / 256) % p;
    assert x / 256 == q * p + r;
    assert x == 256 * (q * p + r) + x % 256;
    var low := 256 * r + x % 256;
    assert low < 256 * p by {
      assert r <= p - 1;
    }
    assert x == q * (256 * p) + low by {
      assert 256 * (q * p) == q * (256 * p);
    }
    ModUnique(x, 256 * p, q, low);
  }

  /** Numbers that agree modulo the field width are written alike. */
  lemma {:induction false} BigEndianMod(x: nat, len: nat, m: nat)
    requires len <= m
    ensures BigEndian(x % Pow256(m), len) == BigEndian(x, len)
  {
    if len > 0 {
      ModSplit(x, Pow256(m - 1));
      var y := x % Pow256(m);
      assert y == 256 * ((x / 256) % Pow256(m - 1)) + x % 256;
      assert y / 256 == (x / 256) % Pow256(m - 1) && y % 256 == x % 256;
      BigEndianMod(x / 256, len - 1, m - 1);
    }
  }

  /** A value that fits the low bytes leaves the high bytes zero. */
  lemma {:induction false} BigEndianZeroExtend(x: nat, len: nat, k: nat)
    requires x < Pow256(len)
    ensures BigEndian(x, k + len) == Zeros(k) + BigEndian(x, len)
  {
    if len > 0 {
      assert x / 256 < Pow256(len - 1);
      BigEndianZeroExtend(x / 256, len - 1, k);
    } else if k > 0 {
      BigEndianZeroExtend(x, 0, k - 1);
      assert ByteOf(0) == 0;
      assert BigEndian(x, k) == Zeros(k);
    }
  }

  /** `memcpy(dst + off, src, |src|)`. */
  method Memcpy(dst: array<byte>, off: nat, src: Bytes)
    requires off + |src| <= dst.Length
    modifies dst
    ensures dst[off..off + |src|] == src
    ensures dst[..off] == old(dst[..off]) && dst[off + |src|..] == old(dst[off + |src|..])
  {
    for i := 0 to |src|
      invariant dst[off..off + i] == src[..i]
      invariant dst[..off] == old(dst[..off]) && dst[off + |src|..] == old(dst[off + |src|..])
    {
      dst[off + i] := src[i];
    }
  }

  /** Memory holding `count` N-byte slots, such as the signature or the authentication path: `buf + k * N`. */
  class SlotBuffer {
    var slots: seq<Bytes>

    constructor (count: nat)
      ensures |slots| == count
    {
      slots := seq(count, _ => []);
    }

    /** `memcpy(buf + k * N, x, N)` */
    method Put(k: nat, x: Bytes)
      requires k < |slots|
      modifies this
      ensures slots == old(slots)[k := x]
    {
      slots := slots[k := x];
    }
  }

  /** ull_to_bytes: fills the field from its last byte down, shifting the value right. */
  method UllToBytes(out: array<byte>, off: nat, len: nat, x: nat)
    requires off + len <= out.Length
    modifies out
    ensures out[off..off + len] == BigEndian(x, len)
    ensures out[..off] == old(out[..off]) && out[off + len..] == old(out[off + len..])
  {
    var i, rest := len, x;
    while i > 0
      invariant 0 <= i <= len
      invariant BigEndian(rest, i) + out[off + i..off + len] == BigEndian(x, len)
      invariant out[..off] == old(out[..off]) && out[off + len..] == old(out[off + len..])
    {
      i := i - 1;
      ghost var tail := out[off + i + 1..off + len];
      out[off + i] := ByteOf(rest);
      assert out[off + i..off + len] == [ByteOf(rest)] + tail;
      assert BigEndian(rest, i + 1) + tail == BigEndian(rest / 256, i) + ([ByteOf(rest)] + tail);
      rest := rest / 256;
    }
  }

  /** bytes_to_ull: `retval |= ((unsigned long long)in[i]) << (8 * (inlen - 1 - i))` */
  method BytesToUll(s: Bytes) returns (value: nat)
    requires |s| <= 8 // the accumulator is 64 bits wide
    ensures value == FromBigEndian(s) && value < Pow256(|s|)
  {
    hide FromBigEndian, Pow256, BitOr;
    value := 0;
    FromBigEndianStart(s);
    for i := 0 to |s|
      invariant value == FromBigEndian(s[..i]) * Pow256(|s| - i)
    {
      FromBigEndianStep(s, i, value);
      OrIsSum(FromBigEndian(s[..i]), s[i] as nat, |s| - i);
      value := BitOr(value, (s[i] as nat) * Pow256(|s| - 1 - i));
    }
    assert s[..|s|] == s;
    FromBigEndianEnd(s, value);
  }

  lemma {:induction false} Pow256IsPow2(n: nat)
    ensures Pow256(n) == Pow2(8 * n)
  {
    if n > 0 {
      Pow256IsPow2(n - 1);
      Pow2Add(8, 8 * (n - 1));
      assert Pow2(8) == 256;
    }
  }

  /** A byte below the bytes read so far: the two share no bit. */
  lemma OrIsSum(high: nat, b: nat, n: nat)
    requires n > 0 && b < 256
    ensures BitOr(high * Pow256(n), b * Pow256(n - 1)) == high * Pow256(n) + b * Pow256(n - 1)
  {
    hide BitOr, Pow2;
    var low, unit := b * Pow256(n - 1), Pow256(n - 1);
    assert Pow256(n) == 256 * unit;
    MulMonotone(b + 1, 256, unit);
    MulStep(b + 1, unit);
    assert Pow256(n) == Pow2(8 * n) && low < Pow256(n) by { Pow256IsPow2(n); }
    DisjointSum(low, high, 8 * n);
    OrCommutes(high * Pow256(n), low);
  }

  lemma FromBigEndianStart(s: Bytes)
    ensures 0 == FromBigEndian(s[..0]) * Pow256(|s|)
  {
    assert FromBigEndian([]) == 0;
    assert s[..0] == [];
  }

  lemma FromBigEndianStep(s: Bytes, i: nat, value: nat)
    requires i < |s| && value == FromBigEndian(s[..i]) * Pow256(|s| - i)
    ensures value + (s[i] as nat) * Pow256(|s| - 1 - i) == FromBigEndian(s[..i + 1]) * Pow256(|s| - (i + 1))
  {
    assert s[..i + 1][..i] == s[..i];
    Distribute(FromBigEndian(s[..i]), s[i] as nat, Pow256(|s| - 1 - i));
  }

  lemma FromBigEndianEnd(s: Bytes, value: nat)
    requires value == FromBigEndian(s) * Pow256(0)
    ensures value == FromBigEndian(s) && value < Pow256(|s|)
  {
    FromBigEndianBound(s);
  }

  lemma Distribute(a: nat, b: nat, p: nat)
    ensures a * (256 * p) + b * p == (256 * a + b) * p
  {
  }
}
