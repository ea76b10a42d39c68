/** FORS as functions: indices, leaves, signature, and the public key from a signature (fors.c). */
module Fors {
  import opened Arith
  import opened Bits
  import opened Bytes
  import opened Params
  import opened TweakableHash
  import opened Merkle
  import Address

  // ---- Message indices ----

  /** Bit number `k` of a byte string, least significant bit of each byte first. */
  function BitAt(m: Bytes, k: nat): (b: nat)
    requires k < 8 * |m|
    ensures b < 2
  {
    (m[k / 8] as nat) / Pow2(k % 8) % 2
  }

  /** The `count` bits from bit `at` on, the first one least significant. */
  function BitsAt(m: Bytes, at: nat, count: nat): (r: nat)
    requires at + count <= 8 * |m|
    ensures r < Pow2(count)
  {
    if count == 0 then 0 else BitsAt(m, at, count - 1) + BitAt(m, at + count - 1) * Pow2(count - 1)
  }

  /** The leaf index in FORS tree `i`. */
  function Index(p: Params, m: Bytes, i: nat): (r: nat)
    requires |m| == p.ForsMsgBytes() && i < p.forsTrees
    ensures r < Pow2(p.forsHeight)
  {
    IndexInRange(p, i);
    BitsAt(m, i * p.forsHeight, p.forsHeight)
  }

  lemma IndexInRange(p: Params, i: nat)
    requires i < p.forsTrees
    ensures i * p.forsHeight + p.forsHeight <= 8 * p.ForsMsgBytes()
  {
    MulMonotone(i + 1, p.forsTrees, p.forsHeight);
    assert (i + 1) * p.forsHeight == i * p.forsHeight + p.forsHeight;
    assert p.forsHeight * p.forsTrees == p.forsTrees * p.forsHeight;
  }

  // ---- The bits of a byte string are those of a little-endian number ----

  function LittleEndian(m: Bytes): nat {
    if m == [] then 0 else m[0] as nat + 256 * LittleEndian(m[1..])
  }

  lemma {:induction false} ShrSum(high: nat, low: nat, k: nat)
    requires k <= 8
    ensures Shr(256 * high + low, k) == Pow2(8 - k) * high + Shr(low, k)
  {
    if k == 0 {
      assert Pow2(8) == 256;
    } else {
      ShrSum(high, low, k - 1);
      MulAssoc(2, Pow2(8 - k), high);
      assert Pow2(9 - k) == 2 * Pow2(8 - k);
      HalfSum(Pow2(8 - k) * high, Shr(low, k - 1));
    }
  }

  lemma HalfSum(a: nat, b: nat)
    ensures (2 * a + b) / 2 == a + b / 2
  {
  }

  lemma BitIsShr(m: Bytes, k: nat)
    requires k < 8 * |m|
    ensures k / 8 < |m| && BitAt(m, k) == Shr(m[k / 8] as nat, k % 8) % 2
  {
    var x := m[k / 8] as nat;
    ShrDivision(x, k % 8);
    QuotientUnique(x, Pow2(k % 8), Shr(x, k % 8));
  }

  lemma QuotientUnique(x: nat, d: nat, q: nat)
    requires d > 0 && q * d <= x < (q + 1) * d
    ensures x / d == q
  {
    MulStep(q + 1, d);
    ModUnique(x, d, q, x - q * d);
  }

  /** Bit `k` of the byte string is bit `k` of its little-endian number. */
  lemma {:induction false} BitOfNumber(m: Bytes, k: nat)
    requires k < 8 * |m|
    ensures BitAt(m, k) == Shr(LittleEndian(m), k) % 2
  {
    hide BitAt, Pow2, Shr;
    if k < 8 {
      FirstByteBit(m, k);
    } else {
      BitOfNumber(m[1..], k - 8);
      LaterByteBit(m, k);
    }
  }

  lemma FirstByteBit(m: Bytes, k: nat)
    requires k < 8 && m != []
    ensures BitAt(m, k) == Shr(LittleEndian(m), k) % 2
  {
    hide BitAt, Pow2, Shr;
    var low, high := m[0] as nat, LittleEndian(m[1..]);
    BitIsShr(m, k);
    ModUnique(k, 8, 0, k);
    ShrSum(high, low, k);
    EvenPower(8 - k, high);
    EvenSum(Pow2(8 - k) * high, Shr(low, k));
  }

  lemma EvenSum(a: nat, b: nat)
    requires a % 2 == 0
    ensures (a + b) % 2 == b % 2
  {
  }

  lemma LaterByteBit(m: Bytes, k: nat)
    requires 8 <= k < 8 * |m|
    ensures BitAt(m, k) == BitAt(m[1..], k - 8)
    ensures Shr(LittleEndian(m), k) == Shr(LittleEndian(m[1..]), k - 8)
  {
    hide BitAt, Pow2, Shr;
    BitIsShr(m, k);
    BitIsShr(m[1..], k - 8);
    QuotientBound(k - 8, 8);
    ModUnique(k, 8, (k - 8) / 8 + 1, (k - 8) % 8);
    assert m[1..][(k - 8) / 8] == m[k / 8];
    ByteShiftedOut(LittleEndian(m[1..]), m[0] as nat);
    ShrShr(LittleEndian(m), 8, k - 8);
  }

  lemma EvenPower(k: nat, x: nat)
    requires k > 0
    ensures Pow2(k) * x % 2 == 0
  {
    MulAssoc(2, Pow2(k - 1), x);
  }

  lemma ByteShiftedOut(high: nat, low: nat)
    requires low < 256
    ensures Shr(256 * high + low, 8) == high
  {
    ShrSum(high, low, 8);
    assert Pow2(8) == 256 && Pow2(0) == 1;
    ShrBound(low, 8, 8);
  }

  /** The `count` bits from bit `at` on are the number divided by 2^at, modulo 2^count. */
  lemma {:induction false} BitsOfNumber(m: Bytes, at: nat, count: nat)
    requires at + count <= 8 * |m|
    ensures BitsAt(m, at, count) == LittleEndian(m) / Pow2(at) % Pow2(count)
  {
    hide BitAt, Pow2, LittleEndian;
    var number := LittleEndian(m);
    ShrDivision(number, at);
    QuotientUnique(number, Pow2(at), Shr(number, at));
    LowBitsOfNumber(m, at, count);
    ModUnique(Shr(number, at), Pow2(count), Shr(Shr(number, at), count), LowBits(Shr(number, at), count));
  }

  lemma {:induction false} LowBitsOfNumber(m: Bytes, at: nat, count: nat)
    requires at + count <= 8 * |m|
    ensures BitsAt(m, at, count) == LowBits(Shr(LittleEndian(m), at), count)
  {
    hide BitAt, LittleEndian;
    var x := Shr(LittleEndian(m), at);
    if count == 0 {
      assert LowBits(x, 0) < Pow2(0) == 1;
    } else {
      LowBitsOfNumber(m, at, count - 1);
      BitOfNumber(m, at + count - 1);
      ShrShr(LittleEndian(m), at, count - 1);
      OneBitMore(x, count - 1);
    }
  }

  lemma OneBitMore(x: nat, k: nat)
    ensures LowBits(x, k + 1) == LowBits(x, k) + Shr(x, k) % 2 * Pow2(k)
  {
    var q := Shr(x, k);
    Halves(q);
    assert Shr(x, k + 1) == q / 2 && Pow2(k + 1) == 2 * Pow2(k);
    Spread(q / 2, q % 2, Pow2(k));
  }

  lemma Spread(a: nat, b: nat, p: nat)
    ensures (2 * a + b) * p == a * (2 * p) + b * p
  {
  }

  /** Index `i` of message_to_indices: the number of the message hash divided by 2^(i * a), modulo 2^a. */
  lemma IndexOfNumber(p: Params, m: Bytes, i: nat)
    requires |m| == p.ForsMsgBytes() && i < p.forsTrees
    ensures Index(p, m, i) == LittleEndian(m) / Pow2(i * p.forsHeight) % Pow2(p.forsHeight)
  {
    hide BitsAt, Pow2, LittleEndian;
    IndexInRange(p, i);
    IndexMeans(p, m, i, i * p.forsHeight);
    BitsOfNumber(m, i * p.forsHeight, p.forsHeight);
  }

  /** message_to_indices */
  method MessageToIndices(p: Params, m: Bytes) returns (indices: seq<nat>)
    requires p.Valid() && |m| == p.ForsMsgBytes()
    ensures |indices| == p.forsTrees && forall i :: 0 <= i < |indices| ==> indices[i] == Index(p, m, i)
    ensures forall i :: 0 <= i < |indices| ==>
              indices[i] == LittleEndian(m) / Pow2(i * p.forsHeight) % Pow2(p.forsHeight)
  {
    hide Index, BitsAt, Pow2, LittleEndian;
    indices := [];
    var offset := 0;
    for i := 0 to p.forsTrees
      invariant offset == i * p.forsHeight
      invariant |indices| == i && forall t :: 0 <= t < i ==> indices[t] == Index(p, m, t)
      invariant forall t :: 0 <= t < i ==> indices[t] == LittleEndian(m) / Pow2(t * p.forsHeight) % Pow2(p.forsHeight)
    {
      IndexOfNumber(p, m, i);
      IndexInRange(p, i);
      MulStep(i + 1, p.forsHeight);
      var index := ReadIndex(m, offset, p.forsHeight);
      IndexMeans(p, m, i, offset);
      indices := indices + [index];
      offset := offset + p.forsHeight;
    }
  }

  lemma IndexMeans(p: Params, m: Bytes, i: nat, at: nat)
    requires |m| == p.ForsMsgBytes() && i < p.forsTrees && at == i * p.forsHeight
    ensures at + p.forsHeight <= 8 * |m| && Index(p, m, i) == BitsAt(m, at, p.forsHeight)
  {
    hide BitsAt, Pow2;
    IndexInRange(p, i);
  }

  /** `(m[k >> 3] >> (k & 0x7)) & 0x1` */
  lemma BitRead(m: Bytes, k: nat)
    requires k < 8 * |m|
    ensures k / 8 < |m| && BitAnd(Shr(m[k / 8] as nat, k % 8), 1) == BitAt(m, k)
  {
    hide BitAnd, BitAt, Shr;
    BitIsShr(m, k);
    AndMask(Shr(m[k / 8] as nat, k % 8), 1);
    assert Pow2(1) == 2 * Pow2(0);
  }

  /** The inner loop: `indices[i] ^= ((m[offset >> 3] >> (offset & 0x7)) & 0x1) << j` */
  method ReadIndex(m: Bytes, at: nat, count: nat) returns (index: nat)
    requires at + count <= 8 * |m|
    ensures index == BitsAt(m, at, count)
  {
    hide BitAt, Pow2, BitXor, BitAnd, Shr;
    index := 0;
    for j := 0 to count
      invariant index == BitsAt(m, at, j)
    {
      var offset := at + j;
      BitRead(m, offset);
      var bit := BitAnd(Shr(m[offset / 8] as nat, offset % 8), 1);
      DisjointSum(index, bit, j);
      index := BitXor(index, bit * Pow2(j));
    }
  }

  // ---- Trees ----

  /** The secret value under leaf `i`, numbered across all trees; `kp` has the key pair and type FORSTREE. */
  function SecretValue(c: Ctx, skSeed: Bytes, kp: Address.Adrs, i: nat): (r: Bytes)
    requires c.Valid()
    ensures |r| == c.sc.p.n
  {
    Prf(c, skSeed, kp.WithNode(0, i))
  }

  function LeafOf(c: Ctx, kp: Address.Adrs, i: nat, secret: Bytes): (r: Bytes)
    requires c.Valid()
    ensures |r| == c.sc.p.n
  {
    TweakHash(c, kp.WithNode(0, i), secret)
  }

  function ForsTree(c: Ctx, skSeed: Bytes, kp: Address.Adrs): (t: Tree)
    requires c.Valid()
    ensures t.Valid()
  {
    Tree(c, kp, (i: nat) => LeafOf(c, kp, i, SecretValue(c, skSeed, kp, i)))
  }

  function LeafOffset(p: Params, i: nat): nat { i * Pow2(p.forsHeight) }

  function Root(c: Ctx, skSeed: Bytes, kp: Address.Adrs, i: nat): (r: Bytes)
    requires c.Valid()
    ensures |r| == c.sc.p.n
  {
    Node(ForsTree(c, skSeed, kp), c.sc.p.forsHeight, i)
  }

  function Roots(c: Ctx, skSeed: Bytes, kp: Address.Adrs, count: nat): (r: Bytes)
    requires c.Valid()
    ensures |r| == count * c.sc.p.n
  {
    if count == 0 then []
    else
      MulStep(count, c.sc.p.n);
      Roots(c, skSeed, kp, count - 1) + Root(c, skSeed, kp, count - 1)
  }

  /** Addresses of the key pair `adr`: the trees and the public key. */
  function TreeAdrs(c: Ctx, adr: Address.Adrs): Address.Adrs {
    Address.ZERO_ADRS.WithKeypairOf(c.sc.p.WideKeypair(), adr).(typ := Address.TYPE_FORSTREE)
  }

  function PkAdrs(c: Ctx, adr: Address.Adrs): Address.Adrs {
    Address.ZERO_ADRS.WithKeypairOf(c.sc.p.WideKeypair(), adr).(typ := Address.TYPE_FORSPK)
  }

  function PublicKey(c: Ctx, skSeed: Bytes, adr: Address.Adrs): (r: Bytes)
    requires c.Valid()
    ensures |r| == c.sc.p.n
  {
    TweakHash(c, PkAdrs(c, adr), Roots(c, skSeed, TreeAdrs(c, adr), c.sc.p.forsTrees))
  }

  // ---- Signature ----

  /** Length of one tree's part of the signature: secret value and authentication path. */
  function PartBytes(p: Params): nat { (p.forsHeight + 1) * p.n }

  function Part(c: Ctx, skSeed: Bytes, kp: Address.Adrs, m: Bytes, i: nat): (r: Bytes)
    requires c.Valid() && |m| == c.sc.p.ForsMsgBytes() && i < c.sc.p.forsTrees
    ensures |r| == PartBytes(c.sc.p)
  {
    var off, idx := LeafOffset(c.sc.p, i), Index(c.sc.p, m, i);
    MulStep(c.sc.p.forsHeight + 1, c.sc.p.n);
    SecretValue(c, skSeed, kp, off + idx) + AuthPath(ForsTree(c, skSeed, kp), idx, off, c.sc.p.forsHeight)
  }

  function Parts(c: Ctx, skSeed: Bytes, kp: Address.Adrs, m: Bytes, count: nat): (r: Bytes)
    requires c.Valid() && |m| == c.sc.p.ForsMsgBytes() && count <= c.sc.p.forsTrees
    ensures |r| == count * PartBytes(c.sc.p)
  {
    if count == 0 then []
    else
      MulStep(count, PartBytes(c.sc.p));
      Parts(c, skSeed, kp, m, count - 1) + Part(c, skSeed, kp, m, count - 1)
  }

  function Signature(c: Ctx, skSeed: Bytes, adr: Address.Adrs, m: Bytes): (r: Bytes)
    requires c.Valid() && |m| == c.sc.p.ForsMsgBytes()
    ensures |r| == c.sc.p.ForsBytes()
  {
    PartsLength(c.sc.p);
    Parts(c, skSeed, TreeAdrs(c, adr), m, c.sc.p.forsTrees)
  }

  lemma PartsLength(p: Params)
    ensures p.forsTrees * PartBytes(p) == p.ForsBytes()
  {
    var a, k, n := p.forsHeight + 1, p.forsTrees, p.n;
    assert k * (a * n) == (a * k) * n by {
      MulAssoc(k, a, n);
      assert k * a == a * k;
    }
  }

  // ---- Verification ----

  /** The root of tree `i` from one part of a claimed signature. */
  function RootFromPart(c: Ctx, kp: Address.Adrs, part: Bytes, m: Bytes, i: nat): (r: Bytes)
    requires c.Valid() && |m| == c.sc.p.ForsMsgBytes() && i < c.sc.p.forsTrees && |part| == PartBytes(c.sc.p)
    ensures |r| == c.sc.p.n
  {
    var n, off, idx := c.sc.p.n, LeafOffset(c.sc.p, i), Index(c.sc.p, m, i);
    MulStep(c.sc.p.forsHeight + 1, n);
    Climb(c, kp, LeafOf(c, kp, off + idx, part[..n]), idx, off, part[n..], c.sc.p.forsHeight)
  }

  function RootsFromSig(c: Ctx, kp: Address.Adrs, sig: Bytes, m: Bytes, count: nat): (r: Bytes)
    requires c.Valid() && |m| == c.sc.p.ForsMsgBytes() && count <= c.sc.p.forsTrees
    requires count * PartBytes(c.sc.p) <= |sig|
  {
    if count == 0 then []
    else
      MulStep(count, PartBytes(c.sc.p));
      RootsFromSig(c, kp, sig, m, count - 1)
      + RootFromPart(c, kp, Chunk(sig, PartBytes(c.sc.p), count - 1), m, count - 1)
  }

  function PkFromSig(c: Ctx, adr: Address.Adrs, sig: Bytes, m: Bytes): (r: Bytes)
    requires c.Valid() && |m| == c.sc.p.ForsMsgBytes() && |sig| == c.sc.p.ForsBytes()
    ensures |r| == c.sc.p.n
  {
    PartsLength(c.sc.p);
    TweakHash(c, PkAdrs(c, adr), RootsFromSig(c, TreeAdrs(c, adr), sig, m, c.sc.p.forsTrees))
  }

  /** Each part of an honest signature leads back to its tree's root. */
  lemma RootOfPart(c: Ctx, skSeed: Bytes, kp: Address.Adrs, m: Bytes, i: nat)
    requires c.Valid() && |m| == c.sc.p.ForsMsgBytes() && i < c.sc.p.forsTrees
    ensures RootFromPart(c, kp, Part(c, skSeed, kp, m, i), m, i) == Root(c, skSeed, kp, i)
  {
    hide Climb, AuthPath, Node, LeafOf, SecretValue, Index;
    var n, off, idx := c.sc.p.n, LeafOffset(c.sc.p, i), Index(c.sc.p, m, i);
    var t := ForsTree(c, skSeed, kp);
    var part := Part(c, skSeed, kp, m, i);
    assert part[..n] == SecretValue(c, skSeed, kp, off + idx);
    assert part[n..] == AuthPath(t, idx, off, c.sc.p.forsHeight);
    OffsetAligned(c.sc.p, i);
    assert t.leaf(off + idx) == LeafOf(c, kp, off + idx, part[..n]);
    RootFromAuthPath(t, idx, off, c.sc.p.forsHeight);
  }

  lemma OffsetAligned(p: Params, i: nat)
    ensures Aligned(LeafOffset(p, i), p.forsHeight) && Shr(LeafOffset(p, i), p.forsHeight) == i
  {
    AlignedMultiple(i, p.forsHeight);
    ShrAligned(i, 0, p.forsHeight);
    ShrZero(p.forsHeight);
  }

  lemma {:induction false} ChunkOfParts(c: Ctx, skSeed: Bytes, kp: Address.Adrs, m: Bytes, count: nat, i: nat)
    requires c.Valid() && |m| == c.sc.p.ForsMsgBytes() && i < count <= c.sc.p.forsTrees
    ensures (i + 1) * PartBytes(c.sc.p) <= count * PartBytes(c.sc.p)
    ensures Chunk(Parts(c, skSeed, kp, m, count), PartBytes(c.sc.p), i) == Part(c, skSeed, kp, m, i)
  {
    hide Part, Chunk, PartBytes;
    var size := PartBytes(c.sc.p);
    MulMonotone(i + 1, count, size);
    var shorter, last := Parts(c, skSeed, kp, m, count - 1), Part(c, skSeed, kp, m, count - 1);
    if i < count - 1 {
      ChunkOfParts(c, skSeed, kp, m, count - 1, i);
      ChunkPrefix(shorter, last, size, i);
    } else {
      ChunkSuffix(shorter, last, size, i);
      assert last[..size] == last;
    }
  }

  lemma {:induction false} RootsOfSignature(c: Ctx, skSeed: Bytes, kp: Address.Adrs, m: Bytes, count: nat)
    requires c.Valid() && |m| == c.sc.p.ForsMsgBytes() && count <= c.sc.p.forsTrees
    requires count * PartBytes(c.sc.p) <= c.sc.p.forsTrees * PartBytes(c.sc.p)
    ensures RootsFromSig(c, kp, Parts(c, skSeed, kp, m, c.sc.p.forsTrees), m, count) == Roots(c, skSeed, kp, count)
  {
    hide RootFromPart, Part, Root, Chunk, PartBytes, Parts;
    if count > 0 {
      MulMonotone(count - 1, c.sc.p.forsTrees, PartBytes(c.sc.p));
      RootsOfSignature(c, skSeed, kp, m, count - 1);
      ChunkOfParts(c, skSeed, kp, m, c.sc.p.forsTrees, count - 1);
      RootOfPart(c, skSeed, kp, m, count - 1);
    }
  }

  /** The public key computed from an honest FORS signature is the key pair's public key, whatever the message. */
  lemma PkOfSignature(c: Ctx, skSeed: Bytes, adr: Address.Adrs, m: Bytes)
    requires c.Valid() && |m| == c.sc.p.ForsMsgBytes()
    ensures PkFromSig(c, adr, Signature(c, skSeed, adr, m), m) == PublicKey(c, skSeed, adr)
  {
    hide RootsFromSig, Roots, Parts, PartBytes, TweakHash;
    PartsLength(c.sc.p);
    RootsOfSignature(c, skSeed, TreeAdrs(c, adr), m, c.sc.p.forsTrees);
  }
}
