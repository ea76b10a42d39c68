/** Base-w digits and the checksum of WOTS+ (base_w, wots_checksum, chain_lengths of wots.c). */
module WotsDigits {
  import opened Arith
  import opened Bits
  import opened Bytes
  import opened Params

  // ---- Specification ----

  predicate IsBase(w: nat) { w == 16 || w == 256 }

  /** `x >> log2(w)` and `x & (w - 1)`, by cases so that the solver divides by constants. */
  function Quot(x: nat, w: nat): nat
    requires IsBase(w)
  {
    if w == 256 then x / 256 else x / 16
  }

  function Rem(x: nat, w: nat): (r: nat)
    requires IsBase(w)
    ensures r < w && x == w * Quot(x, w) + r
  {
    if w == 256 then x % 256 else x % 16
  }

  /** Digit `i` of a byte string in base w, most significant first; w is 16 or 256. */
  function Digit(w: nat, input: Bytes, i: nat): (d: nat)
    requires IsBase(w) && (if w == 256 then i else i / 2) < |input|
    ensures d < w
  {
    if w == 256 then input[i] as nat
    else if i % 2 == 0 then input[i / 2] as nat / 16
    else input[i / 2] as nat % 16
  }

  /** The `len` low base-w digits of `x`, most significant first. */
  function Numeral(x: nat, w: nat, len: nat): (r: seq<nat>)
    requires IsBase(w)
    ensures |r| == len
    decreases len
  {
    if len == 0 then [] else Numeral(Quot(x, w), w, len - 1) + [Rem(x, w)]
  }

  function MessageDigits(p: Params, msg: Bytes): (r: seq<nat>)
    requires p.Valid() && |msg| == p.n
    ensures |r| == p.Len1() && forall i :: 0 <= i < |r| ==> r[i] < p.w
  {
    seq(p.Len1(), i requires 0 <= i < p.Len1() => Digit(p.w, msg, i))
  }

  function Checksum(w: nat, digits: seq<nat>): (s: nat)
    requires forall i :: 0 <= i < |digits| ==> digits[i] < w
    ensures s <= |digits| * w
  {
    if digits == [] then 0
    else
      var n := |digits| - 1;
      assert |digits| * w == n * w + w;
      Checksum(w, digits[..n]) + (w - 1 - digits[n])
  }

  /** The number of steps of each chain: the digits of the message, then those of its checksum. */
  function ChainLengths(p: Params, msg: Bytes): (r: seq<nat>)
    requires p.Valid() && |msg| == p.n
    ensures |r| == p.Len() && forall i :: 0 <= i < |r| ==> r[i] < p.w
  {
    NumeralBound(Checksum(p.w, MessageDigits(p, msg)), p.w, p.Len2());
    MessageDigits(p, msg) + Numeral(Checksum(p.w, MessageDigits(p, msg)), p.w, p.Len2())
  }

  lemma {:induction false} NumeralBound(x: nat, w: nat, len: nat)
    requires IsBase(w)
    ensures forall i :: 0 <= i < len ==> Numeral(x, w, len)[i] < w
    decreases len
  {
    if len > 0 {
      NumeralBound(Quot(x, w), w, len - 1);
    }
  }

  // ---- The checksum covers every message ----

  function Value(w: nat, digits: seq<nat>): nat {
    if digits == [] then 0 else Value(w, digits[..|digits| - 1]) * w + digits[|digits| - 1]
  }

  function Power(w: nat, k: nat): nat
    requires IsBase(w)
  {
    if k == 0 then 1 else if w == 256 then 256 * Power(w, k - 1) else 16 * Power(w, k - 1)
  }

  lemma {:induction false} NumeralValue(x: nat, w: nat, len: nat)
    requires IsBase(w) && x < Power(w, len)
    ensures Value(w, Numeral(x, w, len)) == x
    decreases len
  {
    if len > 0 {
      var q, r := Quot(x, w), Rem(x, w);
      assert q < Power(w, len - 1);
      NumeralValue(q, w, len - 1);
      assert Numeral(x, w, len)[..len - 1] == Numeral(q, w, len - 1);
    }
  }

  function Sum(digits: seq<nat>): nat {
    if digits == [] then 0 else Sum(digits[..|digits| - 1]) + digits[|digits| - 1]
  }

  /** The checksum is what is missing from the digits to all w - 1. */
  lemma {:induction false} ChecksumIsRest(w: nat, digits: seq<nat>)
    requires forall i :: 0 <= i < |digits| ==> digits[i] < w
    ensures Checksum(w, digits) + Sum(digits) == |digits| * (w - 1)
  {
    if digits != [] {
      var n := |digits| - 1;
      ChecksumIsRest(w, digits[..n]);
      assert digits[n] < w;
      MulStep(n + 1, w - 1);
    }
  }

  /** It is zero exactly for the largest message. */
  lemma {:induction false} ChecksumIsZero(w: nat, digits: seq<nat>)
    requires forall i :: 0 <= i < |digits| ==> digits[i] < w
    ensures Checksum(w, digits) == 0 <==> forall i :: 0 <= i < |digits| ==> digits[i] == w - 1
  {
    if digits != [] {
      var n := |digits| - 1;
      ChecksumIsZero(w, digits[..n]);
      assert forall i :: 0 <= i < n ==> digits[..n][i] == digits[i];
      if Checksum(w, digits) == 0 {
        forall i | 0 <= i < |digits|
          ensures digits[i] == w - 1
        {
          if i < n {
            assert digits[..n][i] == w - 1;
          }
        }
      }
    }
  }

  /** Digits that are nowhere smaller give a number that is not smaller. */
  lemma {:induction false} ValueMonotone(w: nat, a: seq<nat>, b: seq<nat>)
    requires |a| == |b| && forall i :: 0 <= i < |a| ==> b[i] <= a[i]
    ensures Value(w, b) <= Value(w, a)
  {
    if a != [] {
      var n := |a| - 1;
      ValueMonotone(w, a[..n], b[..n]);
      MulMonotone(Value(w, b[..n]), Value(w, a[..n]), w);
    }
  }

  /** Digits that are nowhere smaller, and somewhere larger, give a smaller checksum. */
  lemma {:induction false} ChecksumAntitone(w: nat, a: seq<nat>, b: seq<nat>)
    requires |a| == |b| && forall i :: 0 <= i < |a| ==> b[i] <= a[i] < w
    ensures Checksum(w, a) <= Checksum(w, b)
    ensures a != b ==> Checksum(w, a) < Checksum(w, b)
  {
    if a != [] {
      var n := |a| - 1;
      ChecksumAntitone(w, a[..n], b[..n]);
      if a[n] == b[n] {
        assert a == a[..n] + [a[n]] && b == b[..n] + [b[n]];
      }
    }
  }

  /** The message digits are the number that the message writes in base 256, written in base w. */
  lemma MessageNumber(p: Params, msg: Bytes)
    requires p.Valid() && |msg| == p.n
    ensures Value(p.w, MessageDigits(p, msg)) == FromBigEndian(msg)
  {
    hide FromBigEndian, Digit;
    PrefixNumber(p, msg, |msg|);
    assert msg[..|msg|] == msg;
    assert MessageDigits(p, msg)[..p.Len1()] == MessageDigits(p, msg);
  }

  /** The same for the first `k` bytes. */
  lemma {:induction false} PrefixNumber(p: Params, msg: Bytes, k: nat)
    requires p.Valid() && |msg| == p.n && k <= |msg|
    ensures |MessageDigits(p, msg)| == if p.w == 256 then p.n else 2 * p.n
    ensures Value(p.w, MessageDigits(p, msg)[..if p.w == 256 then k else 2 * k]) == FromBigEndian(msg[..k])
  {
    hide Digit, Value, FromBigEndian;
    NumberOfNothing(p.w);
    DigitCount(p);
    if k > 0 {
      PrefixNumber(p, msg, k - 1);
      assert msg[..k][..k - 1] == msg[..k - 1];
      DigitsOfNumber(p.w, msg, k - 1);
      NextDigits(p.w, MessageDigits(p, msg), k, msg[k - 1] as nat);
      NextNumber(msg, k);
    }
  }

  lemma NumberOfNothing(w: nat)
    ensures Value(w, []) == 0 == FromBigEndian([])
  {
  }

  lemma NextNumber(msg: Bytes, k: nat)
    requires 0 < k <= |msg|
    ensures FromBigEndian(msg[..k]) == 256 * FromBigEndian(msg[..k - 1]) + msg[k - 1] as nat
  {
    assert msg[..k][..k - 1] == msg[..k - 1];
  }

  lemma DigitCount(p: Params)
    requires p.Valid()
    ensures p.Len1() == if p.w == 256 then p.n else 2 * p.n
  {
  }

  /** One byte more: one digit or two. */
  lemma NextDigits(w: nat, digits: seq<nat>, k: nat, byte: nat)
    requires IsBase(w) && 0 < k && (if w == 256 then k else 2 * k) <= |digits|
    requires w == 256 ==> digits[k - 1] == byte
    requires w == 16 ==> 16 * digits[2 * k - 2] + digits[2 * k - 1] == byte
    ensures Value(w, digits[..if w == 256 then k else 2 * k])
            == 256 * Value(w, digits[..if w == 256 then k - 1 else 2 * (k - 1)]) + byte
  {
    if w == 256 {
      ValueOfNext(w, digits, k - 1);
    } else {
      ValueOfNext(w, digits, 2 * k - 2);
      ValueOfNext(w, digits, 2 * k - 1);
    }
  }

  lemma ValueOfNext(w: nat, digits: seq<nat>, k: nat)
    requires IsBase(w) && k < |digits|
    ensures Value(w, digits[..k + 1]) == Value(w, digits[..k]) * w + digits[k]
  {
    assert digits[..k + 1][..k] == digits[..k];
  }

  lemma EvenDigit(input: Bytes, at: nat)
    requires at < |input|
    ensures 2 * at / 2 == at && Digit(16, input, 2 * at) == input[at] as nat / 16
  {
    ModUnique(2 * at, 2, at, 0);
  }

  lemma OddDigit(input: Bytes, at: nat)
    requires at < |input|
    ensures (2 * at + 1) / 2 == at && Digit(16, input, 2 * at + 1) == input[at] as nat % 16
  {
    ModUnique(2 * at + 1, 2, at, 1);
  }

  lemma DigitsOfNumber(w: nat, msg: Bytes, k: nat)
    requires IsBase(w) && k < |msg|
    ensures w == 256 ==> Digit(w, msg, k) == msg[k] as nat
    ensures w == 16 ==> 2 * k / 2 == (2 * k + 1) / 2 == k
    ensures w == 16 ==> 16 * Digit(w, msg, 2 * k) + Digit(w, msg, 2 * k + 1) == msg[k] as nat
  {
    EvenDigit(msg, k);
    OddDigit(msg, k);
  }

  /** LEN2 digits hold the largest checksum. */
  lemma ChecksumFits(p: Params, msg: Bytes)
    requires p.Valid() && |msg| == p.n
    ensures Checksum(p.w, MessageDigits(p, msg)) < Power(p.w, p.Len2())
    ensures p.Len2() == if p.w == 256 then 2 else 3
  {
    var s := Checksum(p.w, MessageDigits(p, msg));
    if p.w == 256 {
      assert Power(256, 2) == 256 * 256;
    } else {
      assert Power(16, 3) == 16 * 256;
    }
  }

  /** Different messages have different digits: no bit of the message is dropped. */
  lemma MessageDigitsInjective(p: Params, a: Bytes, b: Bytes)
    requires p.Valid() && |a| == p.n && |b| == p.n && MessageDigits(p, a) == MessageDigits(p, b)
    ensures a == b
  {
    hide Digit;
    forall k | 0 <= k < p.n
      ensures a[k] == b[k]
    {
      if p.w == 256 {
        assert MessageDigits(p, a)[k] == Digit(256, a, k) && MessageDigits(p, b)[k] == Digit(256, b, k);
      } else {
        assert MessageDigits(p, a)[2 * k] == Digit(16, a, 2 * k) && MessageDigits(p, b)[2 * k] == Digit(16, b, 2 * k);
        assert MessageDigits(p, a)[2 * k + 1] == Digit(16, a, 2 * k + 1);
        assert MessageDigits(p, b)[2 * k + 1] == Digit(16, b, 2 * k + 1);
      }
      ByteFromDigits(p.w, a, b, k);
    }
  }

  lemma ByteFromDigits(w: nat, a: Bytes, b: Bytes, k: nat)
    requires IsBase(w) && |a| == |b| && k < |a|
    requires if w == 256 then Digit(w, a, k) == Digit(w, b, k)
             else Digit(w, a, 2 * k) == Digit(w, b, 2 * k) && Digit(w, a, 2 * k + 1) == Digit(w, b, 2 * k + 1)
    ensures a[k] == b[k]
  {
    if w == 16 {
      assert 2 * k / 2 == k && (2 * k + 1) / 2 == k;
      SameNibbles(a[k] as nat, b[k] as nat);
    }
    SameByte(a[k], b[k]);
  }

  lemma SameNibbles(x: nat, y: nat)
    requires x / 16 == y / 16 && x % 16 == y % 16
    ensures x == y
  {
  }

  lemma SameByte(x: byte, y: byte)
    requires x as nat == y as nat
    ensures x == y
  {
    ByteOfByte(x);
    ByteOfByte(y);
  }

  /** Of two different messages each has some chain strictly shorter than the other's: neither signature reveals
      every chain value the other needs. */
  lemma ChecksumSeparates(p: Params, a: Bytes, b: Bytes) returns (i: nat)
    requires p.Valid() && |a| == p.n && |b| == p.n && a != b
    ensures i < p.Len() && ChainLengths(p, a)[i] < ChainLengths(p, b)[i]
  {
    hide Checksum, Numeral, Value;
    var da, db := MessageDigits(p, a), MessageDigits(p, b);
    if j :| 0 <= j < p.Len1() && da[j] < db[j] {
      i := j;
    } else {
      if da == db {
        MessageDigitsInjective(p, a, b);
      }
      ChecksumAntitone(p.w, da, db);
      ChecksumFits(p, a);
      ChecksumFits(p, b);
      var ca, cb := Checksum(p.w, da), Checksum(p.w, db);
      NumeralValue(ca, p.w, p.Len2());
      NumeralValue(cb, p.w, p.Len2());
      var na, nb := Numeral(ca, p.w, p.Len2()), Numeral(cb, p.w, p.Len2());
      if forall j :: 0 <= j < p.Len2() ==> nb[j] <= na[j] {
        ValueMonotone(p.w, na, nb);
        assert false;
      }
      var j :| 0 <= j < p.Len2() && na[j] < nb[j];
      i := p.Len1() + j;
    }
  }

  // ---- Code ----

  /** `x & (w - 1)` */
  lemma MaskIsRem(x: nat, w: nat)
    requires IsBase(w)
    ensures BitAnd(x, w - 1) == Rem(x, w)
  {
    hide BitAnd;
    assert Pow2(4) == 16;
    assert Pow2(8) == 256;
    AndMask(x, if w == 256 then 8 else 4);
  }

  /** The two digits of a byte, high half first; for w = 256 the byte is its own digit. */
  lemma DigitsOfByte(w: nat, input: Bytes, at: nat)
    requires IsBase(w) && at < |input|
    ensures w == 256 ==> Digit(w, input, at) == Rem(input[at] as nat, w)
    ensures w == 16 ==> Digit(w, input, 2 * at) == Rem(input[at] as nat / 16, w)
    ensures w == 16 ==> Digit(w, input, 2 * at + 1) == Rem(input[at] as nat, w)
  {
    hide Digit;
    EvenDigit(input, at);
    OddDigit(input, at);
    if w == 256 {
      WholeDigit(input, at);
    }
  }

  lemma WholeDigit(input: Bytes, at: nat)
    requires at < |input|
    ensures Digit(256, input, at) == Rem(input[at] as nat, 256)
  {
  }

  /** base_w: consumes the input byte by byte, log2(w) bits at a time. */
  method BaseW(w: nat, outLen: nat, input: Bytes) returns (output: seq<nat>)
    requires IsBase(w) && (if w == 256 then outLen else (outLen + 1) / 2) <= |input|
    ensures |output| == outLen && forall i :: 0 <= i < outLen ==> output[i] == Digit(w, input, i)
  {
    hide Digit, Rem, BitAnd;
    var logw := if w == 256 then 8 else 4;
    output := [];
    var next, bits, total := 0, 0, 0;
    while |output| < outLen
      invariant |output| <= outLen
      invariant if bits == 0 then |output| == (if w == 256 then next else 2 * next)
                else bits == 4 && w == 16 && |output| == 2 * next - 1 && 0 < next <= |input|
                     && total == input[next - 1] as nat
      invariant forall i :: 0 <= i < |output| ==> output[i] == Digit(w, input, i)
    {
      if bits == 0 {
        total := input[next] as nat;
        next := next + 1;
        bits := bits + 8;
      }
      bits := bits - logw;
      var shifted := if bits == 4 then total / 16 else total; // total >> bits
      MaskIsRem(shifted, w);
      var digit := BitAnd(shifted, w - 1);
      DigitsOfByte(w, input, next - 1);
      output := output + [digit];
    }
  }

  /** wots_checksum: the sum, aligned to the top of its bytes, and read back in base w. */
  method WotsChecksum(p: Params, digits: seq<nat>) returns (csumDigits: seq<nat>)
    requires p.Valid() && |digits| == p.Len1() && forall i :: 0 <= i < |digits| ==> digits[i] < p.w
    requires Checksum(p.w, digits) < Power(p.w, p.Len2())
    ensures csumDigits == Numeral(Checksum(p.w, digits), p.w, p.Len2())
  {
    hide Numeral;
    var csum := 0;
    for i := 0 to |digits|
      invariant csum == Checksum(p.w, digits[..i])
    {
      assert digits[..i + 1][..i] == digits[..i];
      csum := csum + (p.w - 1 - digits[i]);
    }
    assert digits[..|digits|] == digits;
    CapacityIs(p.w);
    csumDigits := ChecksumDigits(p, csum);
  }

  lemma CapacityIs(w: nat)
    requires IsBase(w)
    ensures Power(w, if w == 256 then 2 else 3) == if w == 256 then 65536 else 4096
  {
    if w == 256 {
      assert Power(256, 1) == 256;
    } else {
      assert Power(16, 1) == 16;
      assert Power(16, 2) == 256;
    }
  }

  /** The conversion at the end of wots_checksum. */
  method ChecksumDigits(p: Params, csum: nat) returns (csumDigits: seq<nat>)
    requires p.Valid() && csum < (if p.w == 256 then 65536 else 4096)
    ensures csumDigits == Numeral(csum, p.w, p.Len2())
  {
    hide Numeral, Digit, BigEndian;
    var shift, size := (8 - p.Len2() * p.LogW() % 8) % 8, (p.Len2() * p.LogW() + 7) / 8;
    assert size == 2 && shift == if p.w == 256 then 0 else 4;
    var csumBytes := new byte[size](_ => 0);
    UllToBytes(csumBytes, 0, size, if shift == 4 then csum * 16 else csum); // csum << shift
    assert csumBytes[..] == csumBytes[0..0 + size];
    csumDigits := BaseW(p.w, p.Len2(), csumBytes[..]);
    if p.w == 256 {
      AlignedBytes(csum, csumBytes[..]);
    } else {
      AlignedNibbles(csum, csumBytes[..]);
    }
  }

  /** The alignment shift makes base_w return the exact digits of the checksum, for w = 256 ... */
  lemma AlignedBytes(csum: nat, bytes: Bytes)
    requires csum < 65536 && bytes == BigEndian(csum, 2)
    ensures [Digit(256, bytes, 0), Digit(256, bytes, 1)] == Numeral(csum, 256, 2)
  {
    hide ByteOf, BigEndian;
    TwoBytes(csum);
    ByteOfValue(csum);
    ByteOfRange(csum / 256);
    var q := csum / 256;
    assert Numeral(q, 256, 1) == Numeral(q / 256, 256, 0) + [q % 256];
    assert Numeral(csum, 256, 2) == Numeral(q, 256, 1) + [csum % 256];
  }

  /** ... and for w = 16, where twelve bits are aligned to the top of two bytes. */
  lemma AlignedNibbles(csum: nat, bytes: Bytes)
    requires csum < 4096 && bytes == BigEndian(csum * 16, 2)
    ensures [Digit(16, bytes, 0), Digit(16, bytes, 1), Digit(16, bytes, 2)] == Numeral(csum, 16, 3)
  {
    hide ByteOf, BigEndian, Numeral;
    TwoBytes(csum * 16);
    ByteOfValue(csum * 16);
    ByteOfRange(csum * 16 / 256);
    Nibbles(csum);
    ThreeDigits(csum);
  }

  lemma Nibbles(csum: nat)
    requires csum < 4096
    ensures var hi, lo := csum * 16 / 256, csum * 16 % 256;
            hi / 16 == csum / 256 && hi % 16 == csum / 16 % 16 && lo / 16 == csum % 16
  {
    var a, b, d := csum / 256, csum / 16 % 16, csum % 16;
    assert csum / 16 == 16 * a + b;
    assert csum == 256 * a + 16 * b + d;
    assert csum * 16 / 256 == csum / 16;
  }

  lemma ThreeDigits(csum: nat)
    requires csum < 4096
    ensures Numeral(csum, 16, 3) == [csum / 256, csum / 16 % 16, csum % 16]
  {
    var q := csum / 16;
    var r := q / 16;
    assert Numeral(r, 16, 1) == Numeral(r / 16, 16, 0) + [r % 16];
    assert Numeral(q, 16, 2) == [r, q % 16];
  }

  lemma TwoBytes(x: nat)
    ensures BigEndian(x, 2) == [ByteOf(x / 256), ByteOf(x)]
  {
    assert BigEndian(x / 256, 1) == [ByteOf(x / 256)];
  }

  /** chain_lengths */
  method ComputeChainLengths(p: Params, msg: Bytes) returns (lengths: seq<nat>)
    requires p.Valid() && |msg| == p.n
    ensures lengths == ChainLengths(p, msg)
  {
    hide Checksum, Numeral, Power;
    var digits := BaseW(p.w, p.Len1(), msg);
    assert digits == MessageDigits(p, msg);
    ChecksumFits(p, msg);
    var csum := WotsChecksum(p, digits);
    lengths := digits + csum;
  }
}
