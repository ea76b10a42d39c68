/** The bitwise operators of C on unsigned numbers, and the arithmetic they stand for in this code. */
module Bits {
  import opened Arith

  // ---- Operators, bit by bit ----

  /** `a ^ b` */
  function BitXor(a: nat, b: nat): nat
    decreases a + b
  {
    if a == 0 && b == 0 then 0 else 2 * BitXor(a / 2, b / 2) + (if a % 2 == b % 2 then 0 else 1)
  }

  /** `a & b` */
  function BitAnd(a: nat, b: nat): nat
    decreases a + b
  {
    if a == 0 && b == 0 then 0 else 2 * BitAnd(a / 2, b / 2) + (if a % 2 == 1 && b % 2 == 1 then 1 else 0)
  }

  /** `a | b` */
  function BitOr(a: nat, b: nat): nat
    decreases a + b
  {
    if a == 0 && b == 0 then 0 else 2 * BitOr(a / 2, b / 2) + (if a % 2 == 1 || b % 2 == 1 then 1 else 0)
  }

  // ---- Exclusive or ----

  lemma {:induction false} XorNothing(x: nat)
    ensures BitXor(x, 0) == x
  {
    if x > 0 {
      XorNothing(x / 2);
    }
  }

  lemma {:induction false} XorIsZero(a: nat, b: nat)
    ensures BitXor(a, b) == 0 <==> a == b
    decreases a + b
  {
    if a != 0 || b != 0 {
      XorIsZero(a / 2, b / 2);
      Halves(a);
      Halves(b);
    }
  }

  lemma Halves(x: nat)
    ensures x == 2 * (x / 2) + x % 2
  {
  }

  // ---- Masks ----

  /** `x & (2^k - 1)` keeps the `k` low bits. */
  lemma {:induction false} AndMask(x: nat, k: nat)
    ensures BitAnd(x, Pow2(k) - 1) == x % Pow2(k)
    decreases k
  {
    if k == 0 {
      AndNothing(x);
    } else {
      AndMask(x / 2, k - 1);
      MaskHalf(Pow2(k - 1));
      LowHalf(x, Pow2(k - 1));
      Halves(x);
    }
  }

  /** `~0 >> (width - bits)` on words of `width` bits is the mask of `bits` ones. */
  lemma OnesShifted(width: nat, bits: nat)
    requires bits <= width
    ensures (Pow2(width) - 1) / Pow2(width - bits) == Pow2(bits) - 1
  {
    var p := Pow2(width - bits);
    Pow2Add(bits, width - bits);
    assert Pow2(width) - 1 == (Pow2(bits) - 1) * p + (p - 1);
    ModUnique(Pow2(width) - 1, p, Pow2(bits) - 1, p - 1);
  }

  lemma {:induction false} AndNothing(x: nat)
    ensures BitAnd(x, 0) == 0
  {
    if x > 0 {
      AndNothing(x / 2);
    }
  }

  lemma MaskHalf(p: nat)
    requires p > 0
    ensures (2 * p - 1) / 2 == p - 1 && (2 * p - 1) % 2 == 1
  {
  }

  lemma LowHalf(x: nat, p: nat)
    requires p > 0
    ensures x % (2 * p) == 2 * (x / 2 % p) + x % 2
  {
    var q, r := x / 2 / p, x / 2 % p;
    QuotientBound(x / 2, p);
    assert x / 2 == q * p + r;
    Halves(x);
    ModBound(x / 2, p);
    MulAssoc(q, 2, p);
    ModUnique(x, 2 * p, q, 2 * r + x % 2);
  }

  // ---- Disjoint bits ----

  /** `low | (high << k)` and `low ^ (high << k)` are sums when `low` has at most `k` bits. */
  lemma {:induction false} DisjointSum(low: nat, high: nat, k: nat)
    requires low < Pow2(k)
    ensures BitOr(low, high * Pow2(k)) == BitXor(low, high * Pow2(k)) == low + high * Pow2(k)
    decreases k
  {
    if k == 0 {
      OrNothing(high);
      XorNothing(high);
      Commutes(0, high);
      assert high * Pow2(0) == high;
    } else {
      MulAssoc(high, 2, Pow2(k - 1));
      MulAssoc(2, high, Pow2(k - 1));
      ShiftedHalf(high * Pow2(k - 1), high * Pow2(k));
      DisjointSum(low / 2, high, k - 1);
      Halves(low);
    }
  }

  lemma ShiftedHalf(half: nat, whole: nat)
    requires whole == 2 * half
    ensures whole / 2 == half && whole % 2 == 0
  {
  }

  lemma {:induction false} OrNothing(x: nat)
    ensures BitOr(0, x) == x
  {
    if x > 0 {
      OrNothing(x / 2);
    }
  }

  lemma {:induction false} OrCommutes(a: nat, b: nat)
    ensures BitOr(a, b) == BitOr(b, a)
    decreases a + b
  {
    if a != 0 || b != 0 {
      OrCommutes(a / 2, b / 2);
    }
  }

  lemma {:induction false} Commutes(a: nat, b: nat)
    ensures BitXor(a, b) == BitXor(b, a)
    decreases a + b
  {
    if a != 0 || b != 0 {
      Commutes(a / 2, b / 2);
    }
  }
}
