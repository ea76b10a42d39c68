/** Division, powers of two and bit shifts on natural numbers. */
module Arith {
  lemma ModUnique(x: nat, d: nat, q: nat, r: nat)
    requires d > 0 && r < d && x == q * d + r
    ensures x % d == r && x / d == q
  {
    var q', r' := x / d, x % d;
    assert x == q' * d + r';
    if q' < q {
      MulMonotone(q' + 1, q, d);
    } else if q < q' {
      MulMonotone(q + 1, q', d);
    }
  }

  lemma MulMonotone(a: nat, b: nat, d: nat)
    requires a <= b
    ensures a * d <= b * d
  {
  }

  lemma MulStep(k: nat, n: nat)
    requires k > 0
    ensures k * n == (k - 1) * n + n && (k - 1) * n >= 0
  {
  }

  lemma ModBound(i: nat, n: nat)
    requires 0 < n
    ensures 0 <= i % n < n && 0 <= i / n
  {
  }

  lemma QuotientBound(a: nat, n: nat)
    requires n > 0
    ensures a / n * n <= a < a / n * n + n
  {
  }

  lemma MultipleMod(k: nat, n: nat)
    requires n > 0
    ensures (k * n) % n == 0
  {
    ModUnique(k * n, n, k, 0);
  }

  lemma MultipleAtLeast(a: nat, n: nat)
    requires 0 < n && 0 < a && a % n == 0
    ensures n <= a && (a - n) % n == 0
  {
    if a < n {
      ModUnique(a, n, 0, a);
    } else {
      ModUnique(a - n, n, a / n - 1, 0);
    }
  }

  lemma MultipleLess(a: nat, n: nat)
    requires 0 < n
    ensures 0 <= a % n < n && a % n <= a && (a - a % n) % n == 0
  {
    var q := a / n;
    assert a == q * n + a % n;
    ModUnique(a - a % n, n, q, 0);
  }

  lemma AddMod(a: nat, b: nat, n: nat)
    requires n > 0 && a % n == 0 && b % n == 0
    ensures (a + b) % n == 0
  {
    assert a == a / n * n && b == b / n * n;
    assert a + b == (a / n + b / n) * n;
    MultipleMod(a / n + b / n, n);
  }

  lemma Remainder(full: nat, rest: nat, n: nat)
    requires n > 0 && full % n == 0 && rest < n
    ensures (full + rest) % n == rest
  {
    assert full == full / n * n;
    ModUnique(full + rest, n, full / n, rest);
  }

  /** Adding `d` to a length: within the open block, or exactly completing it. */
  lemma FeedMod(a: nat, d: nat, n: nat)
    requires n > 0 && a % n + d <= n
    ensures (a + d) % n == if a % n + d == n then 0 else a % n + d
  {
    var q := a / n;
    assert a == q * n + a % n;
    if a % n + d == n {
      assert a + d == (q + 1) * n;
      MultipleMod(q + 1, n);
    } else {
      ModUnique(a + d, n, q, a % n + d);
    }
  }

  function Pow2(n: nat): (r: nat)
    ensures r > 0
  {
    if n == 0 then 1 else 2 * Pow2(n - 1)
  }

  lemma PowZero()
    ensures Pow2(0) == 1
  {
  }

  lemma {:induction false} Pow2Add(a: nat, b: nat)
    ensures Pow2(a + b) == Pow2(a) * Pow2(b)
  {
    if a > 0 {
      Pow2Add(a - 1, b);
      MulAssoc(2, Pow2(a - 1), Pow2(b));
      assert Pow2(a + b) == 2 * Pow2(a - 1 + b);
    }
  }

  lemma MulAssoc(x: nat, y: nat, z: nat)
    ensures x * (y * z) == (x * y) * z
  {
  }

  lemma {:induction false} Pow2Monotone(a: nat, b: nat)
    requires a <= b
    ensures Pow2(a) <= Pow2(b)
  {
    if a < b {
      Pow2Monotone(a, b - 1);
    }
  }
}
