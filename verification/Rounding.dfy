/** Rounding a quotient to the nearest integer, ties to even: the meaning every conversion is
    measured against. */
module Rounding {
  import opened Powers

  function Abs(x: int): nat { if x < 0 then -x else x }

  /** n/d rounded to the nearest integer, ties to even. */
  function Rne(n: nat, d: nat): (r: nat)
    requires d > 0
    ensures n / d <= r <= n / d + 1
  {
    var q, r := n / d, n % d;
    if 2 * r > d || (2 * r == d && q % 2 == 1) then q + 1 else q
  }

  /** The distance of n from k steps of d. */
  function Dist(n: int, d: int, k: int): nat { Abs(n - k * d) }

  /** No multiple of d is closer to n than Rne(n, d)*d, and in a tie Rne(n, d) is even. */
  lemma RneNearest(n: nat, d: nat, k: int)
    requires d > 0
    ensures Dist(n, d, Rne(n, d)) <= Dist(n, d, k)
    ensures Dist(n, d, Rne(n, d)) == Dist(n, d, k) && k != Rne(n, d) ==> Rne(n, d) % 2 == 0
  {
    var q, r := n / d, n % d;
    assert n == q * d + r;
    assert (q + 1) * d == q * d + d;
    if k <= q - 1 {
      MulMonotonic(d, k, q - 1);
      assert (q - 1) * d == q * d - d;
    } else if k >= q + 2 {
      MulMonotonic(d, q + 2, k);
      assert (q + 2) * d == q * d + 2 * d;
    }
  }

  /** Being nearest with ties to even determines the result. */
  lemma RneUnique(n: nat, d: nat, k: int)
    requires d > 0
    requires 2 * Abs(n - k * d) <= d
    requires 2 * Abs(n - k * d) == d ==> k % 2 == 0
    ensures k == Rne(n, d)
  {
    var q, r := n / d, n % d;
    assert n == q * d + r;
    assert (q + 1) * d == q * d + d;
    if k <= q - 1 {
      MulMonotonic(d, k, q - 1);
      assert (q - 1) * d == q * d - d;
    } else if k >= q + 2 {
      MulMonotonic(d, q + 2, k);
      assert (q + 2) * d == q * d + 2 * d;
    }
  }

  lemma RneHalf(n: nat, d: nat)
    requires d > 0
    ensures 2 * Abs(n - Rne(n, d) * d) <= d
    ensures 2 * Abs(n - Rne(n, d) * d) == d ==> Rne(n, d) % 2 == 0
  {
    var q := n / d;
    assert n == q * d + n % d;
    assert (q + 1) * d == q * d + d;
  }

  /** Rounding depends on the quotient only. */
  lemma RneScale(n: nat, d: nat, c: nat)
    requires d > 0 && c > 0
    ensures d * c > 0 && Rne(n * c, d * c) == Rne(n, d)
  {
    var k := Rne(n, d);
    RneHalf(n, d);
    MulMonotonic(c, 1, d);
    ScaleAbs(n, k, d, c);
    MulMonotonic(c, 2 * Abs(n - k * d), d);
    assert c * (2 * Abs(n - k * d)) == 2 * Abs(n * c - k * (d * c));
    if 2 * Abs(n * c - k * (d * c)) == d * c {
      MulCancel(c, d, 2 * Abs(n - k * d));
    }
    RneUnique(n * c, d * c, k);
  }

  lemma ScaleAbs(n: int, k: int, d: int, c: nat)
    ensures Abs(n * c - k * (d * c)) == c * Abs(n - k * d)
  {
    assert n * c - k * (d * c) == c * (n - k * d);
    if n - k * d >= 0 { MulMonotonic(c, 0, n - k * d); } else { MulMonotonic(c, n - k * d, 0); }
  }

  /** An exact quotient is not changed. */
  lemma RneExact(k: nat, d: nat)
    requires d > 0
    ensures Rne(k * d, d) == k
  {
    DivModUnique(k * d, d, k, 0);
  }

  lemma RneMonotonic(a: nat, b: nat, d: nat)
    requires d > 0 && a <= b
    ensures Rne(a, d) <= Rne(b, d)
  {
    DivMod(a, d);
    DivMod(b, d);
    RneIs(a, d);
    RneIs(b, d);
    hide Rne;
    QuotientMonotonic(a, b, d, a / d, b / d, a % d, b % d);
  }

  lemma RneIs(n: nat, d: nat)
    requires d > 0
    ensures Rne(n, d) ==
      if 2 * (n % d) > d || (2 * (n % d) == d && n / d % 2 == 1) then n / d + 1 else n / d
  {
  }

  lemma QuotientMonotonic(a: int, b: int, d: int, q: int, r: int, s: int, t: int)
    requires d > 0 && a <= b && a == q * d + s && b == r * d + t && 0 <= s < d && 0 <= t < d
    ensures q < r || (q == r && s <= t)
  {
    if q > r {
      MulMonotonic(d, r + 1, q);
    }
  }

  /** When an inexact first rounding lands on the midpoint of the second, the second cannot see on
      which side the value was; it goes wrong exactly when evenness sends it the other way. */
  predicate MidpointHazard(n: nat, d: nat, s: nat)
    requires d > 0 && s > 0
  {
    var m, half := Rne(n, d), Pow(2, s - 1);
    && m % Pow(2, s) == half
    && (if m / Pow(2, s) % 2 == 0 then m * d < n else m * d > n)
  }

  /** Rounding to an integer and then to a multiple of 2^s is the single rounding, except exactly on
      a midpoint hazard. */
  lemma DoubleRounding(n: nat, d: nat, s: nat)
    requires d > 0
    ensures d * Pow(2, s) > 0
    ensures Rne(Rne(n, d), Pow(2, s)) == Rne(n, d * Pow(2, s)) <==> !(s > 0 && MidpointHazard(n, d, s))
  {
    hide Rne;
    var p := Pow(2, s);
    MulMonotonic(d, 1, p);
    if s == 0 {
      RneExact(Rne(n, d), 1);
    } else {
      hide Pow;
      var m, half := Rne(n, d), Pow(2, s - 1);
      assert p == 2 * half by { Doubling(s); }
      DivMod(m, p);
      DoubleRoundingAt(n, d, p, half, m, m / p, m % p);
    }
  }

  lemma Doubling(s: nat)
    requires s > 0
    ensures Pow(2, s) == 2 * Pow(2, s - 1)
  {
  }

  lemma DivMod(m: nat, p: nat)
    requires p > 0
    ensures m == m / p * p + m % p && 0 <= m / p && 0 <= m % p < p
  {
    if m / p < 0 { MulMonotonic(p, m / p, -1); }
  }

  /** Rounding q*d + x for an offset x that may stick out by less than half a step. */
  lemma RneOffset(n: nat, d: nat, q: nat, x: int)
    requires d > 0 && n == q * d + x && 0 - d < 2 * x && x <= d
    ensures 2 * x < d ==> Rne(n, d) == q
    ensures 2 * x > d ==> Rne(n, d) == q + 1
    ensures 2 * x == d ==> Rne(n, d) == if q % 2 == 0 then q else q + 1
  {
    assert (q + 1) * d == q * d + d;
    RneUnique(n, d, if 2 * x < d || (2 * x == d && q % 2 == 0) then q else q + 1);
  }

  lemma DoubleRoundingAt(n: nat, d: nat, p: nat, half: nat, m: nat, q: nat, r: nat)
    requires d > 0 && half > 0 && p == 2 * half && d * p > 0
    requires m == Rne(n, d) && m == q * p + r && r < p
    ensures Rne(m, p) == Rne(n, d * p) <==>
      !(r == half && (if q % 2 == 0 then m * d < n else m * d > n))
  {
    hide Rne;
    RneHalf(n, d);
    var e := n - m * d;           // what the first rounding lost
    Recompose(m, q, r, d, p);
    OffsetOrder(r, half, d, e);
    Midpoint(n, d * p, half * d, m, p, half, q, r, r * d + e, e);
  }

  lemma Midpoint(n: nat, dp: nat, hd: int, m: nat, p: nat, half: nat, q: nat, r: nat, x: int, e: int)
    requires half > 0 && p == 2 * half && m == q * p + r && r < p
    requires dp > 0 && dp == 2 * hd && n == q * dp + x && 0 - dp < 2 * x && x <= dp
    requires r < half ==> x < hd
    requires r > half ==> x > hd
    requires r == half ==> x - hd == e
    ensures Rne(m, p) == Rne(n, dp) <==> !(r == half && (if q % 2 == 0 then e > 0 else e < 0))
  {
    hide Rne;
    RneOffset(m, p, q, r);
    RneOffset(n, dp, q, x);
  }

  lemma Recompose(m: int, q: int, r: int, d: int, p: int)
    requires m == q * p + r
    ensures m * d == q * (d * p) + r * d
  {
    assert (q * p) * d == q * (d * p);
  }

  /** Where r*d + e stands relative to the midpoint half*d. */
  lemma OffsetOrder(r: int, half: int, d: int, e: int)
    requires d > 0 && half > 0 && 0 <= r < 2 * half && 0 - d <= 2 * e <= d
    ensures d * (2 * half) == 2 * (half * d)
    ensures 0 - d * (2 * half) < 2 * (r * d + e) && r * d + e <= d * (2 * half)
    ensures r < half ==> r * d + e < half * d
    ensures r > half ==> r * d + e > half * d
    ensures r == half ==> (r * d + e) - half * d == e
  {
    assert d * (2 * half) == 2 * (half * d);
    MulMonotonic(d, 0, r);
    MulMonotonic(d, 1, half);
    MulMonotonic(d, r, 2 * half - 1);
    assert (2 * half - 1) * d == 2 * (half * d) - d;
    if r < half {
      MulMonotonic(d, r, half - 1);
      assert (half - 1) * d == half * d - d;
    } else if r > half {
      MulMonotonic(d, half + 1, r);
      assert (half + 1) * d == half * d + d;
    }
  }
}
