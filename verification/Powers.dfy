/** Powers of naturals and the few non-linear facts the numeric modules share. */
module Powers {
  function Pow(b: nat, e: nat): (p: nat)
    ensures b > 0 ==> p > 0
  {
    if e == 0 then 1 else b * Pow(b, e - 1)
  }

  lemma PowZero(b: nat)
    ensures Pow(b, 0) == 1
  {
  }

  lemma {:induction false} PowAdd(b: nat, m: nat, n: nat)
    ensures Pow(b, m + n) == Pow(b, m) * Pow(b, n)
  {
    if m != 0 {
      PowAdd(b, m - 1, n);
      assert m + n - 1 == (m - 1) + n;
      MulAssoc(b, Pow(b, m - 1), Pow(b, n));
    }
  }

  lemma MulAssoc(a: int, b: int, c: int)
    ensures (a * b) * c == a * (b * c)
  {
  }

  lemma {:induction false} PowMonotonic(b: nat, m: nat, n: nat)
    requires b > 0 && m <= n
    ensures Pow(b, m) <= Pow(b, n)
  {
    PowAdd(b, m, n - m);
    MulMonotonic(Pow(b, m), 1, Pow(b, n - m));
  }

  lemma {:induction false} PowStrict(b: nat, m: nat, n: nat)
    requires b > 1 && m < n
    ensures b * Pow(b, m) <= Pow(b, n)
    ensures Pow(b, m) < Pow(b, n)
  {
    PowMonotonic(b, m + 1, n);
    assert Pow(b, m + 1) == b * Pow(b, m);
    MulMonotonic(Pow(b, m), 2, b);
  }

  /** Powers of a proper base are ordered exactly as their exponents. */
  lemma PowOrder(b: nat, m: nat, n: nat)
    requires b > 1 && Pow(b, m) < Pow(b, n)
    ensures m < n
  {
    if n <= m {
      PowMonotonic(b, n, m);
    }
  }

  lemma {:induction false} PowProduct(a: nat, b: nat, e: nat)
    ensures Pow(a * b, e) == Pow(a, e) * Pow(b, e)
  {
    if e != 0 {
      PowProduct(a, b, e - 1);
      var x, y := Pow(a, e - 1), Pow(b, e - 1);
      assert (a * b) * (x * y) == (a * x) * (b * y);
    }
  }

  lemma {:induction false} PowPow(b: nat, m: nat, n: nat)
    ensures Pow(Pow(b, m), n) == Pow(b, m * n)
  {
    if n != 0 {
      PowPow(b, m, n - 1);
      assert m * n == m + m * (n - 1);
      PowAdd(b, m, m * (n - 1));
    }
  }

  lemma {:induction false} PowBaseMonotonic(a: nat, b: nat, e: nat)
    requires a <= b
    ensures Pow(a, e) <= Pow(b, e)
  {
    if e != 0 {
      PowBaseMonotonic(a, b, e - 1);
      MulBounds(a, b, Pow(a, e - 1), Pow(b, e - 1));
    }
  }

  lemma Pow2To29()
    ensures Pow(2, 10) == 1024 && Pow(2, 29) == 0x2000_0000
  {
    assert Pow(2, 5) == 32;
    PowAdd(2, 5, 5);
    PowAdd(2, 10, 9);
    PowAdd(2, 5, 4);
    PowAdd(2, 10, 19);
  }

  lemma MulMonotonic(k: int, a: int, b: int)
    requires 0 <= k && a <= b
    ensures k * a <= k * b && a * k <= b * k
  {
  }

  lemma MulBounds(a: int, b: int, x: int, y: int)
    requires 0 <= a <= b && 0 <= x <= y
    ensures 0 <= a * x <= b * y
  {
    MulMonotonic(a, x, y);
    MulMonotonic(y, a, b);
    MulMonotonic(a, 0, x);
  }

  lemma MulStrict(a: int, b: int, x: int, y: int)
    requires 0 <= a < b && 0 < x <= y
    ensures 0 <= a * x < b * y
  {
    MulBounds(a, b - 1, x, y);
  }

  lemma MulCancel(k: int, a: int, b: int)
    requires k > 0 && k * a <= k * b
    ensures a <= b
  {
    if b < a {
      MulMonotonic(k, b + 1, a);
    }
  }

  lemma Regroup(x: int, c: int, p: int)
    ensures x * c * p == x * p * c
  {
  }

  lemma OrderScale(t: int, b: int, a: int, c: int)
    requires c > 0
    ensures t * b <= a <==> t * (b * c) <= a * c
    ensures a < t * b <==> a * c < t * (b * c)
    ensures t * b < a <==> t * (b * c) < a * c
  {
    assert t * (b * c) - a * c == (t * b - a) * c;
    var x := t * b - a;
    if x > 0 { MulMonotonic(c, 1, x); } else if x < 0 { MulMonotonic(c, x, -1); }
  }

  /** Quotient and remainder are determined by their defining equation. */
  lemma DivModUnique(n: int, d: int, q: int, r: int)
    requires d > 0 && n == q * d + r && 0 <= r < d
    ensures n / d == q && n % d == r
  {
    var q', r' := n / d, n % d;
    assert n == q' * d + r';
    if q' < q {
      MulMonotonic(d, q' + 1, q);
    } else if q < q' {
      MulMonotonic(d, q + 1, q');
    }
  }
}
