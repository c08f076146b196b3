/** The flag strtod (rt_scan.c) keeps for digits it does not collect: when it is enough to round the whole number. */
module StickyDigits {
  import opened Powers
  import opened Rounding
  import opened Binary64
  import opened DecimalToBinary

  /** j half units of a binade lie midway between two 53-bit numbers that are neighbours, there or in the next binade. */
  predicate Midway(j: nat) { if j < 2 * TWO53 then j % 2 == 1 else j % 4 == 2 }

  /** The lower of the two neighbours has an odd significand, so that the middle rounds up. */
  predicate LowerOdd(j: nat) { if j < 2 * TWO53 then j % 4 == 3 else j % 8 == 6 }

  /** The middle between two neighbours lies above u/d and below v/d, or on v/d where the middle rounds up. The binade of
      u/d is e. */
  ghost predicate Overtaken(u: nat, v: nat, d: nat, e: int) { Passed(2 * (u * P2(-e)), d * P2(e), 2 * (v * P2(-e))) }

  ghost predicate Passed(a: int, s: int, b: int) { exists j: nat :: Midway(j) && Between(a, j, s, b) }

  predicate Between(a: int, j: nat, s: int, b: int) { a < j * s && (j * s < b || (j * s == b && LowerOdd(j))) }

  /** The same, said of quotients in half units: q of u/d and p, with remainder r, of v/d. */
  ghost predicate Over(q: nat, p: nat, r: nat) {
    exists j: nat :: Midway(j) && q < j && (j < p || (j == p && (r > 0 || LowerOdd(j))))
  }

  lemma StepsAgainst(j: nat, s: nat, q: nat, r: nat)
    requires r < s
    ensures q * s + r < j * s <==> q < j
    ensures j * s < q * s + r <==> j < q || (j == q && r > 0)
    ensures j * s == q * s + r <==> j == q && r == 0
  {
    if q < j { MulMonotonic(s, q + 1, j); } else if j < q { MulMonotonic(s, j + 1, q); }
  }

  lemma PassedIff(a: int, s: nat, b: int, q: nat, t: nat, p: nat, r: nat)
    requires a == q * s + t && b == p * s + r && t < s && r < s
    ensures Passed(a, s, b) <==> Over(q, p, r)
  {
    hide Midway, LowerOdd;
    forall j: nat
      ensures Between(a, j, s, b) <==> q < j && (j < p || (j == p && (r > 0 || LowerOdd(j))))
    {
      StepsAgainst(j, s, q, t);
      StepsAgainst(j, s, p, r);
    }
  }

  lemma SameBinade(q: nat, p: nat, r: nat)
    requires TWO53 <= q <= p < 2 * TWO53 && (q == p ==> r > 0)
    ensures FromBits(q, true) == FromBits(p, r != 0) <==> !Over(q, p, r)
  {
    if p % 2 == 0 && q < p - 1 {
      assert Midway(p - 1);
    } else if p % 2 == 1 && q < p - 2 {
      assert Midway(p - 2);
    } else if p % 2 == 1 && q < p && (r > 0 || LowerOdd(p)) {
      assert Midway(p);
    } else {
      assert !Over(q, p, r);
    }
  }

  lemma NextBinade(q: nat, p: nat, r: nat)
    requires TWO53 <= q < 2 * TWO53 <= p < 4 * TWO53
    ensures FromBits(q, true) == TWO53 && FromBits(p / 2, p % 2 != 0 || r != 0) == TWO52 <==> !Over(q, p, r)
  {
    var last, first := 2 * TWO53 - 1, 2 * TWO53 + 2;
    if q < last {
      assert Midway(last);
    } else if first < p || (first == p && r > 0) {
      assert Midway(first);
    } else {
      assert !Over(q, p, r);
    }
  }

  /** Twice a numerator in half units of its binade. */
  lemma NextRound(v: nat, d: nat, e: int)
    requires d > 0
    ensures d * P2(e) > 0
    ensures RoundAt(v, d, e + 1) == Rne(v * P2(-e), 2 * (d * P2(e)))
    ensures Normalised(v, d, e + 1) <==> TWO52 * (2 * (d * P2(e))) <= v * P2(-e) < TWO53 * (2 * (d * P2(e)))
  {
    hide Rne, Pow;
    MulMonotonic(d, 1, P2(e));
    PowZero(2);
    if e >= 0 {
      Doubling(e + 1);
      assert d * P2(e + 1) == 2 * (d * P2(e)) by { TwiceOver(d, P2(e)); }
    } else {
      Doubling(-e);
      assert v * P2(-e) == v * P2(-e - 1) * 2 by { TwiceOver(v, P2(-e - 1)); }
      RneScale(v * P2(-e - 1), d, 2);
    }
  }

  lemma TwiceOver(x: int, y: int)
    ensures x * (2 * y) == 2 * (x * y)
  {}

  lemma QuotientsOrdered(a: nat, b: nat, s: nat, q: nat, t: nat, p: nat, r: nat)
    requires TWO52 * s <= a < TWO53 * s && a < b < 2 * a
    requires 2 * a == q * s + t && t < s && 2 * b == p * s + r && r < s
    ensures TWO53 <= q < 2 * TWO53 && q <= p < 4 * TWO53 && (q == p ==> r > 0)
  {
    FirstBit(a, s, q, t);
    if p < q { MulMonotonic(s, p + 1, q); }
    if p >= 4 * TWO53 { MulMonotonic(s, 4 * TWO53, p); }
  }

  lemma RoundsToAt(v: nat, d: nat, e: int, m: nat, f: int)
    requires d > 0 && Normalised(v, d, e)
    ensures RoundsTo(v, d, m, f) <==> (m, f) == Renorm(RoundAt(v, d, e), e)
  {
    hide Normalised, RoundAt;
    if RoundsTo(v, d, m, f) {
      var g :| Normalised(v, d, g) && (m, f) == Renorm(RoundAt(v, d, g), g);
      NormalisedUnique(v, d, e, g);
    }
  }

  lemma SameRound(v: nat, d: nat, e: int, p: nat, r: nat)
    requires d > 0 && 2 * (v * P2(-e)) == p * (d * P2(e)) + r && r < d * P2(e) && TWO53 <= p < 2 * TWO53
    ensures Normalised(v, d, e) && RoundAt(v, d, e) == FromBits(p, r != 0)
  {
    hide Rne, P2, FromBits;
    var s := d * P2(e);
    BitsRound(v * P2(-e), s, p, r);
    MulMonotonic(s, TWO53, p);
    MulMonotonic(s, p, 2 * TWO53 - 1);
  }

  lemma LaterRound(v: nat, d: nat, e: int, p: nat, r: nat)
    requires d > 0 && 2 * (v * P2(-e)) == p * (d * P2(e)) + r && r < d * P2(e) && 2 * TWO53 <= p < 4 * TWO53
    ensures Normalised(v, d, e + 1) && RoundAt(v, d, e + 1) == FromBits(p / 2, p % 2 != 0 || r != 0)
  {
    hide Rne, P2, FromBits, RoundAt, Normalised;
    NextRound(v, d, e);
    var s, h := d * P2(e), p / 2;
    MulMonotonic(s, 2 * TWO53, p);
    MulMonotonic(s, p, 4 * TWO53 - 1);
    Halved(p, s, r);
    BitsRound(v * P2(-e), 2 * s, h, p % 2 * s + r);
  }

  lemma Halved(p: nat, s: nat, r: nat)
    requires r < s
    ensures p * s + r == p / 2 * (2 * s) + (p % 2 * s + r) && 0 <= p % 2 * s + r < 2 * s
    ensures p % 2 * s + r != 0 <==> p % 2 != 0 || r != 0
  {
    var h, b := p / 2, p % 2;
    assert p == 2 * h + b;
    assert (2 * h + b) * s == h * (2 * s) + b * s;
    if b == 0 { assert b * s == 0; } else { assert b * s == s; }
  }

  lemma CutIs(u: nat, d: nat, e: int)
    requires d > 0
    ensures d * P2(e) > 0 && Cut(u, d, true, e) == FromBits(2 * (u * P2(-e)) / (d * P2(e)), true)
  {
    MulMonotonic(d, 1, P2(e));
  }

  lemma Larger(u: nat, v: nat, e: int)
    requires u < v < 2 * u
    ensures u * P2(-e) < v * P2(-e) < 2 * (u * P2(-e))
  {
    MulMonotonic(P2(-e), u + 1, v);
    MulMonotonic(P2(-e), v + 1, 2 * u);
  }

  /** 53-bit rounding of u/d with the flag up is that of v/d, a larger number within twice u/d, if and only if no middle
      lies between them. */
  lemma FlagRounds(u: nat, v: nat, d: nat, e: int)
    requires d > 0 && Normalised(u, d, e) && u < v < 2 * u
    ensures var (m, f) := Renorm(Cut(u, d, true, e), e);
      RoundsTo(v, d, m, f) <==> !Overtaken(u, v, d, e)
    ensures Normalised(v, d, e) || Normalised(v, d, e + 1)
  {
    hide Rne, P2, FromBits, RoundAt, Cut, Passed, Over, RoundsTo;
    CutIs(u, d, e);
    var s, a, b := d * P2(e), u * P2(-e), v * P2(-e);
    DivMod(2 * a, s);
    DivMod(2 * b, s);
    var q, p, t, r := 2 * a / s, 2 * b / s, 2 * a % s, 2 * b % s;
    Larger(u, v, e);
    QuotientsOrdered(a, b, s, q, t, p, r);
    PassedIff(2 * a, s, 2 * b, q, t, p, r);
    FromBitsRange(q, true);
    var (m, f) := Renorm(FromBits(q, true), e);
    if p < 2 * TWO53 {
      SameRound(v, d, e, p, r);
      RoundsToAt(v, d, e, m, f);
      FromBitsRange(p, r != 0);
      SameBinade(q, p, r);
    } else {
      LaterRound(v, d, e, p, r);
      RoundsToAt(v, d, e + 1, m, f);
      FromBitsRange(p / 2, p % 2 != 0 || r != 0);
      NextBinade(q, p, r);
    }
  }

  lemma QuotientScale(a: nat, s: nat, c: nat)
    requires s > 0 && c > 0
    ensures s * c > 0 && a * c / (s * c) == a / s
  {
    MulMonotonic(c, 1, s);
    DivMod(a, s);
    var q, t := a / s, a % s;
    assert a * c == q * (s * c) + t * c by { assert (q * s + t) * c == q * s * c + t * c; MulAssoc(q, s, c); }
    MulMonotonic(c, 0, t);
    MulMonotonic(c, t + 1, s);
    DivModUnique(a * c, s * c, q, t * c);
  }

  /** The cut depends on the quotient only. */
  lemma CutScale(u: nat, d: nat, c: nat, e: int)
    requires d > 0 && c > 0
    ensures d * c > 0
    ensures Normalised(u * c, d * c, e) <==> Normalised(u, d, e)
    ensures Cut(u * c, d * c, true, e) == Cut(u, d, true, e)
  {
    hide P2, FromBits, Cut, Normalised;
    MulMonotonic(c, 1, d);
    CutIs(u, d, e);
    CutIs(u * c, d * c, e);
    var a, s := u * P2(-e), d * P2(e);
    NormalisedIs(u, d, e, a, s);
    Regroup(u, c, P2(-e));
    Regroup(d, c, P2(e));
    NormalisedIs(u * c, d * c, e, a * c, s * c);
    OrderScale(TWO52, s, a, c);
    OrderScale(TWO53, s, a, c);
    QuotientScale(2 * a, s, c);
    MulAssoc(2, a, c);
  }

  lemma NormalisedIs(u: nat, d: nat, e: int, a: int, s: int)
    requires a == u * P2(-e) && s == d * P2(e)
    ensures Normalised(u, d, e) <==> TWO52 * s <= a < TWO53 * s
  {}

}
