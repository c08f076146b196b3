/** The double format: m * 2^e with a 53-bit significand, its bit pattern, and what it means for a
    double to be the one nearest to a real number. */
module Binary64 {
  import opened Powers
  import opened Rounding

  const TWO52: nat := 0x10_0000_0000_0000
  const TWO53: nat := 0x20_0000_0000_0000
  const TWO63: nat := 0x8000_0000_0000_0000
  const INF_BITS: nat := 0x7FF0_0000_0000_0000
  const NAN_BITS: nat := 0x7FF8_0000_0000_0000

  /** The real number 2^e. */
  ghost function Scale2(e: int): (r: real)
    ensures r > 0.0
  {
    if e >= 0 then Pow(2, e) as real else 1.0 / Pow(2, -e) as real
  }

  ghost function Times(x: real, u: real): real { x * u }

  ghost function RAbs(x: real): real { if x >= 0.0 then x else -x }

  ghost function Value(m: nat, e: int): real { Times(m as real, Scale2(e)) }

  ghost function Gap(x: real, m: nat, e: int): real { RAbs(x - Value(m, e)) }

  /** No 53-bit floating-point number is closer to x than m*2^e; if another is as close, m is even. */
  ghost predicate Nearest(x: real, m: nat, e: int) {
    forall k: nat, f: int :: k < TWO53 ==>
      && Gap(x, m, e) <= Gap(x, k, f)
      && (Gap(x, m, e) == Gap(x, k, f) && Value(k, f) != Value(m, e) ==> m % 2 == 0)
  }

  predicate Canonical(m: nat, e: int) { TWO52 <= m < TWO53 }

  function P2(k: int): (p: nat)
    ensures p > 0
  {
    if k > 0 then Pow(2, k) else 1
  }

  /** e is the exponent at which n/d reads as a 53-bit integer part. */
  predicate Normalised(n: nat, d: nat, e: int) {
    TWO52 * (d * P2(e)) <= n * P2(-e) < TWO53 * (d * P2(e))
  }

  /** n/d in units of 2^e, rounded half to even. */
  function RoundAt(n: nat, d: nat, e: int): nat
    requires d > 0
  {
    MulMonotonic(d, 1, P2(e));
    Rne(n * P2(-e), d * P2(e))
  }

  /** A significand that rounded up to 2^53 moves to the next binade. */
  function Renorm(m: nat, e: int): (nat, int) {
    if m == TWO53 then (TWO52, e + 1) else (m, e)
  }

  /** (m, f) is the renormalised half-even rounding of n/d. */
  ghost predicate RoundsTo(n: nat, d: nat, m: nat, f: int)
    requires d > 0
  {
    exists e: int :: Normalised(n, d, e) && (m, f) == Renorm(RoundAt(n, d, e), e)
  }

  ghost function Ratio(n: nat, d: nat): real
    requires d > 0
  {
    n as real / d as real
  }

  // ---- powers of two as reals ----

  lemma Scale2Succ(e: int)
    ensures Scale2(e + 1) == 2.0 * Scale2(e)
  {
    if e < 0 {
      assert Pow(2, -e) == 2 * Pow(2, -e - 1);
      assert (2 * Pow(2, -e - 1)) as real == 2.0 * Pow(2, -e - 1) as real;
    } else {
      assert (2 * Pow(2, e)) as real == 2.0 * Pow(2, e) as real;
    }
  }

  lemma {:induction false} Scale2Up(e: int, k: nat)
    ensures Scale2(e + k) == Times(Pow(2, k) as real, Scale2(e))
    decreases k
  {
    hide Scale2;
    if k > 0 {
      Scale2Up(e, k - 1);
      Scale2Succ(e + k - 1);
      hide Pow;
      Doubling(k);
      var q := Pow(2, k - 1) as real;
      assert Times(2.0, q) == Pow(2, k) as real;
      TimesAssoc(2.0, q, Scale2(e));
      assert Times(2.0, Scale2(e + k - 1)) == 2.0 * Scale2(e + k - 1);
    }
  }

  lemma Scale2Monotonic(e: int, f: int)
    requires e <= f
    ensures Scale2(e) <= Scale2(f)
  {
    hide Scale2, Pow, Times;
    Scale2Up(e, f - e);
    TimesOrder(1.0, Pow(2, f - e) as real, Scale2(e));
    TimesMinus(1.0, 0.0, Scale2(e));
  }

  lemma TimesOrder(x: real, y: real, u: real)
    requires u > 0.0
    ensures x < y <==> Times(x, u) < Times(y, u)
    ensures x == y <==> Times(x, u) == Times(y, u)
  {
    assert Times(x, u) - Times(y, u) == (x - y) * u;
    if x < y { assert (y - x) * u > 0.0; } else if x > y { assert (x - y) * u > 0.0; }
  }

  lemma TimesOrderRight(x: real, u: real, v: real)
    requires x >= 0.0 && u <= v
    ensures Times(x, u) <= Times(x, v)
  {
    assert Times(x, v) - Times(x, u) == x * (v - u);
  }

  lemma TimesAssoc(a: real, b: real, c: real)
    ensures Times(Times(a, b), c) == Times(a, Times(b, c))
  {
  }

  lemma TimesMinus(x: real, y: real, u: real)
    ensures Times(x - y, u) == Times(x, u) - Times(y, u)
    ensures Times(0.0, u) == 0.0 && Times(1.0, u) == u
  {
  }

  /** Scaling scales distances. */
  lemma TimesGap(x: real, y: real, u: real)
    requires u > 0.0
    ensures RAbs(Times(x, u) - Times(y, u)) == Times(RAbs(x - y), u)
  {
    hide Times;
    TimesOrder(x, y, u);
    TimesMinus(x, y, u);
    TimesMinus(y, x, u);
  }

  lemma RealMul(a: int, b: int)
    ensures (a * b) as real == a as real * b as real
  {
    if a < 0 {
      RealMulNat(-a, b);
      assert (a * b) as real == -((-a * b) as real);
    } else {
      RealMulNat(a, b);
    }
  }

  lemma {:induction false} RealMulNat(a: nat, b: int)
    ensures (a * b) as real == a as real * b as real
  {
    if a > 0 {
      RealMulNat(a - 1, b);
      assert a * b == (a - 1) * b + b;
    }
  }

  /** A floating-point number with a larger exponent is an integer multiple of 2^e. */
  lemma ValueAtLower(k: nat, f: int, e: int)
    requires e <= f
    ensures Value(k, f) == Times((k * Pow(2, f - e)) as real, Scale2(e))
  {
    hide Scale2, Pow;
    Scale2Up(e, f - e);
    RealMul(k, Pow(2, f - e));
    TimesAssoc(k as real, Pow(2, f - e) as real, Scale2(e));
  }

  /** One with a smaller exponent stays half a unit below 2^52 * 2^e. */
  lemma ValueBelow(k: nat, f: int, e: int)
    requires f < e && k < TWO53
    ensures Value(k, f) <= Times(TWO52 as real - 0.5, Scale2(e))
  {
    hide Scale2;
    Scale2Monotonic(f, e - 1);
    Scale2Succ(e - 1);
    TimesOrderRight(k as real, Scale2(f), Scale2(e - 1));
    TimesOrder(k as real, (TWO53 - 1) as real, Scale2(e - 1));
  }

  // ---- rounding gives the nearest double ----

  lemma RatioScale(n: nat, d: nat, e: int)
    requires d > 0
    ensures d * P2(e) > 0
    ensures Ratio(n, d) == Times(Ratio(n * P2(-e), d * P2(e)), Scale2(e))
  {
    MulMonotonic(d, 1, P2(e));
    RealMul(n, P2(-e));
    RealMul(d, P2(e));
    var a, b := n as real, d as real;
    if e > 0 {
      var p := Pow(2, e) as real;
      assert Ratio(n * P2(-e), d * P2(e)) == a / (b * p);
      assert a / (b * p) * p == a / b by { DivCancel(a, b, p); }
    } else if e < 0 {
      var p := Pow(2, -e) as real;
      assert Ratio(n * P2(-e), d * P2(e)) == (a * p) / b;
      assert (a * p) / b * (1.0 / p) == a / b by { MulDivCancel(a, b, p); }
    } else {
      assert Pow(2, 0) == 1;
    }
  }

  lemma DivCancel(a: real, b: real, p: real)
    requires b > 0.0 && p > 0.0
    ensures b * p > 0.0 && a / (b * p) * p == a / b
  {
    var q := a / (b * p);
    assert q * (b * p) == a;
    assert (q * p) * b == a;
  }

  lemma MulDivCancel(a: real, b: real, p: real)
    requires b > 0.0 && p > 0.0
    ensures (a * p) / b * (1.0 / p) == a / b
  {
    var q := a / b;
    assert q * b == a;
    assert (q * p) * b == a * p;
    assert (a * p) / b == q * p;
    assert (q * p) * (1.0 / p) == q;
  }

  /** Integer nearness carries over to the quotient. */
  lemma RneNearestReal(n: nat, d: nat, k: int)
    requires d > 0
    ensures var y := Ratio(n, d); var r := Rne(n, d);
      && RAbs(y - r as real) <= RAbs(y - k as real)
      && (RAbs(y - r as real) == RAbs(y - k as real) && k != r ==> r % 2 == 0)
  {
    hide Rne, Ratio, Times, Dist;
    var y, r, b := Ratio(n, d), Rne(n, d), d as real;
    RneNearest(n, d, k);
    DistReal(n, d, r);
    DistReal(n, d, k);
    TimesOrder(RAbs(y - k as real), RAbs(y - r as real), b);
  }

  lemma DistReal(n: nat, d: nat, k: int)
    requires d > 0
    ensures Times(RAbs(Ratio(n, d) - k as real), d as real) == Dist(n, d, k) as real
  {
    RatioTimes(n, d);
    hide Ratio;
    RealMul(k, d);
    TimesGap(Ratio(n, d), k as real, d as real);
  }

  lemma RatioTimes(n: nat, d: nat)
    requires d > 0
    ensures Times(Ratio(n, d), d as real) == n as real
  {
  }

  lemma NormalisedRange(n: nat, d: nat, e: int)
    requires d > 0 && Normalised(n, d, e)
    ensures d * P2(e) > 0
    ensures TWO52 as real <= Ratio(n * P2(-e), d * P2(e)) < TWO53 as real
    ensures TWO52 <= RoundAt(n, d, e) <= TWO53
  {
    hide P2, Rne;
    MulMonotonic(d, 1, P2(e));
    var a, b := n * P2(-e), d * P2(e);
    RatioBounds(a, b, TWO52, TWO53);
    RneBounds(a, b, TWO52, TWO53);
  }

  lemma RatioBounds(a: nat, b: nat, lo: nat, hi: nat)
    requires b > 0 && lo * b <= a < hi * b
    ensures lo as real <= Ratio(a, b) < hi as real
  {
    RatioTimes(a, b);
    RealMul(lo, b);
    RealMul(hi, b);
    hide Ratio;
    TimesOrder(Ratio(a, b), lo as real, b as real);
    TimesOrder(Ratio(a, b), hi as real, b as real);
  }

  lemma RneBounds(a: nat, b: nat, lo: nat, hi: nat)
    requires b > 0 && lo * b <= a <= hi * b
    ensures lo <= Rne(a, b) <= hi
  {
    hide Rne;
    RneExact(lo, b);
    RneExact(hi, b);
    RneMonotonic(lo * b, a, b);
    RneMonotonic(a, hi * b, b);
  }

  /** The rounded significand of n/d, renormalised, is the double nearest to n/d. */
  lemma RoundAtNearest(n: nat, d: nat, e: int)
    requires d > 0 && Normalised(n, d, e)
    ensures var (m, f) := Renorm(RoundAt(n, d, e), e);
      Canonical(m, f) && Nearest(Ratio(n, d), m, f)
  {
    NormalisedRange(n, d, e);
    RatioScale(n, d, e);
    var r := RoundAt(n, d, e);
    var (m, f) := Renorm(r, e);
    assert Value(m, f) == Value(r, e) by {
      if r == TWO53 { Scale2Succ(e); }
    }
    forall k: nat, g: int | k < TWO53
      ensures Gap(Ratio(n, d), m, f) <= Gap(Ratio(n, d), k, g)
      ensures Gap(Ratio(n, d), m, f) == Gap(Ratio(n, d), k, g) && Value(k, g) != Value(m, f) ==> m % 2 == 0
    {
      NearestStep(n, d, e, r, k, g);
    }
  }

  lemma NearestStep(n: nat, d: nat, e: int, r: nat, k: nat, g: int)
    requires d > 0 && Normalised(n, d, e) && r == RoundAt(n, d, e) && k < TWO53
    ensures Gap(Ratio(n, d), r, e) <= Gap(Ratio(n, d), k, g)
    ensures Gap(Ratio(n, d), r, e) == Gap(Ratio(n, d), k, g) && Value(k, g) != Value(r, e) ==> r % 2 == 0
  {
    hide Rne, Scale2, P2, Normalised, Ratio, Pow, Times;
    NormalisedRange(n, d, e);
    RatioScale(n, d, e);
    var a, b := n * P2(-e), d * P2(e);
    if e <= g {
      ValueAtLower(k, g, e);
      NearestAbove(a, b, Scale2(e), k * Pow(2, g - e));
    } else {
      ValueBelow(k, g, e);
      NearestBelow(a, b, Scale2(e), Value(k, g));
    }
  }

  lemma NearestAbove(a: nat, b: nat, u: real, j: nat)
    requires b > 0 && u > 0.0
    ensures var y := Times(Ratio(a, b), u); var r := Rne(a, b);
      && RAbs(y - Times(r as real, u)) <= RAbs(y - Times(j as real, u))
      && (RAbs(y - Times(r as real, u)) == RAbs(y - Times(j as real, u)) && j != r ==> r % 2 == 0)
  {
    hide Rne, Ratio, Times;
    var y, r := Ratio(a, b), Rne(a, b);
    RneNearestReal(a, b, j);
    TimesGap(y, r as real, u);
    TimesGap(y, j as real, u);
    TimesOrder(RAbs(y - r as real), RAbs(y - j as real), u);
  }

  lemma NearestBelow(a: nat, b: nat, u: real, v: real)
    requires b > 0 && u > 0.0 && Ratio(a, b) >= TWO52 as real && v <= Times(TWO52 as real - 0.5, u)
    ensures RAbs(Times(Ratio(a, b), u) - Times(Rne(a, b) as real, u)) < RAbs(Times(Ratio(a, b), u) - v)
  {
    hide Rne, Ratio, Times;
    var y, r, t := Ratio(a, b), Rne(a, b), TWO52 as real;
    RneNearestReal(a, b, TWO52);
    TimesGap(y, r as real, u);
    TimesGap(y, t, u);
    TimesOrder(RAbs(y - t), RAbs(y - r as real), u);
    TimesOrder(t - 0.5, t, u);
    TimesOrder(y, t, u);
  }

  // ---- how far apart doubles are ----

  lemma MultipleDiffers(m: nat, e: int, k: nat, f: int)
    requires Canonical(m, e) && Canonical(k, f) && (m, e) != (k, f) && e <= f
    ensures k * Pow(2, f - e) != m
  {
    if e < f {
      PowMonotonic(2, 1, f - e);
      assert Pow(2, 1) == 2;
      MulMonotonic(k, 2, Pow(2, f - e));
    } else {
      assert Pow(2, 0) == 1;
    }
  }

  /** Distinct doubles differ by a unit of the one above 2^52, and by half a unit at 2^52 itself. */
  lemma Separation(m: nat, e: int, k: nat, f: int)
    requires Canonical(m, e) && Canonical(k, f) && (m, e) != (k, f)
    ensures RAbs(Value(k, f) - Value(m, e)) >= Times(0.5, Scale2(e))
    ensures m > TWO52 ==> RAbs(Value(k, f) - Value(m, e)) >= Scale2(e)
  {
    hide Scale2, Times;
    var u := Scale2(e);
    TimesMinus(1.0, 0.0, u);
    TimesOrder(0.5, 1.0, u);
    if e <= f {
      var j := k * Pow(2, f - e);
      ValueAtLower(k, f, e);
      MultipleDiffers(m, e, k, f);
      hide Pow;
      assert RAbs(j as real - m as real) >= 1.0;
      TimesGap(j as real, m as real, u);
      TimesOrder(RAbs(j as real - m as real), 1.0, u);
    } else {
      ValueBelow(k, f, e);
      var t := TWO52 as real - 0.5;
      TimesMinus(m as real, t, u);
      TimesOrder(m as real - t, 1.0, u);
      TimesOrder(m as real - t, 0.5, u);
    }
  }

  // ---- bit patterns ----

  datatype Double = Finite(neg: bool, m: nat, e2: int) | Infinite(neg: bool) | NotANumber

  /** rt_unpack: sign, 11 exponent bits, 52 fraction bits. */
  function Unpack(bits: nat): Double {
    var neg, exp, frac := bits / TWO63 % 2 == 1, bits / TWO52 % 0x800, bits % TWO52;
    if exp == 0x7FF then
      if frac != 0 then NotANumber else Infinite(neg)
    else if exp == 0 then Finite(neg, frac, -1074)
    else Finite(neg, frac + TWO52, exp - 1075)
  }

  /** rt_make_double: the bits, and whether errno becomes ERANGE. The or-ed fields do not overlap, so
      they are sums here. */
  function MakeDouble(neg: bool, mant: nat, e2: int): (nat, bool)
    requires mant < TWO53
  {
    var sign, biased := if neg then TWO63 else 0, e2 + 1075;
    if mant == 0 then (sign, false)
    else if biased >= 0x7FF then (sign + INF_BITS, true)
    else if biased <= 0 then
      var shift := 1 - biased;
      if shift > 54 then (sign, true)
      else
        DivMod(mant, Pow(2, shift));
        var half, lost, kept := Pow(2, shift - 1), mant % Pow(2, shift), mant / Pow(2, shift);
        (sign + if lost > half || (lost == half && kept % 2 == 1) then kept + 1 else kept, false)
    else (sign + (biased * TWO52 + mant % TWO52), false)
  }

  lemma UnpackFields(neg: bool, exp: nat, frac: nat)
    requires exp < 0x800 && frac < TWO52
    ensures Unpack((if neg then TWO63 else 0) + (exp * TWO52 + frac)) ==
      if exp == 0x7FF then (if frac != 0 then NotANumber else Infinite(neg))
      else if exp == 0 then Finite(neg, frac, -1074)
      else Finite(neg, frac + TWO52, exp - 1075)
  {
  }

  /** What the assembled bits read back as: the number itself in the normal range, an infinity above
      it, and below it the significand rounded once more to a multiple of 2^-1074. */
  lemma MakeDoubleDenotes(neg: bool, m: nat, e: int)
    requires Canonical(m, e)
    ensures var d := Unpack(MakeDouble(neg, m, e).0);
      if e > 971 then d == Infinite(neg)
      else if e >= -1074 then d == Finite(neg, m, e)
      else d == Finite(neg, Rne(m, Pow(2, -1074 - e)), -1074)
  {
    hide Unpack, Pow, Rne;
    var biased := e + 1075;
    if biased >= 0x7FF {
      UnpackFields(neg, 0x7FF, 0);
    } else if biased > 0 {
      assert m == TWO52 + m % TWO52;
      UnpackFields(neg, biased, m % TWO52);
    } else {
      DenormalDenotes(neg, m, 1 - biased);
    }
  }

  /** errno becomes ERANGE exactly for an infinity, and for numbers below 2^-1076, which are made zero. */
  lemma RangeErrorIff(neg: bool, m: nat, e: int)
    requires Canonical(m, e)
    ensures var (bits, range) := MakeDouble(neg, m, e);
      && (range <==> Unpack(bits).Infinite? || e < -1128)
      && (e < -1128 ==> Unpack(bits) == Finite(neg, 0, -1074))
  {
    hide Unpack, Pow, Rne;
    MakeDoubleDenotes(neg, m, e);
    if e < -1128 {
      Pow2To54();
      PowMonotonic(2, 55, -1074 - e);
      assert Rne(m, Pow(2, -1074 - e)) == 0 by { RneOfLess(m, Pow(2, -1074 - e)); }
    }
  }

  lemma RneOfLess(m: nat, p: nat)
    requires 2 * m < p
    ensures Rne(m, p) == 0
  {
    DivModUnique(m, p, 0, m);
  }

  lemma DenormalDenotes(neg: bool, m: nat, shift: nat)
    requires TWO52 <= m < TWO53 && shift >= 1
    ensures Unpack(MakeDouble(neg, m, -1074 - shift).0) == Finite(neg, Rne(m, Pow(2, shift)), -1074)
  {
    hide Unpack, Pow;
    Pow2To54();
    Doubling(shift);
    var p := Pow(2, shift);
    PowMonotonic(2, 1, shift);
    KeptBound(m, p);
    if shift > 54 {
      PowMonotonic(2, 55, shift);
      DivModUnique(m, p, 0, m);
      UnpackFields(neg, 0, 0);
    } else {
      var kept := Rne(m, p);
      if kept == TWO52 { UnpackFields(neg, 1, 0); } else { UnpackFields(neg, 0, kept); }
    }
  }

  lemma KeptBound(m: nat, p: nat)
    requires m < TWO53 && p >= 2
    ensures Rne(m, p) <= TWO52
  {
    MulMonotonic(TWO52, 2, p);
    RneMonotonic(m, TWO52 * p, p);
    RneExact(TWO52, p);
  }

  lemma Pow2To54()
    ensures Pow(2, 1) == 2 && Pow(2, 52) == TWO52 && Pow(2, 53) == TWO53
    ensures Pow(2, 54) == 2 * TWO53 && Pow(2, 55) == 4 * TWO53
  {
    Pow2To29();
    PowAdd(2, 29, 10);
    PowAdd(2, 39, 10);
    assert Pow(2, 3) == 8;
    PowAdd(2, 49, 3);
  }

  // ---- rounding to the format ----

  // The exponent of the smallest double, -1074: given by a type so that 2^1074 stays a symbol.
  type MinExponent = e: int | -1075 < e < -1073 witness -1074
  const MIN_EXPONENT: MinExponent
  const EMIN: int := MIN_EXPONENT

  /** IEEE rounding of n/d at the exponent e where it is normalised: 53 bits where the exponent range
      allows it, multiples of 2^EMIN below, infinity when rounding leaves the range. */
  function RoundedAt(neg: bool, n: nat, d: nat, e: int): Double
    requires d > 0
  {
    if e < EMIN then Finite(neg, RoundAt(n, d, EMIN), EMIN)
    else
      var (m, f) := Renorm(RoundAt(n, d, e), e);
      if f > 971 then Infinite(neg) else Finite(neg, m, f)
  }

  /** The double that n/d rounds to. */
  ghost predicate IsRounded(r: Double, neg: bool, n: nat, d: nat)
    requires d > 0
  {
    if n == 0 then r == Finite(neg, 0, EMIN)
    else exists e: int :: Normalised(n, d, e) && r == RoundedAt(neg, n, d, e)
  }

  lemma P2Step(n: nat, k: int)
    requires k >= 0
    ensures n * P2(k + 1) == 2 * (n * P2(k)) && (k == 0 ==> n * P2(k) == n)
  {
    Doubling(k + 1);
    if k == 0 { assert Pow(2, 0) == 1; }
  }

  lemma LowerUntil(n: nat, d: nat, j: nat) returns (f: int)
    requires n > 0 && d > 0 && n * P2(j) < TWO53 * d
    ensures Normalised(n, d, f) && f <= 0
    decreases TWO52 * d - n * P2(j)
  {
    hide P2;
    P2Step(n, j);
    if TWO52 * d <= n * P2(j) {
      f := 0 - j;
      P2Negative(d, 0 - j);
    } else {
      MulMonotonic(n, 1, P2(j));
      f := LowerUntil(n, d, j + 1);
    }
  }

  lemma RaiseUntil(n: nat, d: nat, j: nat) returns (f: int)
    requires d > 0 && TWO52 * (d * P2(j)) <= n
    ensures Normalised(n, d, f) && f >= 0
    decreases n - d * P2(j)
  {
    hide P2;
    P2Step(d, j);
    if n < TWO53 * (d * P2(j)) {
      f := j;
      P2Negative(n, 0 - j);
    } else {
      MulMonotonic(d, 1, P2(j));
      f := RaiseUntil(n, d, j + 1);
    }
  }

  lemma P2Negative(n: nat, k: int)
    requires k <= 0
    ensures P2(k) == 1 && n * P2(k) == n
  {
  }

  /** Every positive quotient has its binade. */
  lemma NormalisedExists(n: nat, d: nat) returns (f: int)
    requires n > 0 && d > 0
    ensures Normalised(n, d, f) && (TWO53 * d <= n ==> f >= 0)
  {
    hide P2;
    P2Negative(n, 0);
    P2Negative(d, 0);
    if n < TWO53 * d { f := LowerUntil(n, d, 0); } else { f := RaiseUntil(n, d, 0); }
  }

  lemma NormalisedUnique(n: nat, d: nat, e: int, f: int)
    requires d > 0 && Normalised(n, d, e) && Normalised(n, d, f)
    ensures e == f
  {
    if e < f {
      NormalisedOrder(n, d, e, f);
    } else if f < e {
      NormalisedOrder(n, d, f, e);
    }
  }

  lemma NormalisedOrder(n: nat, d: nat, e: int, f: int)
    requires d > 0 && Normalised(n, d, e) && e < f
    ensures !Normalised(n, d, f)
  {
    hide Ratio, Scale2, Times, P2;
    MulMonotonic(d, 1, P2(f));
    RatioScale(n, d, e);
    RatioScale(n, d, f);
    NormalisedRange(n, d, e);
    var y, z := Ratio(n * P2(-e), d * P2(e)), Ratio(n * P2(-f), d * P2(f));
    if Normalised(n, d, f) {
      NormalisedRange(n, d, f);
      Scale2Monotonic(e + 1, f);
      Scale2Succ(e);
      TimesOrder(y, TWO53 as real, Scale2(e));
      TimesOrder(TWO52 as real - 1.0, z, Scale2(f));
      TimesTwice(TWO52 as real, Scale2(e));
      TimesOrderRight(TWO52 as real, Scale2(e + 1), Scale2(f));
      TimesOrder(z, TWO52 as real, Scale2(f));
    }
  }

  lemma TimesTwice(x: real, u: real)
    ensures Times(x, 2.0 * u) == Times(2.0 * x, u)
  {
  }

  /** The assembled bits after a first rounding at e below the range: rounded a second time. */
  lemma TwiceRounded(neg: bool, n: nat, d: nat, e: int)
    requires d > 0 && Normalised(n, d, e) && e < EMIN
    ensures var (m, f) := Renorm(RoundAt(n, d, e), e);
      Canonical(m, f) && Unpack(MakeDouble(neg, m, f).0) == Finite(neg, Rne(RoundAt(n, d, e), Pow(2, EMIN - e)), EMIN)
  {
    hide Unpack, MakeDouble, Rne, Pow;
    NormalisedRange(n, d, e);
    var r := RoundAt(n, d, e);
    var (m, f) := Renorm(r, e);
    MakeDoubleDenotes(neg, m, f);
    if r == TWO53 {
      Doubling(EMIN - e);
      RneScale(TWO52, Pow(2, EMIN - f), 2);
      if f == EMIN { PowZero(2); RneExact(TWO52, 1); }
    }
  }

  /** Coarsening the unit by 2^s: one rounding at EMIN in terms of the quotient at e. */
  lemma CoarseRound(n: nat, d: nat, e: int)
    requires d > 0 && e < EMIN
    ensures d * P2(e) > 0 && d * P2(e) * Pow(2, EMIN - e) > 0
    ensures Rne(n * P2(-e), d * P2(e) * Pow(2, EMIN - e)) == RoundAt(n, d, EMIN)
  {
    hide Rne, Pow;
    var p := Pow(2, EMIN - e);
    PowAdd(2, -EMIN, EMIN - e);
    assert n * (Pow(2, -EMIN) * p) == n * Pow(2, -EMIN) * p;
    MulMonotonic(d, 1, p);
    RneScale(n * Pow(2, -EMIN), d, p);
  }

  /** What strtod assembles is the correctly rounded double, except exactly when a subnormal result
      sits on a midpoint hazard of the second rounding. */
  lemma AssembledIsRounded(neg: bool, n: nat, d: nat, e: int)
    requires n > 0 && d > 0 && Normalised(n, d, e)
    ensures d * P2(e) > 0
    ensures var (m, f) := Renorm(RoundAt(n, d, e), e);
      && Canonical(m, f)
      && (IsRounded(Unpack(MakeDouble(neg, m, f).0), neg, n, d) <==>
            !(e < EMIN && MidpointHazard(n * P2(-e), d * P2(e), EMIN - e)))
  {
    hide Unpack, MakeDouble, Rne, Pow, MidpointHazard;
    NormalisedRange(n, d, e);
    var (m, f) := Renorm(RoundAt(n, d, e), e);
    var r := Unpack(MakeDouble(neg, m, f).0);
    assert IsRounded(r, neg, n, d) <==> r == RoundedAt(neg, n, d, e) by {
      if IsRounded(r, neg, n, d) {
        var g :| Normalised(n, d, g) && r == RoundedAt(neg, n, d, g);
        NormalisedUnique(n, d, e, g);
      }
    }
    if e >= EMIN {
      MakeDoubleDenotes(neg, m, f);
    } else {
      TwiceRounded(neg, n, d, e);
      CoarseRound(n, d, e);
      DoubleRounding(n * P2(-e), d * P2(e), EMIN - e);
    }
  }

  /** A rounded finite double has no closer double of the format. */
  lemma RoundedIsNearest(r: Double, neg: bool, n: nat, d: nat, k: nat, f: int)
    requires d > 0 && IsRounded(r, neg, n, d) && r.Finite? && k < TWO53 && f >= EMIN
    ensures Gap(Ratio(n, d), r.m, r.e2) <= Gap(Ratio(n, d), k, f)
    ensures Gap(Ratio(n, d), r.m, r.e2) == Gap(Ratio(n, d), k, f) && Value(k, f) != Value(r.m, r.e2) ==> r.m % 2 == 0
  {
    if n == 0 {
      ZeroIsNearest(d, k, f);
    } else {
      hide Normalised, RoundAt, Gap, Value, Ratio, Pow, P2, Nearest;
      var e :| Normalised(n, d, e) && r == RoundedAt(neg, n, d, e);
      if e >= EMIN {
        RoundAtNearest(n, d, e);
        NearestGives(Ratio(n, d), r.m, r.e2, k, f);
      } else {
        SubnormalIsNearest(n, d, k, f);
      }
    }
  }

  lemma NearestGives(x: real, m: nat, e: int, k: nat, f: int)
    requires Nearest(x, m, e) && k < TWO53
    ensures Gap(x, m, e) <= Gap(x, k, f)
    ensures Gap(x, m, e) == Gap(x, k, f) && Value(k, f) != Value(m, e) ==> m % 2 == 0
  {
  }

  lemma ZeroIsNearest(d: nat, k: nat, f: int)
    requires d > 0
    ensures Gap(Ratio(0, d), 0, EMIN) <= Gap(Ratio(0, d), k, f)
  {
    hide Scale2, Ratio, Times;
    ZeroRatio(d);
    TimesMinus(0.0, 0.0, Scale2(EMIN));
    ValueNonNegative(k, f);
  }

  /** Below the normal range the candidates are the multiples of 2^EMIN. */
  lemma SubnormalIsNearest(n: nat, d: nat, k: nat, f: int)
    requires d > 0 && f >= EMIN
    ensures var (x, m) := (Ratio(n, d), RoundAt(n, d, EMIN));
      && Gap(x, m, EMIN) <= Gap(x, k, f)
      && (Gap(x, m, EMIN) == Gap(x, k, f) && Value(k, f) != Value(m, EMIN) ==> m % 2 == 0)
  {
    hide Rne, Scale2, Ratio, Pow, Times, P2;
    RatioScale(n, d, EMIN);
    ValueAtLower(k, f, EMIN);
    NearestAbove(n * P2(-EMIN), d * P2(EMIN), Scale2(EMIN), k * Pow(2, f - EMIN));
  }

  lemma ZeroRatio(d: nat)
    requires d > 0
    ensures Ratio(0, d) == 0.0
  {
  }

  lemma ValueNonNegative(k: nat, f: int)
    ensures Value(k, f) >= 0.0
  {
    hide Scale2;
    TimesOrder(0.0, k as real, Scale2(f));
  }
}
