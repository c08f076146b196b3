/** What strtod promises: the double nearest to the exact decimal, and exactly where it fails. */
module StrtodCorrect {
  import opened Powers
  import opened Decimal
  import opened Rounding
  import opened Binary64
  import opened Bignum
  import opened Bounds
  import opened DecimalToBinary
  import opened StickyDigits
  import opened Strtod

  /** n/d is subnormal and its 53-bit rounding lands, inexactly and on the wrong side, on the midpoint
      of two subnormals. */
  ghost predicate Hazard(n: nat, d: nat)
    requires d > 0
  {
    exists e: int :: Normalised(n, d, e) && e < EMIN && HazardAt(n, d, e)
  }

  ghost predicate HazardAt(n: nat, d: nat, e: int)
    requires d > 0 && e < EMIN
  {
    MulMonotonic(d, 1, P2(e));
    MidpointHazard(n * P2(-e), d * P2(e), EMIN - e)
  }

  /** In the range strtod computes, its result is the correctly rounded double exactly when there is
      no midpoint hazard. */
  lemma ConvertedIsRounded(neg: bool, n: nat, k: int, bits: nat)
    requires n > 0 && -400 <= k <= 350 && Converted(neg, n, k, false, bits)
    ensures IsRounded(Unpack(bits), neg, Numer(n, k), Denom(k)) <==> !Hazard(Numer(n, k), Denom(k))
  {
    hide Unpack, MakeDouble, IsRounded, MidpointHazard, Numer, Denom, RoundAt, Normalised;
    NumerDenom(n, k);
    var u, d := Numer(n, k), Denom(k);
    var m: nat, f: int :| Canonical(m, f) && bits == MakeDouble(neg, m, f).0 && Settles(u, d, false, m, f);
    SettlesRounds(u, d, m, f);
    var e :| Normalised(u, d, e) && (m, f) == Renorm(RoundAt(u, d, e), e);
    AssembledIsRounded(neg, u, d, e);
    RoundedIff(Unpack(bits), neg, u, d, e);
  }

  /** With a flagged digit lost the number is v/d, less than twice what is left, u/d. The result is as without the loss
      whenever no middle between neighbours was passed; if one was, it is wrong in the normal range. Beyond the largest
      double it is infinity all the same. */
  lemma FlaggedIsRounded(neg: bool, n: nat, k: int, bits: nat, c: nat, v: nat, e: int)
    requires n > 0 && -400 <= k <= 350 && Converted(neg, n, k, true, bits)
    requires c > 0 && Numer(n, k) * c < v < 2 * (Numer(n, k) * c) && Normalised(Numer(n, k) * c, Denom(k) * c, e)
    ensures Denom(k) * c > 0
    ensures var u, d := Numer(n, k) * c, Denom(k) * c;
      && (!Overtaken(u, v, d, e) ==> (IsRounded(Unpack(bits), neg, v, d) <==> !Hazard(v, d)))
      && (Overtaken(u, v, d, e) && EMIN <= e < 971 ==> !IsRounded(Unpack(bits), neg, v, d))
      && (e > 971 ==> Unpack(bits) == Infinite(neg) && IsRounded(Unpack(bits), neg, v, d))
  {
    hide Unpack, MakeDouble, IsRounded, Hazard, MidpointHazard, Numer, Denom, RoundAt, Normalised, Cut, Overtaken, RoundsTo;
    NumerDenom(n, k);
    MulMonotonic(c, 1, Denom(k));
    var u, d := Numer(n, k) * c, Denom(k) * c;
    var m, f := FlaggedPair(neg, n, k, bits, c, e);
    FlagRounds(u, v, d, e);
    MakeDoubleDenotes(neg, m, f);
    var g := if Normalised(v, d, e) then e else e + 1;
    RoundedIff(Unpack(bits), neg, v, d, g);
    RoundsToAt(v, d, g, m, f);
    NormalisedRange(v, d, g);
    if (m, f) == Renorm(RoundAt(v, d, g), g) { AssembledIsRounded(neg, v, d, g); RoundedIff(Unpack(bits), neg, v, d, g); }
  }

  lemma FlaggedPair(neg: bool, n: nat, k: int, bits: nat, c: nat, e: int) returns (m: nat, f: int)
    requires n > 0 && -400 <= k <= 350 && Converted(neg, n, k, true, bits)
    requires c > 0 && Denom(k) * c > 0 && Normalised(Numer(n, k) * c, Denom(k) * c, e)
    ensures Canonical(m, f) && bits == MakeDouble(neg, m, f).0 && (f == e || f == e + 1)
    ensures (m, f) == Renorm(Cut(Numer(n, k) * c, Denom(k) * c, true, e), e)
  {
    hide MakeDouble, Numer, Denom, Normalised, Cut;
    var u, d := Numer(n, k), Denom(k);
    m, f :| Canonical(m, f) && bits == MakeDouble(neg, m, f).0 && Settles(u, d, true, m, f);
    var g :| Normalised(u, d, g) && (m, f) == Renorm(Cut(u, d, true, g), g);
    CutScale(u, d, c, e);
    NormalisedUnique(u, d, e, g);
  }

  // ---- outside that range ----

  /** From 2^1024 on every number is beyond the largest double, and so is a larger one. */
  lemma BeyondFrom(n: nat, d: nat)
    requires d > 0 && n >= TWO53 * (d * Pow(2, 971))
    ensures Beyond(n, d)
  {
    hide Pow, P2, Normalised;
    MulMonotonic(d, 1, Pow(2, 971));
    var e := NormalisedExists(n, d);
    if e <= 971 { NormalisedBelow(n, d, e, 971); }
  }

  /** There infinity is right. */
  lemma BeyondIsInfinite(neg: bool, n: nat, d: nat)
    requires n > 0 && d > 0 && Beyond(n, d)
    ensures IsRounded(Infinite(neg), neg, n, d)
  {
    hide RoundAt, Normalised;
    var e :| e > 971 && Normalised(n, d, e);
  }

  /** Above a decimal exponent of 350 strtod answers infinity, which is right for every number from n * 10^k on. */
  lemma HugeIsInfinite(neg: bool, n: nat, k: int, sticky: bool, bits: nat, v: nat, c: nat)
    requires n > 0 && k > 350 && Converted(neg, n, k, sticky, bits)
    requires c > 0 && v >= Numer(n, k) * c
    ensures Denom(k) * c > 0
    ensures Unpack(bits) == Infinite(neg) && IsRounded(Unpack(bits), neg, v, Denom(k) * c)
  {
    hide Unpack, MakeDouble, IsRounded, Pow, Beyond;
    MakeDoubleDenotes(neg, TWO52, 2000);
    NumerDenom(n, k);
    TenToTwo(k);
    MulMonotonic(Pow(10, k), 1, n);
    MulMonotonic(c, Pow(2, 1025), Numer(n, k));
    MulMonotonic(c, 1, Denom(k));
    assert Denom(k) == 1 by { DenomOne(k); }
    Pow2To54();
    PowAdd(2, 53, 971);
    PowMonotonic(2, 53 + 971, 1025);
    MulMonotonic(c, Pow(2, 53) * Pow(2, 971), Pow(2, 1025));
    Regroup(TWO53, c, Pow(2, 971));
    MulAssoc(TWO53, c, Pow(2, 971));
    BeyondFrom(v, c);
    BeyondIsInfinite(neg, v, c);
  }

  lemma TenToTwo(k: int)
    requires k > 350
    ensures Pow(10, k) >= Pow(2, 1025)
  {
    hide Pow;
    PowMonotonic(10, 345, k);
    assert Pow(10, 3) == 1000 by { Small(); }
    PowPow(10, 3, 115);
    PowBaseMonotonic(512, 1000, 115);
    assert Pow(2, 9) == 512 by { Small(); }
    PowPow(2, 9, 115);
    PowMonotonic(2, 1025, 1035);
  }

  lemma Small()
    ensures Pow(10, 3) == 1000 && Pow(2, 9) == 512
  {
  }

  /** Below a decimal exponent of -400, and when all the digits it keeps are zeros, strtod answers zero. For a number v/d that
      is right exactly when it is at most half the smallest double. */
  lemma TinyIsZero(neg: bool, n: nat, k: int, sticky: bool, bits: nat, v: nat, d: nat)
    requires (n == 0 || k < -400) && Converted(neg, n, k, sticky, bits) && d > 0
    ensures Unpack(bits) == Finite(neg, 0, EMIN)
    ensures IsRounded(Unpack(bits), neg, v, d) <==> 2 * (v * Pow(2, 0 - EMIN)) <= d
  {
    hide MakeDouble, Pow;
    assert Unpack(bits) == Finite(neg, 0, EMIN) by { UnpackFields(neg, 0, 0); ZeroBits(neg); }
    hide Unpack, RoundAt, Normalised, Rne;
    if v == 0 {
      ZeroRounded(Unpack(bits), neg, d);
    } else {
      RoundsToZero(v, d);
      var e := NormalisedExists(v, d);
      RoundedIff(Finite(neg, 0, EMIN), neg, v, d, e);
      if e >= EMIN {
        NormalisedRange(v, d, e);
        NotSmall(v, d, e);
      }
    }
  }

  lemma ZeroBits(neg: bool)
    ensures MakeDouble(neg, 0, 0).0 == if neg then TWO63 else 0
  {
  }

  lemma RoundsToZero(n: nat, d: nat)
    requires d > 0
    ensures RoundAt(n, d, EMIN) == 0 <==> 2 * (n * Pow(2, 0 - EMIN)) <= d
  {
    hide Pow;
    var a := n * Pow(2, 0 - EMIN);
    assert RoundAt(n, d, EMIN) == Rne(a, d);
    assert a == a / d * d + a % d;
    if 2 * a <= d {
      DivModUnique(a, d, 0, a);
    } else if a < d {
      DivModUnique(a, d, 0, a);
    } else {
      if a / d == 0 { assert false; }
    }
  }

  lemma NotSmall(n: nat, d: nat, e: int)
    requires d > 0 && e >= EMIN && Normalised(n, d, e)
    ensures 2 * (n * Pow(2, 0 - EMIN)) > d
  {
    hide Pow;
    PowMonotonic(2, Max0(-e), 0 - EMIN);
    PowZero(2);
    assert P2(-e) == Pow(2, Max0(-e));
    MulMonotonic(n, P2(-e), Pow(2, 0 - EMIN));
    MulMonotonic(d, 1, P2(e));
  }

  // ---- the text ----

  /** The power of ten that belongs to all the digits of a numeral. */
  function TextScale(num: Numeral): int { num.exponent - |num.frac| }

  lemma SameQuotient(n: nat, d: nat, c: nat, r: Double, neg: bool)
    requires d > 0 && c > 0
    ensures d * c > 0
    ensures IsRounded(r, neg, n * c, d * c) <==> IsRounded(r, neg, n, d)
    ensures Hazard(n * c, d * c) <==> Hazard(n, d)
  {
    MulMonotonic(c, 1, d);
    hide RoundAt, Normalised, HazardAt, IsRounded, Hazard;
    if n > 0 {
      MulMonotonic(c, 1, n);
      var e := NormalisedExists(n, d);
      SameAt(n, d, c, e);
      SameAt(n, d, c, EMIN);
      RoundedIff(r, neg, n, d, e);
      RoundedIff(r, neg, n * c, d * c, e);
    } else {
      assert n * c == 0;
      ZeroNoHazard(d);
      ZeroNoHazard(d * c);
      ZeroRounded(r, neg, d);
      ZeroRounded(r, neg, d * c);
    }
  }

  lemma ZeroRounded(r: Double, neg: bool, d: nat)
    requires d > 0
    ensures IsRounded(r, neg, 0, d) <==> r == Finite(neg, 0, EMIN)
  {
  }

  /** Once the binade is known, rounding and the hazard are decided there. */
  lemma RoundedIff(r: Double, neg: bool, n: nat, d: nat, e: int)
    requires n > 0 && d > 0 && Normalised(n, d, e)
    ensures IsRounded(r, neg, n, d) <==> r == RoundedAt(neg, n, d, e)
    ensures Hazard(n, d) <==> e < EMIN && HazardAt(n, d, e)
  {
    hide RoundAt, Normalised, HazardAt;
    if IsRounded(r, neg, n, d) {
      var g :| Normalised(n, d, g) && r == RoundedAt(neg, n, d, g);
      NormalisedUnique(n, d, e, g);
    }
    if Hazard(n, d) {
      var g :| Normalised(n, d, g) && g < EMIN && HazardAt(n, d, g);
      NormalisedUnique(n, d, e, g);
    }
  }

  lemma ZeroNoHazard(d: nat)
    requires d > 0
    ensures !Hazard(0, d)
  {
    hide P2, HazardAt;
    forall e: int
      ensures !Normalised(0, d, e)
    {
      MulMonotonic(d, 1, P2(e));
    }
  }

  lemma SameAt(n: nat, d: nat, c: nat, e: int)
    requires d > 0 && c > 0 && d * c > 0
    ensures Normalised(n * c, d * c, e) <==> Normalised(n, d, e)
    ensures RoundAt(n * c, d * c, e) == RoundAt(n, d, e)
    ensures e < EMIN ==> HazardAt(n * c, d * c, e) == HazardAt(n, d, e)
  {
    hide Rne, P2, Pow;
    var a, b := n * P2(-e), d * P2(e);
    MulMonotonic(d, 1, P2(e));
    Regroup(n, c, P2(-e));
    Regroup(d, c, P2(e));
    RneScale(a, b, c);
    OrderScale(TWO52, b, a, c);
    OrderScale(TWO53, b, a, c);
    if e < EMIN {
      var m := Rne(a, b);
      assert m * (b * c) == (m * b) * c;
      OrderScale(m, b, a, c);
    }
  }

  /** The numerator over Denom(TextScale(num)): of all the digits, and with zeros for those not kept. */
  function TextNumer(num: Numeral): nat
    requires AllDigits(num.whole) && AllDigits(num.frac)
  {
    Numer(NatOf(num.whole + num.frac), TextScale(num))
  }

  function KeptNumer(num: Numeral): nat
    requires AllDigits(num.whole) && AllDigits(num.frac)
  {
    var ds := num.whole + num.frac;
    Numer(Collected(ds) * Pow(10, |ds| - Min(|ds|, MAX_DIGITS)), TextScale(num))
  }

  /** What the scales of the kept digits and of the whole text differ by. */
  function Common(t: int, z: nat): (c: nat)
    ensures c > 0
  {
    if t >= 0 then 1 else if t + z <= 0 then Pow(10, z) else Pow(10, -t)
  }

  /** Moving z zeros between the digits and the power of ten. */
  lemma ShiftScale(n: nat, t: int, z: nat)
    ensures Numer(n * Pow(10, z), t) == Numer(n, t + z) * Common(t, z) && Denom(t) == Denom(t + z) * Common(t, z)
  {
    hide Pow, Numer, Denom;
    ScaleParts(n * Pow(10, z), t);
    ScaleParts(n, t + z);
    if t >= 0 {
      PowAdd(10, z, t);
      MulAssoc(n, Pow(10, z), Pow(10, t));
    } else if t + z <= 0 {
      PowAdd(10, -(t + z), z);
    } else {
      PowAdd(10, t + z, -t);
      MulAssoc(n, Pow(10, t + z), Pow(10, -t));
    }
  }

  lemma ScaleParts(n: nat, k: int)
    ensures k >= 0 ==> Numer(n, k) == n * Pow(10, k) && Denom(k) == 1
    ensures k <= 0 ==> Numer(n, k) == n && Denom(k) == Pow(10, -k)
  {
    PowZero(10);
  }

  lemma {:induction false} ZeroDigits(s: string)
    requires AllDigits(s)
    ensures NatOf(s) > 0 <==> exists i :: 0 <= i < |s| && s[i] != '0'
  {
    if s != "" {
      var u := s[..|s| - 1];
      ZeroDigits(u);
      assert forall i :: 0 <= i < |u| ==> u[i] == s[i];
    }
  }

  /** The kept digits fall short of the whole by less than one in their last place, and by something exactly when a nonzero
      digit was dropped. */
  lemma KeptPart(num: Numeral)
    requires AllDigits(num.whole) && AllDigits(num.frac)
    ensures var ds, c := num.whole + num.frac, Common(TextScale(num), Scale(num) - TextScale(num));
      && Scale(num) >= TextScale(num)
      && KeptNumer(num) == Numer(Collected(ds), Scale(num)) * c && Denom(TextScale(num)) == Denom(Scale(num)) * c
      && KeptNumer(num) <= TextNumer(num) && (Collected(ds) > 0 ==> TextNumer(num) < 2 * KeptNumer(num))
      && (KeptNumer(num) < TextNumer(num) <==> Dropped(ds))
  {
    hide Pow, NatOf;
    var ds := num.whole + num.frac;
    var kept := Min(|ds|, MAX_DIGITS);
    var z, t := |ds| - kept, TextScale(num);
    var rest := ds[kept..];
    assert ds == ds[..kept] + rest;
    NatOfConcat(ds[..kept], rest);
    NatOfBound(rest);
    ZeroDigits(rest);
    assert NatOf(rest) > 0 <==> Dropped(ds) by {
      if i :| 0 <= i < |rest| && rest[i] != '0' { assert ds[kept + i] != '0'; }
      if Dropped(ds) { var i :| MAX_DIGITS <= i < |ds| && ds[i] != '0'; assert rest[i - kept] != '0'; }
    }
    ShiftScale(Collected(ds), t, z);
    Shortfall(Collected(ds), Pow(10, z), NatOf(rest), Pow(10, Max0(t)));
  }

  lemma Shortfall(n: nat, w: nat, r: nat, p: nat)
    requires p > 0 && r < w
    ensures n * w * p <= (n * w + r) * p && (n > 0 ==> (n * w + r) * p < 2 * (n * w * p))
    ensures n * w * p < (n * w + r) * p <==> r > 0
  {
    assert (n * w + r) * p == n * w * p + r * p;
    MulMonotonic(p, 0, r);
    if r > 0 { MulMonotonic(p, 1, r); }
    MulMonotonic(p, r + 1, w);
    if n > 0 { MulMonotonic(w, 1, n); MulMonotonic(p, w, n * w); }
  }

  /** A middle between neighbouring doubles was passed by the digits dropped. */
  ghost predicate Lost(num: Numeral)
    requires AllDigits(num.whole) && AllDigits(num.frac)
  {
    exists e: int :: Normalised(KeptNumer(num), Denom(TextScale(num)), e) &&
      Overtaken(KeptNumer(num), TextNumer(num), Denom(TextScale(num)), e)
  }

  ghost predicate InNormalRange(num: Numeral)
    requires AllDigits(num.whole) && AllDigits(num.frac)
  {
    exists e: int :: Normalised(KeptNumer(num), Denom(TextScale(num)), e) && EMIN <= e < 971
  }

  /** How the answer for a numeral stands to the number all its digits denote. */
  ghost predicate AnswerIs(num: Numeral, r: Double)
    requires AllDigits(num.whole) && AllDigits(num.frac)
  {
    var n, d, kept, k := TextNumer(num), Denom(TextScale(num)), Collected(num.whole + num.frac), Scale(num);
    var right := IsRounded(r, num.neg, n, d);
    if kept == 0 || k < -400 then right <==> 2 * (n * Pow(2, 0 - EMIN)) <= d
    else if k > 350 || Beyond(KeptNumer(num), d) then r == Infinite(num.neg) && right
    else (!Lost(num) ==> (right <==> !Hazard(n, d))) && (Lost(num) && InNormalRange(num) ==> !right)
  }

  /** strtod on every numeral. The result is the double the exact decimal rounds to, except exactly: at a midpoint hazard among
      the subnormals; for numbers above half the smallest double that it takes for zero, having a decimal exponent below
      -400 or only zeros in its first 780 digits; and where a middle between neighbouring doubles is passed by digits
      dropped. */
  lemma StrtodIsRounded(s: string, i: nat, bits: nat, end: nat)
    requires Reads(s, i, bits, end) && !IsInf(s, SignEnd(s, i)) && !IsNan(s, SignEnd(s, i))
    requires var num := Lex(s, i); num.whole + num.frac != ""
    ensures end == Lex(s, i).end && AnswerIs(Lex(s, i), Unpack(bits))
  {
    hide Lex, Unpack, Dropped, Collected, IsRounded, Hazard, Numer, Denom, NatOf, MakeDouble, Pow, KeptNumer, TextNumer, Lost,
         InNormalRange, Beyond, Common;
    var num := Lex(s, i);
    var ds := num.whole + num.frac;
    var n, k, c := Collected(ds), Scale(num), Common(TextScale(num), Scale(num) - TextScale(num));
    KeptPart(num);
    if n == 0 || k < -400 {
      TinyIsZero(num.neg, n, k, Dropped(ds), bits, TextNumer(num), Denom(TextScale(num)));
    } else if k > 350 {
      HugeIsInfinite(num.neg, n, k, Dropped(ds), bits, TextNumer(num), c);
    } else if Dropped(ds) {
      LossyIsRounded(num, bits);
    } else {
      WholeAnswer(num, bits);
    }
  }

  /** With nothing dropped and a scale within strtod's limits. */
  lemma WholeIsRounded(num: Numeral, bits: nat)
    requires AllDigits(num.whole) && AllDigits(num.frac)
    requires var n, k := Collected(num.whole + num.frac), Scale(num);
      n > 0 && -400 <= k <= 350 && !Dropped(num.whole + num.frac) && Converted(num.neg, n, k, false, bits)
    ensures TextNumer(num) == KeptNumer(num) > 0
    ensures var n, d := TextNumer(num), Denom(TextScale(num));
      IsRounded(Unpack(bits), num.neg, n, d) <==> !Hazard(n, d)
  {
    hide Unpack, Dropped, Collected, IsRounded, Hazard, Numer, Denom, NatOf, MakeDouble, Pow, P2, KeptNumer, TextNumer,
         Common, Converted;
    var n, k, c := Collected(num.whole + num.frac), Scale(num), Common(TextScale(num), Scale(num) - TextScale(num));
    KeptPart(num);
    ConvertedIsRounded(num.neg, n, k, bits);
    SameQuotient(Numer(n, k), Denom(k), c, Unpack(bits), num.neg);
    NumerDenom(n, k);
    MulMonotonic(c, 1, Numer(n, k));
  }

  lemma WholeAnswer(num: Numeral, bits: nat)
    requires AllDigits(num.whole) && AllDigits(num.frac)
    requires var n, k := Collected(num.whole + num.frac), Scale(num);
      n > 0 && -400 <= k <= 350 && !Dropped(num.whole + num.frac) && Converted(num.neg, n, k, false, bits)
    ensures AnswerIs(num, Unpack(bits))
  {
    hide Unpack, Dropped, Collected, IsRounded, Hazard, Numer, Denom, NatOf, KeptNumer, TextNumer, Normalised, Converted;
    WholeIsRounded(num, bits);
    var u, d := TextNumer(num), Denom(TextScale(num));
    assert !Lost(num);
    if Beyond(u, d) {
      BeyondIsInfinite(num.neg, u, d);
      BeyondNoHazard(num.neg, Unpack(bits), u, d);
    }
  }

  lemma BeyondNoHazard(neg: bool, r: Double, n: nat, d: nat)
    requires n > 0 && d > 0 && Beyond(n, d)
    ensures !Hazard(n, d) && (IsRounded(r, neg, n, d) <==> r == Infinite(neg))
  {
    hide RoundAt, Normalised, HazardAt, IsRounded, Hazard;
    var e :| e > 971 && Normalised(n, d, e);
    RoundedIff(r, neg, n, d, e);
  }

  lemma LossyIsRounded(num: Numeral, bits: nat)
    requires AllDigits(num.whole) && AllDigits(num.frac)
    requires var n, k := Collected(num.whole + num.frac), Scale(num);
      n > 0 && -400 <= k <= 350 && Dropped(num.whole + num.frac) && Converted(num.neg, n, k, true, bits)
    ensures AnswerIs(num, Unpack(bits))
  {
    hide Unpack, Dropped, Collected, IsRounded, Hazard, Numer, Denom, NatOf, MakeDouble, Pow, P2, KeptNumer, TextNumer,
         Common, Normalised, Overtaken;
    var n, k, c := Collected(num.whole + num.frac), Scale(num), Common(TextScale(num), Scale(num) - TextScale(num));
    KeptPart(num);
    NumerDenom(n, k);
    MulMonotonic(c, 1, Numer(n, k));
    var u, v, d := KeptNumer(num), TextNumer(num), Denom(TextScale(num));
    var e := NormalisedExists(u, d);
    FlaggedIsRounded(num.neg, n, k, bits, c, v, e);
    BinadeDecides(num, e);
  }

  /** The binade of the kept digits is one, so what holds in it decides. */
  lemma BinadeDecides(num: Numeral, e: int)
    requires AllDigits(num.whole) && AllDigits(num.frac) && Normalised(KeptNumer(num), Denom(TextScale(num)), e)
    ensures Lost(num) <==> Overtaken(KeptNumer(num), TextNumer(num), Denom(TextScale(num)), e)
    ensures InNormalRange(num) <==> EMIN <= e < 971
    ensures Beyond(KeptNumer(num), Denom(TextScale(num))) <==> e > 971
  {
    hide Denom, NatOf, KeptNumer, TextNumer, Normalised, Overtaken;
    var u, d := KeptNumer(num), Denom(TextScale(num));
    forall g: int | Normalised(u, d, g)
      ensures g == e
    {
      NormalisedUnique(u, d, e, g);
    }
  }

  /** With more than 780 digits, no zero leading, and a scale from -400 on the answer is infinity, and right. */
  lemma LongIsInfinite(s: string, i: nat, bits: nat, end: nat)
    requires Reads(s, i, bits, end) && !IsInf(s, SignEnd(s, i)) && !IsNan(s, SignEnd(s, i))
    requires var num := Lex(s, i);
      var ds := num.whole + num.frac;
      |ds| > MAX_DIGITS && ds[0] != '0' && Scale(num) >= -400
    ensures var num := Lex(s, i);
      Unpack(bits) == Infinite(num.neg) && IsRounded(Unpack(bits), num.neg, TextNumer(num), Denom(TextScale(num)))
  {
    hide Lex, Unpack, Collected, IsRounded, Numer, Denom, NatOf, MakeDouble, Pow, KeptNumer, TextNumer, Beyond, Common, Reads;
    var num := Lex(s, i);
    var ds := num.whole + num.frac;
    var n, k, c := Collected(ds), Scale(num), Common(TextScale(num), Scale(num) - TextScale(num));
    StrtodIsRounded(s, i, bits, end);
    KeptPart(num);
    assert n >= Pow(10, MAX_DIGITS - 1) by { LeadingKept(ds); }
    if k <= 350 {
      FarAbove(k);
      PowMonotonic(10, 742, MAX_DIGITS - 1);
      NumerDenom(n, k);
      PowMonotonic(10, 0, Max0(k));
      PowZero(10);
      MulMonotonic(n, 1, Pow(10, Max0(k)));
      var b := Denom(k) * Pow(2, 971);
      MulMonotonic(c, TWO53 * b, Numer(n, k));
      MulMonotonic(c, 1, Denom(k));
      Regroup(Denom(k), c, Pow(2, 971));
      MulAssoc(TWO53, b, c);
      BeyondFrom(KeptNumer(num), Denom(TextScale(num)));
    }
  }

  lemma LeadingKept(ds: string)
    requires AllDigits(ds) && |ds| > MAX_DIGITS && ds[0] != '0'
    ensures Collected(ds) >= Pow(10, MAX_DIGITS - 1)
  {
    NatOfLead(ds[..MAX_DIGITS]);
  }

  // ---- where strtod is wrong ----

  /** 1.9 behind 779 zeros reads as 1. */
  lemma LeadingZerosLose(bits: nat, end: nat)
    requires Reads(Zeros(779) + "1.9", 0, bits, end)
    ensures Unpack(bits) == Finite(false, TWO52, -52) && !IsRounded(Unpack(bits), false, 19, 10)
  {
    hide Unpack, MakeDouble, IsRounded, Hazard, Lex, IsInf, IsNan, Collected, Dropped, Reads, Converted;
    var s := Zeros(779) + "1.9";
    LexLeadingZeros();
    LeadingZerosKept();
    assert Converted(false, 1, 0, true, bits) by { ReadsConverted(s, bits, end); }
    assert Numer(1, 0) == 1 && Denom(0) == 1 by { PowZero(10); }
    assert P2(52) == TWO52 && P2(-52) == 1 by { Pow2To54(); }
    FlaggedIsRounded(false, 1, 0, bits, 10, 19, -52);
    var j := TWO53 + 1;
    assert Midway(j) && Between(2 * (10 * P2(52)), j, 10 * P2(-52), 2 * (19 * P2(52)));
    var m, f := FlaggedPair(false, 1, 0, bits, 10, -52);
    CutIs(10, 10, -52);
    DivModUnique(2 * (10 * P2(52)), 10 * P2(-52), TWO53, 0);
    MakeDoubleDenotes(false, m, f);
  }

  lemma ReadsConverted(s: string, bits: nat, end: nat)
    requires Reads(s, 0, bits, end) && !IsInf(s, SignEnd(s, 0)) && !IsNan(s, SignEnd(s, 0))
    requires var num := Lex(s, 0); num.whole + num.frac != ""
    ensures var num := Lex(s, 0);
      end == num.end && Converted(num.neg, Collected(num.whole + num.frac), Scale(num), Dropped(num.whole + num.frac), bits)
  {
    hide Lex, Converted, IsInf, IsNan, Collected, Dropped;
  }

  lemma LexLeadingZeros()
    ensures var s := Zeros(779) + "1.9";
      Lex(s, 0) == Numeral(false, Zeros(779) + "1", "9", 0, 782) && !IsInf(s, SignEnd(s, 0)) && !IsNan(s, SignEnd(s, 0))
  {
    hide Digits;
    var s := Zeros(779) + "1.9";
    assert s[0] == '0' && s[780] == '.' && s[781] == '9' && |s| == 782;
    assert s[0..780] == Zeros(779) + "1" && s[781..782] == "9";
    DigitsPrefix(s, 0, Zeros(779) + "1");
    DigitsPrefix(s, 781, "9");
  }

  lemma LeadingZerosKept()
    ensures var ds := Zeros(779) + "1" + "9";
      AllDigits(ds) && Collected(ds) == 1 && Dropped(ds) && |ds| == 781
  {
    hide NatOf;
    var ds := Zeros(779) + "1" + "9";
    assert ds[..MAX_DIGITS] == Zeros(779) + "1";
    ZerosAreZero(779);
    NatOfSnoc(Zeros(779), '1');
    assert ds[780] == '9';
  }

  /** 1.000...0 with more than 400 zeros reads as zero. */
  lemma ManyZerosReadAsZero(j: nat, bits: nat, end: nat)
    requires 400 < j && Reads("1." + Zeros(j), 0, bits, end)
    ensures Unpack(bits) == Finite(false, 0, EMIN)
    ensures var num := Lex("1." + Zeros(j), 0);
      !IsRounded(Unpack(bits), false, Numer(NatOf(num.whole + num.frac), TextScale(num)), Denom(TextScale(num)))
  {
    hide Unpack, MakeDouble, IsRounded, Numer, Denom, Pow, NatOf;
    var s, ds := "1." + Zeros(j), "1" + Zeros(j);
    LexManyZeros(j);
    OneAndZeros(j);
    PowZero(2);
    PowMonotonic(2, 0, 0 - EMIN);
    MulMonotonic(Pow(10, j), 1, Pow(2, 0 - EMIN));
    PowZero(10);
    PowMonotonic(10, 0, j);
    assert Numer(NatOf(ds), 0 - j) == NatOf(ds) && Denom(0 - j) == Pow(10, j) by { ScaleParts(NatOf(ds), 0 - j); }
    TinyIsZero(false, Collected(ds), Scale(Lex(s, 0)), Dropped(ds), bits, NatOf(ds), Pow(10, j));
  }

  lemma OneAndZeros(j: nat)
    ensures var ds := "1" + Zeros(j);
      AllDigits(ds) && NatOf(ds) == Pow(10, j) && !Dropped(ds) && Collected(ds) > 0
  {
    hide NatOf, Pow;
    var ds := "1" + Zeros(j);
    assert NatOf("1") == 1 by { OneIs(); }
    AppendZeros("1", j);
    var kept := Min(|ds|, MAX_DIGITS);
    assert ds[..kept] == "1" + Zeros(kept - 1);
    AppendZeros("1", kept - 1);
    PowZero(10);
    PowMonotonic(10, 0, kept - 1);
  }

  lemma OneIs()
    ensures NatOf("1") == 1
  {
    assert "1"[..0] == "";
  }

  /** A little above 2.5 * 2^-1074, in units of 10^-400: a number of 78 digits. */
  ghost predicate JustOverMidpoint(n: nat) {
    PowZero(2);
    PowMonotonic(2, 0, 1 - EMIN);
    n == 5 * Pow(10, 400) / Pow(2, 1 - EMIN) + 1
  }

  /** The hazard is real: this 78-digit number times 10^-400, a hair above 2.5 * 2^-1074, comes out one
      subnormal too small. */
  lemma HazardOccurs(neg: bool, n: nat, bits: nat)
    requires JustOverMidpoint(n)
    requires Converted(neg, n, -400, false, bits)
    ensures Hazard(Numer(n, -400), Denom(-400)) && !IsRounded(Unpack(bits), neg, Numer(n, -400), Denom(-400))
  {
    hide Pow, Unpack, MakeDouble, IsRounded, Rne, MidpointHazard, P2;
    var t, w, c, e := Pow(10, 400), Pow(2, 1 - EMIN), Pow(2, 50), EMIN - 51;
    PowZero(10);
    assert Numer(n, -400) == n && Denom(-400) == t;
    DivMod(5 * t, w);
    var gap := w - 5 * t % w;
    PowAdd(2, 1 - EMIN, 50);
    P2At(e);
    JustAbove(n, 5 * t / w, 5 * t % w, t, w, c);
    GapIsSmall(gap, w, c, t);
    var a := n * P2(-e);
    assert a == 5 * c * t + gap * c;
    RneOffset(a, t, 5 * c, gap * c);
    DivModUnique(5 * c, 2 * c, 2, c);
    Powers50();
    assert Normalised(n, t, e);
    HazardIs(a, t, c, gap);
    assert HazardAt(n, t, e);
    ConvertedIsRounded(neg, n, -400, bits);
  }

  /** The same as a text: the numeral of that number with e-400 is read one subnormal too small. */
  lemma HazardIsRead(n: nat, bits: nat, end: nat)
    requires JustOverMidpoint(n) && Reads(Dec(n) + "e" + "-" + "400", 0, bits, end)
    ensures end == |Dec(n)| + 5
    ensures !IsRounded(Unpack(bits), false, Numer(n, -400), Denom(-400))
  {
    hide Pow, Unpack, MakeDouble, IsRounded, Hazard, Numer, Denom, NatOf, Lex, IsInf, IsNan, Converted, JustOverMidpoint,
         Dec, Dropped;
    var s := Dec(n) + "e" + "-" + "400";
    DecDenotes(n);
    assert "400"[..2] == "40" && "40"[..1] == "4" && "4"[..0] == "";
    assert ExpValue("4") == 4 && ExpValue("40") == 40 && ExpValue("400") == 400;
    LexWhole(Dec(n), "-", "400");
    HazardIsShort(n);
    assert !Dropped(Dec(n)) by { ShortKeepsAll(Dec(n)); }
    assert Dec(n) + "" == Dec(n) && Dec(n)[..|Dec(n)|] == Dec(n);
    HazardOccurs(false, n, bits);
  }

  lemma ShortKeepsAll(ds: string)
    requires |ds| <= MAX_DIGITS
    ensures !Dropped(ds)
  {}

  lemma HazardIsShort(n: nat)
    requires JustOverMidpoint(n)
    ensures 0 < |Dec(n)| <= 402
  {
    hide Pow;
    PowZero(2);
    PowZero(10);
    PowMonotonic(2, 0, 1 - EMIN);
    var t, w := 5 * Pow(10, 400), Pow(2, 1 - EMIN);
    DivMod(t, w);
    MulMonotonic(t / w, 1, w);
    PowMonotonic(10, 0, 400);
    PowAdd(10, 400, 1);
    assert Pow(10, 1) == 10 by { TenIsTen(); }
    DecLength(n, 401);
  }

  lemma TenIsTen()
    ensures Pow(10, 1) == 10
  {}

  lemma JustAbove(n: nat, q: int, r: int, t: nat, w: nat, c: nat)
    requires 5 * t == q * w + r && n == q + 1
    ensures n * (w * c) == 5 * c * t + (w - r) * c
  {
    assert n * w == 5 * t + (w - r);
    assert n * (w * c) == n * w * c;
  }

  lemma Powers50()
    ensures Pow(2, 51) == 2 * Pow(2, 50) && Pow(2, 52) == 4 * Pow(2, 50)
    ensures TWO52 == 4 * Pow(2, 50) && TWO53 == 8 * Pow(2, 50)
  {
    hide Pow;
    PowAdd(2, 50, 1);
    PowAdd(2, 50, 2);
    Two();
    Pow2To54();
  }

  lemma HazardIs(a: nat, t: nat, c: nat, gap: int)
    requires t > 0 && c > 0 && gap * c > 0 && Pow(2, 51) == 2 * c && Pow(2, 50) == c
    requires a == 5 * c * t + gap * c && Rne(a, t) == 5 * c && 5 * c / (2 * c) == 2 && 5 * c % (2 * c) == c
    ensures MidpointHazard(a, t * 1, 51)
  {
    hide Pow, Rne;
  }

  lemma P2At(e: int)
    requires e < 0
    ensures P2(-e) == Pow(2, -e) && P2(e) == 1
  {
  }

  lemma Two()
    ensures Pow(2, 1) == 2 && Pow(2, 2) == 4
  {
  }

  lemma GapIsSmall(gap: int, w: int, c: int, t: int)
    requires 0 < gap <= w == Pow(2, 1 - EMIN) && c == Pow(2, 50) && t == Pow(10, 400)
    ensures 0 < gap * c && 2 * (gap * c) < t
  {
    hide Pow;
    PowAdd(2, 1 - EMIN, 50);
    MulMonotonic(c, gap, w);
    MulMonotonic(c, 1, gap);
    PowBaseMonotonic(8, 10, 400);
    assert Pow(2, 3) == 8 by { Eight(); }
    PowPow(2, 3, 400);
    var x := 1 - EMIN + 50;
    PowStrict(2, x, x + 1);
    PowStrict(2, x + 1, 1200);
  }

  lemma Eight()
    ensures Pow(2, 3) == 8
  {
  }

  lemma LexManyZeros(j: nat)
    ensures var s := "1." + Zeros(j);
      Lex(s, 0) == Numeral(false, "1", Zeros(j), 0, 2 + j) && !IsInf(s, SignEnd(s, 0)) && !IsNan(s, SignEnd(s, 0))
  {
    var s := "1." + Zeros(j);
    assert Digits(s, 1) == "";
    DigitsZeros(s, 2, j);
  }

  lemma {:induction false} DigitsZeros(s: string, i: nat, j: nat)
    requires i + j == |s| && forall k :: i <= k < |s| ==> s[k] == '0'
    ensures Digits(s, i) == Zeros(j)
    decreases j
  {
    if j > 0 { DigitsZeros(s, i + 1, j - 1); }
  }
}
