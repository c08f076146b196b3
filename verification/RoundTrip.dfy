/** Printing a double with %.16e and reading it back with strtod returns the same double. */
module RoundTrip {
  import opened Powers
  import opened Decimal
  import opened Rounding
  import opened Binary64
  import opened Bounds
  import opened DecimalToBinary
  import opened Strtod
  import opened StrtodCorrect
  import opened FloatFormat
  import opened FloatEmit
  import opened FloatPrint

  // ---- reading the printed text ----

  /** A printed number: sign, one digit, point, fraction, exponent suffix. */
  function Text(neg: bool, r: nat, prec: nat, ex: int): string {
    (if neg then "-" else "") + (Fixed(r, prec, false) + ExpSuffix(ex))
  }

  /** The lexer finds exactly the parts that were printed. */
  lemma LexText(neg: bool, r: nat, prec: nat, ex: int)
    requires prec > 0 && Pow(10, prec) <= r < Pow(10, prec + 1) && -1000 < ex < 1000
    ensures var t := Text(neg, r, prec, ex);
      var num := Lex(t, 0);
      && num.neg == neg && |num.whole| == 1 && |num.frac| == prec
      && NatOf(num.whole + num.frac) == r && num.exponent == ex && num.end == |t|
      && SpaceEnd(t, 0) == 0 && !IsInf(t, SignEnd(t, 0)) && !IsNan(t, SignEnd(t, 0))
  {
    hide NatOf, Digits, Dec, Pad, ExpValue, Pow, Lex, IsInf, IsNan, SpaceEnd, SignEnd, Text, Shape;
    var p := Pow(10, prec);
    LeadingDigit(r, prec);
    var w, f := Dec(r / p), Pad(r % p, prec);
    PadDenotes(r % p, prec);
    NatOfConcat(w, f);
    var ds := (if -10 < ex < 10 then "0" else "") + Dec(Abs(ex));
    ExponentDigits(ex);
    TextShape(neg, r, prec, ex, w, f, ds);
    LexShape(neg, w, f, ex < 0, ds);
  }

  lemma TextShape(neg: bool, r: nat, prec: nat, ex: int, w: string, f: string, ds: string)
    requires prec > 0 && w == Dec(r / Pow(10, prec)) && f == Pad(r % Pow(10, prec), prec)
    requires ds == (if -10 < ex < 10 then "0" else "") + Dec(Abs(ex))
    ensures Text(neg, r, prec, ex) == Shape(neg, w, f, ex < 0, ds)
  {
    hide Dec, Pad, Pow;
    var sign, esign, lead := if neg then "-" else "", if ex < 0 then "-" else "+", if -10 < ex < 10 then "0" else "";
    assert |f| == prec by { PadDenotes(r % Pow(10, prec), prec); }
    Regrouped(sign, w, f, esign, lead, Dec(Abs(ex)));
  }

  lemma Regrouped(a: string, w: string, f: string, b: string, l: string, d: string)
    ensures a + ((w + ("." + f)) + ("e" + b + l + d)) == a + w + "." + f + "e" + b + (l + d)
  {}

  function Shape(neg: bool, w: string, f: string, eneg: bool, ds: string): string {
    (if neg then "-" else "") + w + "." + f + "e" + (if eneg then "-" else "+") + ds
  }

  lemma LexShape(neg: bool, w: string, f: string, eneg: bool, ds: string)
    requires AllDigits(w) && |w| == 1 && AllDigits(f) && AllDigits(ds) && ds != ""
    ensures var t := Shape(neg, w, f, eneg, ds);
      && Lex(t, 0) == Numeral(neg, w, f, if eneg then 0 - ExpValue(ds) else ExpValue(ds), |t|)
      && SpaceEnd(t, 0) == 0 && !IsInf(t, SignEnd(t, 0)) && !IsNan(t, SignEnd(t, 0))
  {
    hide Digits, ExpValue, Shape, AllDigits, Exponent;
    var t := Shape(neg, w, f, eneg, ds);
    var n := if neg then 1 else 0;
    var j := n + 2 + |f|;
    ShapeParts(neg, w, f, eneg, ds);
    FirstDigit(w);
    assert SignEnd(t, 0) == n;
    DigitsPrefix(t, n, w);
    DigitsPrefix(t, n + 2, f);
    FirstDigit(ds);
    ExponentAt(t, j, if eneg then "-" else "+", ds);
  }

  lemma ShapeParts(neg: bool, w: string, f: string, eneg: bool, ds: string)
    requires |w| == 1
    ensures var t := Shape(neg, w, f, eneg, ds);
      var n := if neg then 1 else 0;
      var j := n + 2 + |f|;
      && |t| == j + 2 + |ds|
      && (neg ==> t[0] == '-') && t[n] == w[0] && t[n..n + 1] == w && t[n + 1] == '.' && t[n + 2..j] == f
      && t[j] == 'e' && t[j + 1] == (if eneg then '-' else '+') && t[j + 2..] == ds && t[j + 2..j + 2 + |ds|] == ds
  {
  }

  lemma LeadingDigit(r: nat, prec: nat)
    requires Pow(10, prec) <= r < Pow(10, prec + 1)
    ensures 1 <= r / Pow(10, prec) < 10 && 0 <= r % Pow(10, prec) < Pow(10, prec)
    ensures |Dec(r / Pow(10, prec))| == 1 && AllDigits(Dec(r / Pow(10, prec)))
    ensures NatOf(Dec(r / Pow(10, prec))) == r / Pow(10, prec)
    ensures r == r / Pow(10, prec) * Pow(10, prec) + r % Pow(10, prec)
  {
    hide NatOf;
    var p := Pow(10, prec);
    DivMod(r, p);
    var q := r / p;
    if q >= 10 { MulMonotonic(p, 10, q); }
    if q < 1 { MulMonotonic(p, q, 0); }
    DecDenotes(q);
  }

  lemma ExponentDigits(ex: int)
    requires -1000 < ex < 1000
    ensures var ds := (if -10 < ex < 10 then "0" else "") + Dec(Abs(ex));
      AllDigits(ds) && ds != "" && ExpValue(ds) == Abs(ex)
  {
    hide ExpValue, NatOf;
    var d := Dec(Abs(ex));
    DecDenotes(Abs(ex));
    if -10 < ex < 10 {
      NatOfConcat("0", d);
      ZerosAreZero(1);
      assert Zeros(1) == "0";
    } else {
      assert "" + d == d;
    }
  }

  // ---- the spacing argument ----

  /** 10^k as a real. */
  ghost function Ten(k: int): (r: real)
  {
    Ratio(Pow(10, Max0(k)), Pow(10, Max0(-k)))
  }

  lemma TenPositive(k: int)
    ensures Ten(k) > 0.0
  {
    hide Pow;
  }

  lemma TimesRatio(a: nat, b: nat, c: nat, d: nat)
    requires b > 0 && d > 0
    ensures b * d > 0 && Times(Ratio(a, b), Ratio(c, d)) == Ratio(a * c, b * d)
  {
    MulMonotonic(b, 1, d);
    RealMul(a, c);
    RealMul(b, d);
    var x, y := Ratio(a, b), Ratio(c, d);
    assert x * (b as real) == a as real && y * (d as real) == c as real;
    assert (x * y) * (b as real * d as real) == a as real * c as real;
  }

  lemma RatioEqual(a: nat, b: nat, c: nat, d: nat)
    requires b > 0 && d > 0 && a * d == c * b
    ensures Ratio(a, b) == Ratio(c, d)
  {
    RealMul(a, d);
    RealMul(c, b);
    var x, y := Ratio(a, b), Ratio(c, d);
    assert x * (b as real) == a as real && y * (d as real) == c as real;
    assert (x - y) * (b as real * d as real) == 0.0;
  }

  /** A decimal r * 10^k as a real. */
  lemma DecimalReal(r: nat, k: int)
    ensures Ratio(Numer(r, k), Denom(k)) == Times(r as real, Ten(k))
  {
    hide Pow, Times;
    TimesRatio(r, 1, Pow(10, Max0(k)), Pow(10, Max0(-k)));
    assert Ratio(r, 1) == r as real;
  }

  /** xn/xd in units of 10^-p. */
  lemma ScaledReal(xn: nat, xd: nat, p: int)
    requires xd > 0
    ensures xd * Pow(10, Max0(-p)) > 0
    ensures Ratio(xn, xd) == Times(Ratio(xn * Pow(10, Max0(p)), xd * Pow(10, Max0(-p))), Ten(-p))
  {
    hide Pow, Times, Ratio;
    var a, b := Pow(10, Max0(p)), Pow(10, Max0(-p));
    MulMonotonic(xd, 1, b);
    TimesRatio(xn * a, xd * b, b, a);
    assert xn * a * b * xd == xn * (xd * b * a);
    RatioEqual(xn * a * b, xd * b * a, xn, xd);
  }

  lemma TenStepReal(k: int)
    ensures Times(10.0, Ten(k)) == Ten(k + 1)
  {
    hide Pow, Times, Ratio;
    TimesRatio(10, 1, Pow(10, Max0(k)), Pow(10, Max0(-k)));
    TenIs();
    if k >= 0 {
      FloatRound.TenStep(k + 1);
      assert Max0(-k) == Max0(-k - 1) == 0;
      RatioEqual(10 * Pow(10, k), 1 * Pow(10, 0), Pow(10, k + 1), Pow(10, 0));
    } else {
      FloatRound.TenStep(-k);
      PowZero(10);
      RatioEqual(10 * Pow(10, 0), 1 * Pow(10, -k), Pow(10, 0), Pow(10, -k - 1));
    }
  }

  lemma TenIs()
    ensures Ratio(10, 1) == 10.0
  {
  }

  /** A 17-digit rounding is within half of 10^-16 of the number. */
  lemma SeventeenDigits(xn: nat, xd: nat, r: nat, ex: int) returns (t: real)
    requires xd > 0 && ExpRounding(xn, xd, 16, r, ex)
    ensures t > 0.0 && 2.0 * RAbs(Ratio(Numer(r, ex - 16), Denom(ex - 16)) - Ratio(xn, xd)) <= t
    ensures 10000000000000000.0 * t <= Ratio(xn, xd)
    ensures Pow(10, 16) <= r < Pow(10, 17)
  {
    hide Pow, Times, Ratio, Ten, Numer, Denom, RoundTens, RAbs, Magnitude;
    var x: int :| Magnitude(xn, xd, x) &&
      var r0 := RoundTens(xn, xd, 16 - x);
      if r0 == Pow(10, 17) then r == Pow(10, 16) && ex == x + 1 else r == r0 && ex == x;
    var r0 := RoundTens(xn, xd, 16 - x);
    t := Ten(x - 16);
    TenPositive(x - 16);
    RoundedClose(xn, xd, x, r0, t);
    DecimalReal(r, ex - 16);
    if r0 == Pow(10, 17) {
      TenPow17();
      TenStepReal(x - 16);
      TimesTens(Pow(10, 16) as real, t);
    }
  }

  /** Rounding to units of t = 10^(x-16), where the number has seventeen digits before the point. */
  lemma RoundedClose(xn: nat, xd: nat, x: int, r0: nat, t: real)
    requires xd > 0 && Magnitude(xn, xd, x) && r0 == RoundTens(xn, xd, 16 - x) && t == Ten(x - 16) && t > 0.0
    ensures 2.0 * RAbs(Times(r0 as real, t) - Ratio(xn, xd)) <= t
    ensures 10000000000000000.0 * t <= Ratio(xn, xd)
    ensures Pow(10, 16) <= r0 <= Pow(10, 17) && Pow(10, 17) == 10 * Pow(10, 16)
  {
    hide Pow, Times, Ratio, Rne, Ten, RAbs, Magnitude;
    var a, b := xn * Pow(10, Max0(16 - x)), xd * Pow(10, Max0(x - 16));
    Lead17(xn, xd, x, a, b);
    ScaledReal(xn, xd, 16 - x);
    TenPow17();
    RneBounds(a, b, Pow(10, 16), Pow(10, 17));
    HalfUnit(a, b, r0);
    CloseInUnits(r0 as real, Ratio(a, b), t);
  }

  lemma CloseInUnits(r: real, y: real, t: real)
    requires t > 0.0 && RAbs(r - y) <= 0.5 && y >= 10000000000000000.0
    ensures 2.0 * RAbs(Times(r, t) - Times(y, t)) <= t && 10000000000000000.0 * t <= Times(y, t)
  {
    hide Times;
    TimesGap(r, y, t);
    TimesOrder(0.5, RAbs(r - y), t);
    TimesOrder(y, 10000000000000000.0, t);
    ThroughTimes(t);
  }

  lemma TenPow17()
    ensures Pow(10, 16) == 10000000000000000 && Pow(10, 17) == 100000000000000000
  {
    TenTo16();
    assert Pow(10, 17) == 10 * Pow(10, 16);
  }

  lemma ThroughTimes(t: real)
    ensures Times(0.5, t) == 0.5 * t && Times(10000000000000000.0, t) == 10000000000000000.0 * t
  {
  }

  lemma TimesTens(x: real, t: real)
    ensures Times(x, Times(10.0, t)) == Times(10.0 * x, t)
  {
  }

  /** The scaled number has seventeen digits before the point. */
  lemma Lead17(xn: nat, xd: nat, x: int, a: nat, b: nat)
    requires xd > 0 && Magnitude(xn, xd, x)
    requires a == xn * Pow(10, Max0(16 - x)) && b == xd * Pow(10, Max0(x - 16))
    ensures b > 0 && Pow(10, 16) * b <= a <= Pow(10, 17) * b
    ensures 10000000000000000.0 <= Ratio(a, b)
  {
    hide Pow, Ratio;
    MulMonotonic(xd, 1, Pow(10, Max0(x - 16)));
    Shift(xn, xd, x, 16, 16 - x);
    Shift(xn, xd, x + 1, 17, 16 - x);
    TenPow17();
    RatioAtLeast(a, b, Pow(10, 16));
  }

  lemma RatioAtLeast(a: nat, b: nat, lo: nat)
    requires b > 0 && lo * b <= a
    ensures lo as real <= Ratio(a, b)
  {
    MulMonotonic(b, 1, 1);
    assert a < (a + 1) * b by { MulMonotonic(a + 1, 1, b); }
    RatioBounds(a, b, lo, a + 1);
  }

  /** Moving a power of ten across a comparison. */
  lemma Shift(xn: nat, xd: nat, x: int, k: nat, p: int)
    requires p == k - x
    ensures xd * Pow(10, Max0(x)) <= xn * Pow(10, Max0(-x)) <==> Pow(10, k) * (xd * Pow(10, Max0(-p))) <= xn * Pow(10, Max0(p))
  {
    hide Pow;
    var a, b, c, d, w := Pow(10, Max0(x)), Pow(10, Max0(-x)), Pow(10, Max0(p)), Pow(10, Max0(-p)), Pow(10, k);
    PowAdd(10, k, Max0(-p));
    PowAdd(10, k + Max0(-p), Max0(-x));
    PowAdd(10, Max0(x), Max0(p));
    assert k + Max0(-p) + Max0(-x) == Max0(x) + Max0(p);
    ShiftAt(xn, xd, a, b, c, d, w);
  }

  lemma ShiftAt(xn: nat, xd: nat, a: nat, b: nat, c: nat, d: nat, w: nat)
    requires b > 0 && c > 0 && w * d * b == a * c
    ensures xd * a <= xn * b <==> w * (xd * d) <= xn * c
  {
    assert (xd * a) * c == xd * (a * c);
    assert (w * (xd * d)) * b == xd * (w * d * b);
    assert (xn * b) * c == (xn * c) * b;
    OrderByFactor(xd * a, xn * b, c);
    OrderByFactor(w * (xd * d), xn * c, b);
  }

  lemma HalfUnit(a: nat, b: nat, r: nat)
    requires b > 0 && r == Rne(a, b)
    ensures RAbs(r as real - Ratio(a, b)) <= 0.5
  {
    hide Rne, Times, Ratio;
    RneHalf(a, b);
    DistReal(a, b, r);
    TimesOrder(0.5, RAbs(Ratio(a, b) - r as real), b as real);
    TimesHalf(b as real);
  }

  lemma TimesHalf(b: real)
    ensures Times(0.5, b) == 0.5 * b
  {
  }

  lemma ValueIsRatio(m: nat, e2: int)
    ensures Ratio(Num(m, e2), Den(e2)) == Value(m, e2)
  {
    PowZero(2);
    hide Pow;
    if e2 >= 0 {
      RealMul(m, Pow(2, e2));
    } else {
      Invert(m as real, Pow(2, -e2) as real);
    }
  }

  lemma Invert(x: real, y: real)
    requires y > 0.0
    ensures x / y == x * (1.0 / y)
  {
  }

  /** A double this close to v is the only one as close: 10^16 > 2^53, and at a power of two, where the
      gap below is half as wide, 10^16 > 2 * 2^52. */
  lemma OnlyNeighbour(v: real, m: nat, e2: int, k: nat, f: int, t: real)
    requires Canonical(m, e2) && Canonical(k, f) && Nearest(v, k, f)
    requires 2.0 * RAbs(v - Value(m, e2)) <= t && 10000000000000000.0 * t <= Value(m, e2)
    ensures (k, f) == (m, e2)
  {
    hide Scale2, Times;
    var u := Scale2(e2);
    NearestGives(v, k, f, m, e2);
    TimesOrder(m as real, TWO53 as real, u);
    BigTimes(u);
    if (k, f) != (m, e2) {
      Separation(m, e2, k, f);
    }
  }

  lemma BigTimes(u: real)
    ensures Times(TWO53 as real, u) == 9007199254740992.0 * u && Times(TWO52 as real, u) == 4503599627370496.0 * u
    ensures Times(0.5, u) == 0.5 * u
  {
  }

  /** The rounding of a 17-digit decimal of a double is that double. */
  lemma SeventeenDigitsReturn(neg: bool, m: nat, e2: int, r: nat, ex: int, d: Double)
    requires Canonical(m, e2) && -1074 < e2 <= 971
    requires ExpRounding(Num(m, e2), Den(e2), 16, r, ex)
    ensures IsRounded(d, neg, Numer(r, ex - 16), Denom(ex - 16)) <==> d == Finite(neg, m, e2)
    ensures !Hazard(Numer(r, ex - 16), Denom(ex - 16))
  {
    hide Pow, Scale2, Times, Ratio, Normalised, RoundAt, ExpRounding, Nearest, Value, Numer, Denom, HazardAt;
    var t := SeventeenDigits(Num(m, e2), Den(e2), r, ex);
    ValueIsRatio(m, e2);
    var k := ex - 16;
    NumerDenom(r, k);
    var e := NormalisedExists(Numer(r, k), Denom(k));
    RoundAtNearest(Numer(r, k), Denom(k), e);
    var (m', f) := Renorm(RoundAt(Numer(r, k), Denom(k), e), e);
    OnlyNeighbour(Ratio(Numer(r, k), Denom(k)), m, e2, m', f, t);
    RoundedIff(d, neg, Numer(r, k), Denom(k), e);
  }

  // ---- the round trip ----

  lemma PrintedRange(m: nat, e2: int, r: nat, ex: int)
    requires Canonical(m, e2) && e2 <= 971 && FitsDigits(m, e2)
    requires ExpRounding(Num(m, e2), Den(e2), 16, r, ex)
    ensures -301 <= ex <= 317
  {
    hide Pow, RoundTens;
    var x: int :| Magnitude(Num(m, e2), Den(e2), x) && (ex == x || ex == x + 1);
    PowZero(10);
    if x > 316 {
      PowStrict(10, 316, x);
      if e2 >= 0 { DoubleFits(m, e2); NumIs(m, e2); } else { SmallWhole(m, e2, x); }
    }
    if x < -301 {
      NotTiny(m, e2, x);
    }
  }

  lemma NotTiny(m: nat, e2: int, x: int)
    requires m > 0 && FitsDigits(m, e2) && x < -301
    ensures !Magnitude(Num(m, e2), Den(e2), x)
  {
    hide Pow;
    PowZero(10);
    PowZero(2);
    var k := Max0(-e2);
    if e2 < 0 {
      BufferDigits();
      MulMonotonic(Pow(10, k), 1, m);
      PowOrder(10, k, 9 * Bignum.CAP);
    }
    PowMonotonic(2, k, 900);
    StrtodCorrect.Eight();
    PowPow(2, 3, 300);
    PowBaseMonotonic(8, 10, 300);
    PowMonotonic(10, 300, -x - 1);
    MulMonotonic(m, 1, P2(e2));
    MulMonotonic(Pow(10, -x - 1), 1, Num(m, e2));
    assert Den(e2) == Pow(2, k);
  }

  lemma PrintedAnswers(r: nat, k: int)
    requires r < Pow(10, 17) && -400 <= k <= 301
    ensures k > 0 ==> Answers(r, k)
  {
    hide Pow, Answers, Stops, FitsBuffer;
    BufferDigits();
    PowMonotonic(10, Max0(k), 301);
    MulBounds(r, Pow(10, 17), Pow(10, Max0(k)), Pow(10, 301));
    PowAdd(10, 17, 301);
    FloatRound.TenStep(319);
    PowMonotonic(10, 319, 9 * Bignum.CAP);
    HalfFits(r, k);
    FittingStops(r, k);
    if k > 0 { StopsIff(r, k); }
  }

  /** Reading what %.16e printed gives back the sign, the significand and the exponent. */
  lemma PrintReadIsIdentity(neg: bool, m: nat, e2: int, r: nat, ex: int, bits: nat, end: nat)
    requires Canonical(m, e2) && -1074 < e2 <= 971 && FitsDigits(m, e2)
    requires ExpRounding(Num(m, e2), Den(e2), 16, r, ex)
    requires Reads(Text(neg, r, 16, ex), 0, bits, end)
    ensures Unpack(bits) == Finite(neg, m, e2) && end == |Text(neg, r, 16, ex)|
  {
    hide Pow, Unpack, Text, Lex, ExpRounding, IsRounded, Hazard, Numer, Denom, FitsDigits, NatOf, Num, Den, IsInf, IsNan,
         Converted, Dropped, KeptNumer;
    var t := SeventeenDigits(Num(m, e2), Den(e2), r, ex);
    PrintedRange(m, e2, r, ex);
    LexText(neg, r, 16, ex);
    var s := Text(neg, r, 16, ex);
    var num := Lex(s, 0);
    KeptAll(num.whole + num.frac);
    ReadsConverted(s, bits, end);
    PowMonotonic(10, 0, 16);
    WholeIsRounded(num, bits);
    SeventeenDigitsReturn(neg, m, e2, r, ex, Unpack(bits));
  }

  /** The two runtime functions composed. */
  method PrintThenRead(neg: bool, m: nat, e2: int) returns (bits: nat)
    requires Canonical(m, e2) && -1074 < e2 <= 971 && FitsDigits(m, e2)
    ensures Unpack(bits) == Finite(neg, m, e2)
  {
    hide Pow, Unpack, Lex, ExpRounding, NatOf, Reads, SpaceEnd, FitsDigits, Answers, Fixed, ExpSuffix, Num, Den;
    var body := new char[BODY_SIZE];
    var bl := EmitFloat(m, e2, ConvE, 16, false, body);
    ghost var r: nat, ex: int :| ExpRounding(Num(m, e2), Den(e2), 16, r, ex) && body[..bl] == Fixed(r, 16, false) + ExpSuffix(ex);
    var s := (if neg then "-" else "") + body[..bl];
    assert s == Text(neg, r, 16, ex);
    ghost var t := SeventeenDigits(Num(m, e2), Den(e2), r, ex);
    PrintedRange(m, e2, r, ex);
    LexText(neg, r, 16, ex);
    PrintedAnswers(r, ex - 16);
    ghost var num := Lex(s, 0);
    KeptAll(num.whole + num.frac);
    var end;
    bits, end := Strtod.Strtod(s);
    PrintReadIsIdentity(neg, m, e2, r, ex, bits, end);
  }

  lemma KeptAll(ds: string)
    requires AllDigits(ds) && |ds| <= MAX_DIGITS
    ensures Collected(ds) == NatOf(ds) && !Dropped(ds)
  {
    assert ds[..|ds|] == ds;
  }
}
