/** emit_float (rt_format.c) for finite numbers: what %f, %e and %g print. */
module FloatEmit {
  import opened Powers
  import opened Decimal
  import opened Rounding
  import opened Binary64
  import opened Bignum
  import opened Bounds
  import opened DecimalToBinary
  import opened FloatFormat
  import opened FloatRound

  // ---- the texts C99 section 7.19.6.1 asks for ----

  /** A whole part and a fraction; the point appears with a fraction or with the # flag. */
  function Join(whole: string, frac: string, hash: bool): string {
    whole + if frac != "" || hash then "." + frac else ""
  }

  /** The number r/10^prec with prec decimals. */
  function Fixed(r: nat, prec: nat, hash: bool): string {
    Join(Dec(r / Pow(10, prec)), Pad(r % Pow(10, prec), prec), hash)
  }

  /** e, sign, and at least two exponent digits. */
  function ExpSuffix(ex: int): string {
    "e" + (if ex < 0 then "-" else "+") + (if -10 < ex < 10 then "0" else "") + Dec(Abs(ex))
  }

  function StripZeros(frac: string): (s: string)
    ensures |s| <= |frac| && s == frac[..|s|]
  {
    if frac != "" && frac[|frac| - 1] == '0' then StripZeros(frac[..|frac| - 1]) else frac
  }

  /** Fixed without the trailing zeros of its fraction. */
  function Trimmed(r: nat, prec: nat): string {
    Join(Dec(r / Pow(10, prec)), StripZeros(Pad(r % Pow(10, prec), prec)), false)
  }

  /** xn/xd times 10^p, rounded half to even. */
  function RoundTens(xn: nat, xd: nat, p: int): nat
    requires xd > 0
  {
    MulMonotonic(xd, 1, Pow(10, Max0(-p)));
    Rne(xn * Pow(10, Max0(p)), xd * Pow(10, Max0(-p)))
  }

  /** 10^x <= xn/xd < 10^(x+1). */
  predicate Magnitude(xn: nat, xd: nat, x: int) {
    && xd * Pow(10, Max0(x)) <= xn * Pow(10, Max0(-x))
    && xn * Pow(10, Max0(-x - 1)) < xd * Pow(10, Max0(x + 1))
  }

  /** r * 10^(ex - prec) is xn/xd rounded to prec + 1 significant digits; 9.99 may become 10.0. */
  ghost predicate ExpRounding(xn: nat, xd: nat, prec: nat, r: nat, ex: int)
    requires xd > 0
  {
    exists x: int :: Magnitude(xn, xd, x) &&
      var r0 := RoundTens(xn, xd, prec - x);
      if r0 == Pow(10, prec + 1) then r == Pow(10, prec) && ex == x + 1 else r == r0 && ex == x
  }

  /** What %.{prec}e prints for the positive number xn/xd. */
  ghost predicate PrintsE(xn: nat, xd: nat, prec: nat, hash: bool, t: string)
    requires xd > 0
  {
    exists r: nat, ex: int :: ExpRounding(xn, xd, prec, r, ex) && t == Fixed(r, prec, hash) + ExpSuffix(ex)
  }

  /** What %.{p}g prints when style e would print r with exponent x: that exponent decides the style
      and the precision. */
  function TextG(xn: nat, xd: nat, p: nat, hash: bool, r: nat, x: int): string
    requires xd > 0 && p > 0
  {
    if -4 <= x < p then
      var prec := p - 1 - x;
      var r' := RoundTens(xn, xd, prec);
      if hash then Fixed(r', prec, true) else Trimmed(r', prec)
    else
      (if hash then Fixed(r, p - 1, true) else Trimmed(r, p - 1)) + ExpSuffix(x)
  }

  ghost predicate PrintsG(xn: nat, xd: nat, p: nat, hash: bool, t: string)
    requires xd > 0 && p > 0
  {
    exists r: nat, x: int :: ExpRounding(xn, xd, p - 1, r, x) && t == TextG(xn, xd, p, hash, r, x)
  }

  // ---- laying out digits ----

  /** The digit buffer read past its ends. */
  function DigitAt(s: string, i: int): char { if 0 <= i < |s| then s[i] else '0' }

  function WholePart(s: string, decpt: int): string {
    if decpt <= 0 then "0" else Span(s, 0, decpt)
  }

  function FracPart(s: string, decpt: int, prec: nat): string { Span(s, decpt, prec) }

  /** n characters of the digit buffer from position k on. */
  function Span(s: string, k: int, n: nat): (t: string)
    ensures |t| == n && forall i :: 0 <= i < n ==> t[i] == DigitAt(s, k + i)
  {
    seq(n, i => DigitAt(s, k + i))
  }

  /** The loop that copies n digits, reading zeros outside the buffer. */
  method PutDigits(body: array<char>, start: nat, dig: array<char>, len: nat, from: int, n: nat)
    requires body != dig && len <= dig.Length && start + n <= body.Length
    modifies body
    ensures body[..start + n] == old(body[..start]) + Span(dig[..len], from, n)
  {
    ghost var w, t := body[..start], Span(dig[..len], from, n);
    var i := 0;
    while i < n
      invariant 0 <= i <= n && body[..start] == w
      invariant forall k :: 0 <= k < i ==> body[start + k] == t[k]
    {
      var idx := from + i;
      body[start + i] := if idx >= 0 && idx < len then dig[idx] else '0';
      i := i + 1;
    }
    assert body[start..start + n] == t;
    assert body[..start + n] == body[..start] + body[start..start + n];
  }

  /** What %f and %e share: whole part, point, fraction; the point goes after decpt digits. */
  method PutNumber(body: array<char>, dig: array<char>, len: nat, decpt: int, prec: nat, hash: bool) returns (bl: nat)
    requires body != dig && len <= dig.Length
    requires (if decpt > 0 then decpt else 1) + 1 + prec <= body.Length
    modifies body
    ensures bl <= (if decpt > 0 then decpt else 1) + 1 + prec
    ensures body[..bl] == Join(WholePart(dig[..len], decpt), FracPart(dig[..len], decpt, prec), hash)
  {
    hide Span, DigitAt;
    if decpt <= 0 {
      body[0] := '0';
      bl := 1;
    } else {
      PutDigits(body, 0, dig, len, 0, decpt);
      assert old(body[..0]) == "";
      bl := decpt;
    }
    ghost var w := WholePart(dig[..len], decpt);
    assert body[..bl] == w;
    if prec > 0 || hash {
      body[bl] := '.';
      bl := bl + 1;
      assert body[..bl] == w + ".";
      PutDigits(body, bl, dig, len, decpt, prec);
      bl := bl + prec;
      ConcatAssoc(w, ".", FracPart(dig[..len], decpt, prec));
    } else {
      assert w + "" == w;
    }
  }

  lemma ConcatAssoc(a: string, b: string, c: string)
    ensures (a + b) + c == a + (b + c)
  {
  }

  /** The exponent suffix at position bl. */
  method PutSuffix(body: array<char>, start: nat, ex: int) returns (bl: nat)
    requires -1000 < ex < 1000 && start + 5 <= body.Length
    modifies body
    ensures start <= bl <= body.Length && body[..bl] == old(body[..start]) + ExpSuffix(ex)
  {
    hide Dec;
    bl := start;
    body[bl] := 'e';
    body[bl + 1] := if ex < 0 then '-' else '+';
    bl := bl + 2;
    var a := if ex < 0 then 0 - ex else ex;
    if a < 10 {
      body[bl] := '0';
      bl := bl + 1;
    }
    ghost var v := body[..bl];
    assert v == old(body[..start]) + ("e" + (if ex < 0 then "-" else "+") + (if a < 10 then "0" else ""));
    var ds := Utoa(a);
    ExponentLength(a);
    PutText(body, bl, ds);
    bl := bl + |ds|;
    ConcatAssoc(old(body[..start]), "e" + (if ex < 0 then "-" else "+") + (if a < 10 then "0" else ""), ds);
    assert body[..bl] == old(body[..start]) + ExpSuffix(ex);
  }

  /** rt_utoa writing at a position of the buffer. */
  method PutText(body: array<char>, start: nat, t: string)
    requires start + |t| <= body.Length
    modifies body
    ensures body[..start + |t|] == old(body[..start]) + t
  {
    ghost var w := body[..start];
    var i := 0;
    while i < |t|
      invariant 0 <= i <= |t| && body[..start + i] == w + t[..i]
    {
      body[start + i] := t[i];
      i := i + 1;
      assert body[..start + i] == w + t[..i];
    }
    assert t[..|t|] == t;
  }

  lemma ExponentLength(a: nat)
    requires a < 1000
    ensures |Dec(a)| <= 3 && (a < 10 ==> |Dec(a)| == 1)
  {
    assert Pow(10, 3) == 1000;
    DecLength(a, 3);
  }

  // ---- from digits to numbers ----

  lemma RneCross(a: nat, b: nat, c: nat, d: nat)
    requires b > 0 && d > 0 && a * d == c * b
    ensures Rne(a, b) == Rne(c, d)
  {
    hide Rne;
    RneScale(a, b, d);
    RneScale(c, d, b);
  }

  /** Rounding an exact decimal n * 10^-t at p decimals. */
  lemma RoundTensOf(n: nat, t: int, xn: nat, xd: nat, p: int)
    requires xd > 0 && Denotes(n, t, xn, xd)
    ensures RoundTens(xn, xd, p) == Rne(n * Pow(10, Max0(p - t)), Pow(10, Max0(t - p)))
  {
    hide Rne, Pow;
    var q := t - p;
    var tp, tm, pp, pm := Pow(10, Max0(t)), Pow(10, Max0(-t)), Pow(10, Max0(p)), Pow(10, Max0(-p));
    var qp, qm := Pow(10, Max0(q)), Pow(10, Max0(-q));
    MulMonotonic(xd, 1, pm);
    Balance(t, p);
    CrossTens(n, xn, xd, tp, tm, pp, pm, qp, qm);
    RneCross(xn * pp, xd * pm, n * qm, qp);
  }

  lemma Balance(t: int, p: int)
    ensures Pow(10, Max0(-t)) * Pow(10, Max0(p)) * Pow(10, Max0(t - p))
         == Pow(10, Max0(t)) * Pow(10, Max0(-p)) * Pow(10, Max0(p - t))
  {
    hide Pow;
    Triple(Max0(-t), Max0(p), Max0(t - p));
    Triple(Max0(t), Max0(-p), Max0(p - t));
  }

  lemma Triple(a: nat, b: nat, c: nat)
    ensures Pow(10, a) * Pow(10, b) * Pow(10, c) == Pow(10, a + b + c)
  {
    hide Pow;
    PowAdd(10, a, b);
    PowAdd(10, a + b, c);
  }

  lemma CrossTens(n: int, xn: int, xd: int, tp: int, tm: int, pp: int, pm: int, qp: int, qm: int)
    requires tp > 0 && xn * tp == n * tm * xd && tm * pp * qp == tp * pm * qm
    ensures xn * pp * qp == n * qm * (xd * pm)
  {
    assert (xn * pp * qp) * tp == (xn * tp) * (pp * qp);
    assert (n * tm * xd) * (pp * qp) == (n * xd) * (tm * pp * qp);
    assert (n * xd) * (tp * pm * qm) == (n * qm * (xd * pm)) * tp;
    CancelTen(xn * pp * qp, 1, n * qm * (xd * pm), tp);
  }

  /** The exponent style e starts from: decpt - 1. */
  lemma MagnitudeOf(s: string, decpt: int, xn: nat, xd: nat)
    requires AllDigits(s) && s != "" && s[0] != '0' && xd > 0 && Denotes(NatOf(s), |s| - decpt, xn, xd)
    ensures Magnitude(xn, xd, decpt - 1)
  {
    hide Pow, NatOf, Rne;
    NatOfLead(s);
    var n, l, x := NatOf(s), |s|, decpt - 1;
    ScaledOrder(n, l - decpt, xn, xd, l - 1, x);
    ScaledOrder(n, l - decpt, xn, xd, l, x + 1);
  }

  /** Comparing n * 10^-t with 10^x is comparing n with 10^(x+t). */
  lemma ScaledOrder(n: nat, t: int, xn: nat, xd: nat, k: nat, x: int)
    requires xd > 0 && Denotes(n, t, xn, xd) && k == x + t
    ensures Pow(10, k) <= n <==> xd * Pow(10, Max0(x)) <= xn * Pow(10, Max0(-x))
    ensures n < Pow(10, k) <==> xn * Pow(10, Max0(-x)) < xd * Pow(10, Max0(x))
  {
    hide Pow;
    var tp, tm, a, b := Pow(10, Max0(t)), Pow(10, Max0(-t)), Pow(10, Max0(-x)), Pow(10, Max0(x));
    // 10^k * tm * a == b * tp
    PowAdd(10, Max0(-t), Max0(-x));
    PowAdd(10, k, Max0(-t) + Max0(-x));
    PowAdd(10, Max0(x), Max0(t));
    assert k + (Max0(-t) + Max0(-x)) == Max0(x) + Max0(t);
    ScaledOrderAt(n, Pow(10, k), xn, xd, tp, tm, a, b);
  }

  lemma ScaledOrderAt(n: nat, w: nat, xn: nat, xd: nat, tp: nat, tm: nat, a: nat, b: nat)
    requires xd > 0 && tp > 0 && tm > 0 && a > 0
    requires xn * tp == n * tm * xd && w * (tm * a) == b * tp
    ensures w <= n <==> xd * b <= xn * a
  {
    var c := xd * (tm * a);
    MulMonotonic(tm, 1, a);
    MulMonotonic(xd, 1, tm * a);
    assert (xd * b) * tp == w * c;
    assert (xn * a) * tp == n * c;
    OrderByFactor(w, n, c);
    OrderByFactor(xd * b, xn * a, tp);
  }

  lemma OrderByFactor(x: int, y: int, c: int)
    requires c > 0
    ensures x <= y <==> x * c <= y * c
  {
    if x <= y { MulMonotonic(c, x, y); } else { MulMonotonic(c, y + 1, x); }
  }

  // ---- the layout is the fixed-point text ----

  /** Digits s with the point after decpt of them, carried to prec decimals, spell r = s scaled. */
  lemma LayoutIsFixed(s: string, decpt: int, prec: nat, r: nat)
    requires AllDigits(s) && s != "" && s[0] != '0' && |s| <= decpt + prec
    requires r == NatOf(s) * Pow(10, decpt + prec - |s|)
    ensures WholePart(s, decpt) == Dec(r / Pow(10, prec))
    ensures FracPart(s, decpt, prec) == Pad(r % Pow(10, prec), prec)
  {
    hide Pow, NatOf, Dec, Pad;
    var z := s + Zeros(decpt + prec - |s|);
    AppendZeros(s, decpt + prec - |s|);
    if decpt > 0 {
      var w, f := z[..decpt], z[decpt..];
      assert z == w + f;
      assert WholePart(s, decpt) == w && FracPart(s, decpt, prec) == f;
      SplitNumber(w, f, r);
      DecUnique(w);
      PadUnique(f);
    } else {
      var f := Zeros(0 - decpt) + z;
      assert FracPart(s, decpt, prec) == f;
      ZerosAreZero(0 - decpt);
      NatOfConcat(Zeros(0 - decpt), z);
      NatOfBound(f);
      DivModUnique(r, Pow(10, prec), 0, r);
      PadUnique(f);
      DecZero();
    }
  }

  lemma DecZero()
    ensures Dec(0) == "0"
  {
  }

  lemma SplitNumber(w: string, f: string, r: nat)
    requires AllDigits(w) && AllDigits(f) && AllDigits(w + f) && NatOf(w + f) == r
    ensures NatOf(w) == r / Pow(10, |f|) && NatOf(f) == r % Pow(10, |f|)
  {
    hide Pow, NatOf;
    NatOfConcat(w, f);
    NatOfBound(f);
    DivModUnique(r, Pow(10, |f|), NatOf(w), NatOf(f));
  }

  /** When every digit printed is a zero. */
  lemma LayoutIsZero(s: string, decpt: int, prec: nat)
    requires (s == "0" && decpt <= 1) || decpt + prec <= 0
    ensures WholePart(s, decpt) == Dec(0 / Pow(10, prec))
    ensures FracPart(s, decpt, prec) == Pad(0 % Pow(10, prec), prec)
  {
    hide Pow;
    DecZero();
    DivModUnique(0, Pow(10, prec), 0, 0);
    ZerosAreZero(prec);
    PadUnique(Zeros(prec));
    assert FracPart(s, decpt, prec) == Zeros(prec);
  }

  // ---- rounding the exact digits gives the rounded number ----

  /** The digits of a positive number, exactly. */
  ghost predicate Exactly(s: string, decpt: int, xn: nat, xd: nat) {
    AllDigits(s) && s != "" && s[0] != '0' && xd > 0 && Denotes(NatOf(s), |s| - decpt, xn, xd)
  }

  lemma RneByOne(n: nat)
    ensures Rne(n * Pow(10, 0), Pow(10, 0)) == n && Pow(10, 0) == 1
  {
    RneExact(n, 1);
  }

  lemma RneOfSmall(n: nat, d: nat)
    requires d > 0 && 2 * n < d
    ensures Rne(n, d) == 0
  {
    DivModUnique(n, d, 0, n);
  }

  /** After rounding to keep >= 1 digits the buffer holds the number to keep significant digits. */
  lemma SignificantDigits(s: string, decpt: int, keep: int, t: string, decpt': int, xn: nat, xd: nat)
    requires Exactly(s, decpt, xn, xd) && keep >= 1 && Rounded(s, decpt, keep, t, decpt')
    ensures AllDigits(t) && t != "" && t[0] != '0' && |t| <= keep
    ensures ExpRounding(xn, xd, keep - 1, NatOf(t) * Pow(10, keep - |t|), decpt' - 1)
    ensures RoundTens(xn, xd, keep - decpt') == NatOf(t) * Pow(10, keep - |t|)
  {
    hide Rne, Pow, NatOf, RoundTens, Magnitude, Denotes;
    MagnitudeOf(s, decpt, xn, xd);
    var n, l := NatOf(s), |s|;
    RoundTensOf(n, l - decpt, xn, xd, keep - decpt);
    RneByOne(n);
    var r := NatOf(t) * Pow(10, keep - |t|);
    if keep >= l {
      MulOne(n, Pow(10, keep - l));
      NatOfLead(s);
      FullKeep(n, l, keep);
    } else {
      assert RoundTens(xn, xd, keep - decpt) == RoundedPrefix(s, keep);
      assert Pow(10, keep - |t|) == 1;
      NatOfLead(t);
      if decpt' == decpt + 1 && !(decpt' == decpt) {
        TenStep(keep);
        RoundTensOf(n, l - decpt, xn, xd, keep - decpt - 1);
        CoarserRollover(s, keep);
      }
    }
    assert ExpRounding(xn, xd, keep - 1, r, decpt' - 1);
  }

  lemma MulOne(n: nat, p: nat)
    ensures Rne(n * p, Pow(10, 0)) == n * p
  {
    RneExact(n * p, 1);
  }

  lemma FullKeep(n: nat, l: nat, keep: nat)
    requires n < Pow(10, l) && l <= keep
    ensures n * Pow(10, keep - l) < Pow(10, keep)
  {
    hide Pow;
    PowAdd(10, l, keep - l);
    MulStrict(n, Pow(10, l), Pow(10, keep - l), Pow(10, keep - l));
  }

  /** When keep digits round up to 10^keep, one digit fewer gives 10^(keep-1). */
  lemma CoarserRollover(s: string, keep: nat)
    requires AllDigits(s) && 1 <= keep < |s| && RoundedPrefix(s, keep) == Pow(10, keep)
    ensures Rne(NatOf(s) * Pow(10, 0), Pow(10, |s| - keep + 1)) == Pow(10, keep - 1)
  {
    hide Rne, Pow, NatOf;
    var n, d := NatOf(s), Pow(10, |s| - keep);
    RneByOne(n);
    RneHalf(n, d);
    NatOfBound(s);
    PowAdd(10, keep, |s| - keep);
    PowAdd(10, keep - 1, |s| - keep + 1);
    TenStep(|s| - keep + 1);
    RneUnique(n, Pow(10, |s| - keep + 1), Pow(10, keep - 1));
  }

  /** Rounding to decpt + prec digits, however few or negative, prints the number at prec decimals. */
  lemma FixedDigits(s: string, decpt: int, prec: nat, t: string, decpt': int, xn: nat, xd: nat)
    requires Exactly(s, decpt, xn, xd) && Rounded(s, decpt, decpt + prec, t, decpt')
    ensures var r := RoundTens(xn, xd, prec);
      && WholePart(t, decpt') == Dec(r / Pow(10, prec))
      && FracPart(t, decpt', prec) == Pad(r % Pow(10, prec), prec)
  {
    hide Rne, Pow, NatOf, RoundTens, Magnitude, Denotes, Dec, Pad, WholePart, FracPart;
    var keep, n, l := decpt + prec, NatOf(s), |s|;
    RneByOne(n);
    if keep >= 1 {
      SignificantDigits(s, decpt, keep, t, decpt', xn, xd);
      var r := NatOf(t) * Pow(10, keep - |t|);
      if decpt' == decpt {
        LayoutIsFixed(t, decpt, prec, r);
      } else {
        RoundTensOf(n, l - decpt, xn, xd, prec);
        TenStep(1);
        RolledValue(t, keep);
        LayoutIsFixed(t, decpt', prec, Pow(10, keep));
      }
    } else {
      RoundTensOf(n, l - decpt, xn, xd, prec);
      NatOfLead(s);
      if keep < 0 {
        PowStrict(10, l, l - keep);
        RneOfSmall(n, Pow(10, l - keep));
        LayoutIsZero(t, decpt', prec);
      } else if RoundedPrefix(s, 0) == 1 {
        OneDigit();
        LayoutIsFixed(t, decpt', prec, 1);
      } else {
        LayoutIsZero(t, decpt', prec);
      }
    }
  }

  lemma OneDigit()
    ensures NatOf("1") == 1 && NatOf("1") * Pow(10, 0) == 1
  {
    assert "1"[..0] == "";
  }

  lemma RolledValue(t: string, keep: nat)
    requires keep >= 1 && |t| == keep && AllDigits(t) && NatOf(t) == Pow(10, keep - 1)
    ensures NatOf(t) * Pow(10, 1) == Pow(10, keep)
  {
    TenStep(keep);
    assert Pow(10, 1) == 10;
  }

  // ---- the method ----

  datatype Conv = ConvE | ConvF | ConvG

  function WholeOf(r: nat, prec: nat): nat {
    DivMod(r, Pow(10, prec));
    r / Pow(10, prec)
  }

  /** The text must fit the body buffer, which the source does not check. */
  predicate TextFits(m: nat, e2: int, conv: Conv, prec: nat, hash: bool) {
    match conv
    case ConvE => prec + 7 <= BODY_SIZE
    case ConvF => |Dec(WholeOf(RoundTens(Num(m, e2), Den(e2), prec), prec))| + 1 + prec <= BODY_SIZE
    case ConvG => hash ==> prec + 7 <= BODY_SIZE
  }

  /** What the conversion prints for the positive number xn/xd. */
  ghost predicate Prints(conv: Conv, xn: nat, xd: nat, prec: nat, hash: bool, t: string)
    requires xd > 0
  {
    match conv
    case ConvE => PrintsE(xn, xd, prec, hash, t)
    case ConvF => t == Fixed(RoundTens(xn, xd, prec), prec, hash)
    case ConvG => PrintsG(xn, xd, if prec == 0 then 1 else prec, hash, t)
  }

  /** What it prints for zero. */
  function PrintsZero(conv: Conv, prec: nat, hash: bool): string {
    match conv
    case ConvE => Fixed(0, prec, hash) + ExpSuffix(0)
    case ConvF => Fixed(0, prec, hash)
    case ConvG =>
      var p := if prec == 0 then 1 else prec;
      if hash then Fixed(0, p - 1, true) else Trimmed(0, p - 1)
  }

  /** The loop of %g that drops trailing zeros of the fraction. */
  method TrimFraction(dig: array<char>, len: nat, decpt: int, prec: nat) returns (p: nat)
    requires len <= dig.Length
    ensures p <= prec && FracPart(dig[..len], decpt, p) == StripZeros(FracPart(dig[..len], decpt, prec))
  {
    ghost var s := dig[..len];
    p := prec;
    while p > 0
      invariant p <= prec && StripZeros(FracPart(s, decpt, prec)) == StripZeros(FracPart(s, decpt, p))
    {
      var idx := decpt + p - 1;
      var d := if idx >= 0 && idx < len then dig[idx] else '0';
      assert FracPart(s, decpt, p)[p - 1] == d;
      assert FracPart(s, decpt, p)[..p - 1] == FracPart(s, decpt, p - 1);
      if d != '0' {
        break;
      }
      p := p - 1;
    }
  }

  lemma StripEnd(f: string)
    ensures var t := StripZeros(f); t == "" || t[|t| - 1] != '0'
  {
  }

  /** A trimmed fraction ends on a digit of the buffer. */
  lemma TrimmedLength(s: string, decpt: int, prec: nat, p: nat)
    requires p <= prec && FracPart(s, decpt, p) == StripZeros(FracPart(s, decpt, prec))
    ensures p == 0 || decpt + p <= |s|
  {
    StripEnd(FracPart(s, decpt, prec));
    if p > 0 { assert FracPart(s, decpt, p)[p - 1] == DigitAt(s, decpt + p - 1); }
  }

  /** The decimal point of a double's digits. */
  lemma PointRange(s: string, decpt: int, m: nat, e2: int)
    requires 0 < m < TWO53 && -1074 <= e2 <= 971 && Exactly(s, decpt, Num(m, e2), Den(e2))
    ensures -400 < decpt <= 317
  {
    hide Pow, NatOf, RoundTens;
    MagnitudeOf(s, decpt, Num(m, e2), Den(e2));
    PowZero(2);
    PowZero(10);
    if decpt > 317 {
      PowStrict(10, 316, decpt - 1);
      if e2 >= 0 { DoubleFits(m, e2); NumIs(m, e2); } else { SmallWhole(m, e2, decpt - 1); }
    }
    if decpt <= -400 {
      if e2 >= 0 { NumIs(m, e2); MulMonotonic(Pow(2, e2), 1, m); PowMonotonic(10, 1, 0 - decpt); PowOneTen(); MulMonotonic(Num(m, e2), 1, Pow(10, 0 - decpt)); } else { BigTenth(m, e2, decpt); }
    }
  }

  lemma PowOneTen()
    ensures Pow(10, 1) == 10
  {
  }

  lemma NumIs(m: nat, e2: int)
    requires e2 >= 0
    ensures Num(m, e2) == m * Pow(2, e2) && Den(e2) == 1
  {
    PowZero(2);
  }

  lemma SmallWhole(m: nat, e2: int, x: int)
    requires 0 < m < TWO53 && e2 < 0 && x > 316
    ensures !Magnitude(Num(m, e2), Den(e2), x)
  {
    hide Pow;
    PowZero(10);
    TenTo16();
    PowStrict(10, 16, x);
    MulMonotonic(Pow(10, x), 1, Den(e2));
  }

  lemma BigTenth(m: nat, e2: int, decpt: int)
    requires 0 < m < TWO53 && -1074 <= e2 < 0 && decpt <= -400
    ensures !Magnitude(Num(m, e2), Den(e2), decpt - 1)
  {
    hide Pow;
    PowZero(10);
    var k := 0 - e2;
    assert Den(e2) == Pow(2, k) && Num(m, e2) == m;
    PowMonotonic(2, k, 1200);
    Eight();
    PowPow(2, 3, 400);
    PowBaseMonotonic(8, 10, 400);
    PowMonotonic(10, 400, 0 - decpt);
    MulMonotonic(Pow(10, 0 - decpt), 1, m);
  }

  lemma Eight()
    ensures Pow(2, 3) == 8
  {
  }
}
