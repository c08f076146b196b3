/** strtod (rt_scan.c): from the characters of a numeral to the bits of a double. */
module Strtod {
  import opened Powers
  import opened Decimal
  import opened Rounding
  import opened Binary64
  import opened Bignum
  import opened Bounds
  import opened DecimalToBinary

  const MAX_DIGITS := 780

  // ---- the shape of a numeral ----

  /** A C string reads as NUL from its end on. */
  function At(s: string, i: nat): char { if i < |s| then s[i] else '\0' }

  predicate IsSpace(c: char) { c == ' ' || '\t' <= c <= '\r' }

  /** The longest run of digits at i. */
  function Digits(s: string, i: nat): (ds: string)
    decreases |s| - i
    ensures AllDigits(ds) && (i <= |s| ==> i + |ds| <= |s|)
  {
    if i < |s| && IsDigit(s[i]) then [s[i]] + Digits(s, i + 1) else ""
  }

  function SpaceEnd(s: string, i: nat): (j: nat)
    decreases |s| - i
    ensures j >= i
  {
    if i < |s| && IsSpace(s[i]) then SpaceEnd(s, i + 1) else i
  }

  function SignEnd(s: string, i: nat): nat { if At(s, i) == '+' || At(s, i) == '-' then i + 1 else i }

  /** A numeral: its sign, the digits before and after the point, the exponent, where it ends. */
  datatype Numeral = Numeral(neg: bool, whole: string, frac: string, exponent: int, end: nat)

  /** The exponent part at j, if it has digits: its value (saturated) and its end. */
  function Exponent(s: string, j: nat): (int, nat) {
    var p := SignEnd(s, j + 1);
    var ds := Digits(s, p);
    if At(s, j) !in "eE" || ds == "" then (0, j)
    else ((if At(s, j + 1) == '-' then 0 - ExpValue(ds) else ExpValue(ds)), p + |ds|)
  }

  /** strtod stops accumulating the exponent once it has reached 100000. */
  function ExpValue(t: string): (v: nat)
    requires AllDigits(t)
    ensures v == NatOf(t) || (v >= 100000 && NatOf(t) >= 100000)
  {
    if t == "" then 0
    else
      var v := ExpValue(t[..|t| - 1]);
      if v < 100000 then v * 10 + DigitOf(t[|t| - 1]) else v
  }

  /** The numeral at i (just after white space): sign, digits with at most one point, exponent. */
  function Lex(s: string, i: nat): (num: Numeral)
    ensures AllDigits(num.whole) && AllDigits(num.frac)
  {
    var j := SignEnd(s, i);
    var whole := Digits(s, j);
    var pt := At(s, j + |whole|) == '.';
    var frac := if pt then Digits(s, j + |whole| + 1) else "";
    var (ev, end) := Exponent(s, j + |whole| + (if pt then 1 + |frac| else 0));
    Numeral(At(s, i) == '-', whole, frac, ev, end)
  }

  /** The words strtod also accepts, in any case. */
  predicate IsInf(s: string, i: nat) { At(s, i) in "iI" && At(s, i + 1) in "nN" && At(s, i + 2) in "fF" }

  predicate IsNan(s: string, i: nat) { At(s, i) in "nN" && At(s, i + 1) in "aA" && At(s, i + 2) in "nN" }

  lemma DigitsPrefix(s: string, i: nat, d: string)
    requires AllDigits(d) && i + |d| <= |s| && s[i..i + |d|] == d && !IsDigit(At(s, i + |d|))
    ensures Digits(s, i) == d
    decreases |d|
  {
    if d != "" {
      assert s[i] == d[0];
      assert s[i + 1..i + 1 + |d[1..]|] == d[1..] by {
        assert s[i..i + |d|][1..] == d[1..];
      }
      DigitsPrefix(s, i + 1, d[1..]);
    }
  }

  lemma FirstDigit(w: string)
    requires AllDigits(w) && w != ""
    ensures IsDigit(w[0])
  {
  }

  /** A numeral without a point: digits, e, perhaps a sign, digits. */
  lemma LexWhole(w: string, sign: string, ds: string)
    requires AllDigits(w) && w != "" && AllDigits(ds) && ds != "" && (sign == "" || sign == "+" || sign == "-")
    ensures var t := w + "e" + sign + ds;
      && Lex(t, 0) == Numeral(false, w, "", if sign == "-" then 0 - ExpValue(ds) else ExpValue(ds), |t|)
      && SpaceEnd(t, 0) == 0 && SignEnd(t, 0) == 0 && !IsInf(t, 0) && !IsNan(t, 0)
  {
    hide Digits, ExpValue, AllDigits, Exponent;
    var t, j := w + "e" + sign + ds, |w|;
    FirstDigit(w);
    FirstDigit(ds);
    WholeParts(w, sign, ds);
    DigitsPrefix(t, 0, w);
    ExponentAt(t, j, sign, ds);
  }

  lemma WholeParts(w: string, sign: string, ds: string)
    requires w != "" && ds != ""
    ensures var t, j := w + "e" + sign + ds, |w|;
      && |t| == j + 1 + |sign| + |ds| && t[0] == w[0] && t[0..0 + j] == w && t[j] == 'e'
      && t[j + 1 + |sign|..j + 1 + |sign| + |ds|] == ds && t[j + 1] == if sign == "" then ds[0] else sign[0]
  {
  }

  lemma ExponentAt(t: string, j: nat, sign: string, ds: string)
    requires AllDigits(ds) && ds != "" && IsDigit(ds[0]) && (sign == "" || sign == "+" || sign == "-")
    requires |t| == j + 1 + |sign| + |ds| && t[j + 1 + |sign|..j + 1 + |sign| + |ds|] == ds
    requires t[j] == 'e' && t[j + 1] == if sign == "" then ds[0] else sign[0]
    ensures Exponent(t, j) == (if sign == "-" then 0 - ExpValue(ds) else ExpValue(ds), |t|)
  {
    hide Digits, ExpValue, AllDigits;
    DigitsPrefix(t, j + 1 + |sign|, ds);
  }

  // ---- what strtod keeps of the digits ----

  function Min(a: nat, b: nat): nat { if a < b then a else b }

  /** At most 780 digits are collected, leading zeros included. */
  function Collected(ds: string): nat
    requires AllDigits(ds)
  {
    NatOf(ds[..Min(|ds|, MAX_DIGITS)])
  }

  /** Was a nonzero digit dropped? */
  predicate Dropped(ds: string) { exists i :: MAX_DIGITS <= i < |ds| && ds[i] != '0' }

  /** The kept digits are to be scaled by this power of ten. */
  function Scale(num: Numeral): int {
    |num.whole| - Min(|num.whole + num.frac|, MAX_DIGITS) + num.exponent
  }

  method SkipSpace(s: string) returns (i: nat)
    ensures i == SpaceEnd(s, 0)
  {
    i := 0;
    while IsSpace(At(s, i))
      invariant SpaceEnd(s, i) == SpaceEnd(s, 0)
      decreases |s| - i
    {
      i := i + 1;
    }
  }

  /** The digit loop: one pass over digits and at most one point. */
  method CollectDigits(s: string, start: nat) returns (big: Big, i: nat, decExp: int, any: bool, sticky: bool)
    ensures var whole := Digits(s, start);
      var pt := At(s, start + |whole|) == '.';
      var frac := if pt then Digits(s, start + |whole| + 1) else "";
      && i == start + |whole| + (if pt then 1 + |frac| else 0)
      && any == (whole + frac != "")
      && fresh(big) && fresh(big.limb) && big.Valid() && big.Value() == Collected(whole + frac)
      && decExp == |whole| - Min(|whole + frac|, MAX_DIGITS)
      && sticky == Dropped(whole + frac)
  {
    hide Val, Pow, Big.Valid, Big.Value, Collected, Dropped, AllDigits;
    big := new Big.Zero();
    i, decExp, any, sticky := start, 0, false, false;
    var collected, seenPoint := 0, false;
    ghost var whole := Digits(s, start);
    ghost var ds := "";
    NothingCollected();
    while true
      invariant fresh(big) && fresh(big.limb) && big.Valid()
      invariant AllDigits(ds) && any == (ds != "")
      invariant if seenPoint then
          && At(s, start + |whole|) == '.' && i == start + |ds| + 1
          && ds + Digits(s, i) == whole + Digits(s, start + |whole| + 1)
        else i == start + |ds| && ds + Digits(s, i) == whole
      invariant collected == Min(|ds|, MAX_DIGITS)
      invariant big.Value() == Collected(ds)
      invariant decExp == (if seenPoint then |whole| else |ds|) - collected
      invariant sticky == Dropped(ds)
      decreases |s| - i
    {
      var c := At(s, i);
      if IsDigit(c) {
        any := true;
        Peel(s, i, ds);
        if collected < MAX_DIGITS {
          CollectOne(ds, c);
          big.PushDigit(DigitOf(c));
          collected := collected + 1;
          if seenPoint { decExp := decExp - 1; }
        } else {
          DropOne(ds, c);
          if c != '0' { sticky := true; }
          if !seenPoint { decExp := decExp + 1; }
        }
        ds := ds + [c];
      } else {
        assert Digits(s, i) == "" && ds + "" == ds;
        if c == '.' && !seenPoint {
          seenPoint := true;
        } else {
          break;
        }
      }
      i := i + 1;
    }
  }

  lemma Peel(s: string, i: nat, ds: string)
    requires IsDigit(At(s, i))
    ensures i < |s| && ds + Digits(s, i) == (ds + [At(s, i)]) + Digits(s, i + 1)
  {
  }

  lemma NothingCollected()
    ensures Collected("") == 0 && !Dropped("") && AllDigits("")
  {
  }

  lemma CollectOne(ds: string, c: char)
    requires AllDigits(ds) && IsDigit(c) && |ds| < MAX_DIGITS
    ensures AllDigits(ds + [c]) && Collected(ds + [c]) == 10 * Collected(ds) + DigitOf(c)
    ensures Collected(ds + [c]) < Pow(BASE, CAP)
    ensures !Dropped(ds) && !Dropped(ds + [c])
  {
    assert ds[..|ds|] == ds && (ds + [c])[..|ds| + 1] == ds + [c];
    NatOfSnoc(ds, c);
    NatOfBound(ds + [c]);
    BufferDigits();
    PowMonotonic(10, |ds| + 1, 9 * CAP);
  }

  lemma DropOne(ds: string, c: char)
    requires AllDigits(ds) && IsDigit(c) && |ds| >= MAX_DIGITS
    ensures AllDigits(ds + [c]) && Collected(ds + [c]) == Collected(ds)
    ensures Dropped(ds + [c]) == (Dropped(ds) || c != '0')
  {
    assert (ds + [c])[..MAX_DIGITS] == ds[..MAX_DIGITS];
    if Dropped(ds) {
      var i :| MAX_DIGITS <= i < |ds| && ds[i] != '0';
      assert (ds + [c])[i] != '0';
    }
    if c != '0' { assert (ds + [c])[|ds|] != '0'; }
  }

  /** The exponent suffix, committed to only when it has a digit. */
  method ReadExponent(s: string, j: nat) returns (ev: int, end: nat)
    ensures (ev, end) == Exponent(s, j)
  {
    ev, end := 0, j;
    if At(s, j) == 'e' || At(s, j) == 'E' {
      var p, neg := j + 1, false;
      if At(s, p) == '+' {
        p := p + 1;
      } else if At(s, p) == '-' {
        neg := true;
        p := p + 1;
      }
      var v, q := ReadExponentDigits(s, p);
      if q > p {
        ev, end := v, q;
        if neg { ev := -ev; }
      }
    }
  }

  method ReadExponentDigits(s: string, start: nat) returns (v: nat, p: nat)
    ensures v == ExpValue(Digits(s, start)) && p == start + |Digits(s, start)|
  {
    v, p := 0, start;
    ghost var ds := "";
    while IsDigit(At(s, p))
      invariant AllDigits(ds) && v == ExpValue(ds)
      invariant p == start + |ds| && ds + Digits(s, p) == Digits(s, start)
      decreases |s| - p
    {
      Peel(s, p, ds);
      ExpValueSnoc(ds, At(s, p));
      ds := ds + [At(s, p)];
      if v < 100000 { v := v * 10 + DigitOf(At(s, p)); }
      p := p + 1;
    }
    assert ds + "" == ds;
  }

  lemma ExpValueSnoc(ds: string, c: char)
    requires AllDigits(ds) && IsDigit(c)
    ensures ExpValue(ds + [c]) == var v := ExpValue(ds); if v < 100000 then v * 10 + DigitOf(c) else v
  {
    assert (ds + [c])[..|ds|] == ds;
  }

  /** How the bits relate to the kept digits N, the decimal exponent k and the dropped digits. */
  ghost predicate Converted(neg: bool, n: nat, k: int, sticky: bool, bits: nat) {
    if n == 0 || k < -400 then bits == MakeDouble(neg, 0, 0).0
    else if k > 350 then bits == MakeDouble(neg, TWO52, 2000).0
    else exists m: nat, f: int :: Canonical(m, f) && bits == MakeDouble(neg, m, f).0
           && Settles(Numer(n, k), Denom(k), sticky, m, f)
  }

  /** Beyond the largest double every significand makes infinity. */
  lemma BeyondConverts(neg: bool, n: nat, k: int, sticky: bool, mant: nat, e2: int)
    requires n > 0 && -400 <= k <= 350 && Beyond(Numer(n, k), Denom(k)) && e2 > 971 && Canonical(mant, e2)
    ensures Converted(neg, n, k, sticky, MakeDouble(neg, mant, e2).0)
  {
    hide Cut, Normalised, Numer, Denom;
    var u, d := Numer(n, k), Denom(k);
    var e: int :| e > 971 && Normalised(u, d, e);
    CutRange(u, d, sticky, e);
    var (m, f) := Renorm(Cut(u, d, sticky, e), e);
    assert Settles(u, d, sticky, m, f) && Canonical(m, f);
    assert MakeDouble(neg, m, f).0 == MakeDouble(neg, mant, e2).0;
  }

  /** What strtod makes of the text at i, just after white space. */
  ghost predicate Reads(s: string, i: nat, bits: nat, end: nat) {
    var j, num := SignEnd(s, i), Lex(s, i);
    if IsInf(s, j) then
      bits == (if At(s, i) == '-' then TWO63 else 0) + INF_BITS && end == j + 3
    else if IsNan(s, j) then
      bits == NAN_BITS && end == j + 3
    else if num.whole + num.frac == "" then
      bits == 0 && end == 0
    else
      var ds := num.whole + num.frac;
      end == num.end && Converted(num.neg, Collected(ds), Scale(num), Dropped(ds), bits)
  }

  /** Without a positive exponent the collected digits always fit. */
  lemma DigitsFit(whole: string, frac: string, k: int)
    requires AllDigits(whole) && AllDigits(frac) && -400 <= k <= 0
    ensures FitsBuffer(Collected(whole + frac), k)
  {
    hide Pow, NatOf, FitsBuffer;
    var ds := whole + frac;
    var kept := ds[..Min(|ds|, MAX_DIGITS)];
    NatOfBound(kept);
    PowMonotonic(10, |kept|, MAX_DIGITS);
    PowAdd(10, MAX_DIGITS, 1);
    assert Pow(10, 1) == 10 && Pow(10, 0) == 1 by { SmallTens(); }
    BufferDigits();
    PowMonotonic(10, MAX_DIGITS + 1, 9 * CAP);
    HalfFits(Collected(ds), k);
  }

  lemma SmallTens()
    ensures Pow(10, 1) == 10 && Pow(10, 0) == 1
  {}

  /** strtod. The one demand is on numbers with a positive exponent: that what is left of them in the buffer is not within
      2^900 of its capacity. There, and only there, the loop that doubles the bounds does not stop. */
  method Strtod(s: string) returns (bits: nat, end: nat)
    requires var num := Lex(s, SpaceEnd(s, 0));
      0 < Scale(num) <= 350 ==> Answers(Collected(num.whole + num.frac), Scale(num))
    ensures Reads(s, SpaceEnd(s, 0), bits, end)
  {
    hide Val, Pow, Big.Valid, Big.Value, Digits, SpaceEnd, Collected, Dropped, Exponent, FitsBuffer, MakeDouble,
         Settles, AllDigits, Answers, Stops, Numer, Denom, Beyond, GoesOn, Held, Fills;
    var i := SkipSpace(s);
    ghost var num := Lex(s, i);
    var neg := false;
    if At(s, i) == '+' {
      i := i + 1;
    } else if At(s, i) == '-' {
      neg := true;
      i := i + 1;
    }
    if IsInf(s, i) {
      return (if neg then TWO63 else 0) + INF_BITS, i + 3;
    }
    if IsNan(s, i) {
      return NAN_BITS, i + 3;
    }
    var big, j, decExp, any, sticky := CollectDigits(s, i);
    if !any {
      return 0, 0;
    }
    var ev;
    ev, end := ReadExponent(s, j);
    decExp := decExp + ev;
    assert decExp == Scale(num);
    var z := big.IsZero();
    if z {
      bits := MakeDouble(neg, 0, 0).0;
    } else if decExp > 350 {
      bits := MakeDouble(neg, TWO52, 2000).0;
    } else if decExp < -400 {
      bits := MakeDouble(neg, 0, 0).0;
    } else {
      ghost var n := big.Value();
      assert Stops(n, decExp) by {
        if decExp <= 0 {
          DigitsFit(num.whole, num.frac, decExp);
          FittingStops(n, decExp);
        } else {
          StopsIff(n, decExp);
        }
      }
      var mant, e2 := Convert(big, decExp, sticky);
      bits := MakeDouble(neg, mant, e2).0;
      if !FitsBuffer(n, decExp) { BeyondConverts(neg, n, decExp, sticky, mant, e2); }
    }
  }
}
