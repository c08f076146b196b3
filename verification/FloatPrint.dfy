/** emit_float (rt_format.c): the three conversions, from the unpacked double to the body text. */
module FloatPrint {
  import opened Powers
  import opened Decimal
  import opened Rounding
  import opened Binary64
  import opened Bounds
  import opened DecimalToBinary
  import opened FloatFormat
  import opened FloatRound
  import opened FloatEmit

  method EmitE(dig: array<char>, len: nat, decpt: int, ghost m: nat, ghost e2: int, prec: nat, hash: bool,
               body: array<char>) returns (bl: nat)
    requires 1 <= len < dig.Length && body.Length == BODY_SIZE && dig != body
    requires 0 < m < TWO53 && -1074 <= e2 <= 971 && Exactly(dig[..len], decpt, Num(m, e2), Den(e2))
    requires TextFits(m, e2, ConvE, prec, hash)
    modifies dig, body
    ensures bl <= BODY_SIZE && PrintsE(Num(m, e2), Den(e2), prec, hash, body[..bl])
  {
    hide Rne, Pow, NatOf, RoundTens, Magnitude, Denotes, Dec, Pad, WholePart, FracPart, Rounded, ExpRounding, ExpSuffix;
    ghost var s := dig[..len];
    PointRange(s, decpt, m, e2);
    var len1, decpt1 := RoundDigits(dig, len, decpt, prec + 1);
    ghost var t := dig[..len1];
    SignificantDigits(s, decpt, prec + 1, t, decpt1, Num(m, e2), Den(e2));
    ghost var r := NatOf(t) * Pow(10, prec + 1 - |t|);
    LayoutIsFixed(t, 1, prec, r);
    RoundedPoint(s, decpt, prec + 1, t, decpt1);
    bl := PutNumber(body, dig, len1, 1, prec, hash);
    bl := PutSuffix(body, bl, decpt1 - 1);
    assert body[..bl] == Fixed(r, prec, hash) + ExpSuffix(decpt1 - 1);
  }

  lemma RoundedPoint(s: string, decpt: int, keep: int, t: string, decpt': int)
    requires AllDigits(s) && Rounded(s, decpt, keep, t, decpt')
    ensures decpt <= decpt' <= decpt + 1
  {
  }

  method EmitF(dig: array<char>, len: nat, decpt: int, ghost m: nat, ghost e2: int, prec: nat, hash: bool,
               body: array<char>) returns (bl: nat)
    requires 1 <= len < dig.Length && body.Length == BODY_SIZE && dig != body
    requires 0 < m < TWO53 && -1074 <= e2 <= 971 && Exactly(dig[..len], decpt, Num(m, e2), Den(e2))
    requires TextFits(m, e2, ConvF, prec, hash)
    modifies dig, body
    ensures bl <= BODY_SIZE && body[..bl] == Fixed(RoundTens(Num(m, e2), Den(e2), prec), prec, hash)
  {
    hide Rne, Pow, NatOf, RoundTens, Denotes, Dec, Pad, FracPart, Rounded;
    ghost var s := dig[..len];
    var len1, decpt1 := RoundDigits(dig, len, decpt, decpt + prec);
    FixedDigits(s, decpt, prec, dig[..len1], decpt1, Num(m, e2), Den(e2));
    ghost var r := RoundTens(Num(m, e2), Den(e2), prec);
    assert |Dec(WholeOf(r, prec))| == if decpt1 > 0 then decpt1 else 1;
    bl := PutNumber(body, dig, len1, decpt1, prec, hash);
  }

  method EmitG(dig: array<char>, len: nat, decpt: int, ghost m: nat, ghost e2: int, p: nat, hash: bool,
               body: array<char>) returns (bl: nat)
    requires 1 <= len < DIG_SIZE == dig.Length && body.Length == BODY_SIZE && dig != body && p > 0
    requires 0 < m < TWO53 && -1074 <= e2 <= 971 && Exactly(dig[..len], decpt, Num(m, e2), Den(e2))
    requires |dig[..len]| <= 646 && (hash ==> p + 6 <= BODY_SIZE)
    modifies dig, body
    ensures bl <= BODY_SIZE && PrintsG(Num(m, e2), Den(e2), p, hash, body[..bl])
  {
    hide Rne, Pow, NatOf, RoundTens, Magnitude, Denotes, Dec, Pad, WholePart, FracPart, Rounded, ExpRounding,
         ExpSuffix, StripZeros;
    ghost var s := dig[..len];
    PointRange(s, decpt, m, e2);
    var len1, decpt1 := RoundDigits(dig, len, decpt, p);
    ghost var t := dig[..len1];
    RoundedPoint(s, decpt, p, t, decpt1);
    SignificantDigits(s, decpt, p, t, decpt1, Num(m, e2), Den(e2));
    ghost var r := NatOf(t) * Pow(10, p - |t|);
    var x := decpt1 - 1;
    var fixed := -4 <= x < p;
    var point, prec := 1, p - 1;
    if fixed {
      point, prec := decpt1, p - 1 - x;
    }
    LayoutIsFixed(t, point, prec, r);
    var q := prec;
    if !hash {
      q := TrimFraction(dig, len1, point, prec);
      TrimmedLength(t, point, prec, q);
    }
    bl := PutNumber(body, dig, len1, point, q, hash);
    assert body[..bl] == if hash then Fixed(r, prec, true) else Trimmed(r, prec);
    if !fixed {
      bl := PutSuffix(body, bl, x);
    }
    assert body[..bl] == TextG(Num(m, e2), Den(e2), p, hash, r, x);
  }

  method EmitZero(dig: array<char>, conv: Conv, prec: nat, hash: bool, body: array<char>) returns (bl: nat)
    requires dig.Length == DIG_SIZE && body.Length == BODY_SIZE && dig != body && dig[..1] == "0"
    requires TextFits(0, 0, conv, prec, hash)
    modifies dig, body
    ensures bl <= BODY_SIZE && body[..bl] == PrintsZero(conv, prec, hash)
  {
    hide Rne, Pow, NatOf, Dec, Pad, FracPart, StripZeros, ExpSuffix;
    match conv
    case ConvE =>
      LayoutIsZero("0", 1, prec);
      bl := PutNumber(body, dig, 1, 1, prec, hash);
      bl := PutSuffix(body, bl, 0);
    case ConvF =>
      LayoutIsZero("0", 1, prec);
      ZeroFixed(prec);
      bl := PutNumber(body, dig, 1, 1, prec, hash);
    case ConvG =>
      var p := if prec == 0 then 1 else prec;
      var len, decpt := RoundDigits(dig, 1, 1, p);
      assert dig[..len] == "0";
      LayoutIsZero("0", 1, p - 1);
      var q := p - 1;
      if !hash {
        q := TrimFraction(dig, 1, 1, q);
        TrimmedLength("0", 1, p - 1, q);
      }
      bl := PutNumber(body, dig, 1, 1, q, hash);
  }

  lemma ZeroFixed(prec: nat)
    ensures RoundTens(Num(0, 0), Den(0), prec) == 0 && |Dec(WholeOf(0, prec))| == 1
  {
    hide Pow;
    var d := Den(0) * Pow(10, Max0(0 - prec));
    MulMonotonic(Den(0), 1, Pow(10, Max0(0 - prec)));
    DivModUnique(0, d, 0, 0);
    DivModUnique(0, Pow(10, prec), 0, 0);
  }

  /** emit_float from the unpacked number on: fills body and returns how much of it is used. */
  method EmitFloat(m: nat, e2: int, conv: Conv, prec: nat, hash: bool, body: array<char>) returns (bl: nat)
    requires m < TWO53 && -1074 <= e2 <= 971 && FitsDigits(m, e2)
    requires body.Length == BODY_SIZE && TextFits(m, e2, conv, prec, hash)
    modifies body
    ensures bl <= BODY_SIZE
    ensures m == 0 ==> body[..bl] == PrintsZero(conv, prec, hash)
    ensures m > 0 ==> Prints(conv, Num(m, e2), Den(e2), prec, hash, body[..bl])
  {
    hide Rne, Pow, NatOf, RoundTens, Magnitude, Denotes, Dec, Pad, Rounded, ExpRounding, FitsDigits, PrintsE, PrintsG,
         Num, Den;
    var dig := new char[DIG_SIZE];
    if m == 0 {
      dig[0] := '0';
      assert dig[..1] == "0";
      ZeroTextFits(e2, conv, prec, hash);
      bl := EmitZero(dig, conv, prec, hash, body);
      return;
    }
    var len, decpt := ExactDigits(m, e2, dig);
    match conv
    case ConvE => bl := EmitE(dig, len, decpt, m, e2, prec, hash, body);
    case ConvF => bl := EmitF(dig, len, decpt, m, e2, prec, hash, body);
    case ConvG => bl := EmitG(dig, len, decpt, m, e2, if prec == 0 then 1 else prec, hash, body);
  }

  lemma ZeroTextFits(e2: int, conv: Conv, prec: nat, hash: bool)
    requires TextFits(0, e2, conv, prec, hash)
    ensures TextFits(0, 0, conv, prec, hash)
  {
    hide Pow, Dec;
    ZeroFixed(prec);
    if conv == ConvF {
      var d := Den(e2) * Pow(10, Max0(0 - prec));
      MulMonotonic(Den(e2), 1, Pow(10, Max0(0 - prec)));
      DivModUnique(0, d, 0, 0);
    }
  }
}
