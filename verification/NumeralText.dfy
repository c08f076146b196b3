/** The texts that strtod (rt_scan.c) reads, as section 7.20.1.3 of ISO/IEC 9899:1999 spells them out. */
module NumeralText {
  import opened Decimal
  import opened Binary64
  import opened Strtod
  import opened StrtodCorrect

  // ---- the grammar ----

  /** A numeral part by part. Without a point there is no fraction; an exponent part starts with its letter. */
  datatype Written = Written(space: string, sign: string, whole: string, point: bool, frac: string, power: Power)

  datatype Power = None | Some(letter: char, sign: string, digits: string)

  predicate Blank(s: string) { forall i :: 0 <= i < |s| ==> s[i] in " \t\n\U{B}\U{C}\r" }

  predicate Sign(s: string) { s in ["", "+", "-"] }

  predicate Grammatical(n: Written) {
    && Blank(n.space) && Sign(n.sign) && AllDigits(n.whole) && AllDigits(n.frac)
    && n.whole + n.frac != "" && (!n.point ==> n.frac == "")
    && (n.power.Some? ==>
      n.power.letter in "eE" && Sign(n.power.sign) && AllDigits(n.power.digits) && n.power.digits != "")
  }

  function PowerText(p: Power): string { if p.Some? then [p.letter] + p.sign + p.digits else "" }

  function Mantissa(n: Written): string { n.whole + (if n.point then "." + n.frac else "") }

  function Text(n: Written): string { n.space + n.sign + Mantissa(n) + PowerText(n.power) }

  /** The exponent the digits spell, as far as strtod accumulates it. */
  function PowerValue(p: Power): int
    requires p.Some? ==> AllDigits(p.digits)
  {
    if p.None? then 0 else if p.sign == "-" then 0 - ExpValue(p.digits) else ExpValue(p.digits)
  }

  /** Does r begin with a whole exponent part? */
  predicate StartsPower(r: string) {
    At(r, 0) in "eE" && (IsDigit(At(r, 1)) || (At(r, 1) in "+-" && IsDigit(At(r, 2))))
  }

  /** Nothing at the front of r makes the numeral longer. */
  predicate Ends(n: Written, r: string) {
    && !IsDigit(At(r, 0))
    && (n.power.None? ==> !StartsPower(r) && (!n.point ==> At(r, 0) != '.'))
  }

  function Parts(n: Written): Numeral
    requires Grammatical(n)
  {
    Numeral(n.sign == "-", n.whole, n.frac, PowerValue(n.power), |Text(n)|)
  }

  // ---- reading ----

  lemma {:induction false} SpaceSkipped(t: string, i: nat, space: string)
    requires Blank(space) && i + |space| <= |t| && t[i..i + |space|] == space && !IsSpace(At(t, i + |space|))
    ensures SpaceEnd(t, i) == i + |space|
    decreases |space|
  {
    if space != "" {
      assert t[i] == space[0];
      assert t[i + 1..i + 1 + |space[1..]|] == space[1..] by { assert t[i..i + |space|][1..] == space[1..]; }
      SpaceSkipped(t, i + 1, space[1..]);
    }
  }

  lemma AtSuffix(a: string, b: string, k: nat)
    ensures At(a + b, |a| + k) == At(b, k)
  {}

  /** The digits at a place where digits and then something else begin. */
  lemma DigitsAt(a: string, d: string, b: string)
    requires AllDigits(d) && !IsDigit(At(b, 0))
    ensures Digits(a + d + b, |a|) == d
  {
    var t := a + d + b;
    assert t[|a|..|a| + |d|] == d;
    AtSuffix(a + d, b, 0);
    DigitsPrefix(t, |a|, d);
  }

  /** The exponent part of a spelled numeral. */
  lemma PowerRead(a: string, p: Power, r: string)
    requires p.Some? ==> p.letter in "eE" && Sign(p.sign) && AllDigits(p.digits) && p.digits != ""
    requires !IsDigit(At(r, 0)) && (p.None? ==> !StartsPower(r))
    ensures Exponent(a + PowerText(p) + r, |a|) == (PowerValue(p), |a| + |PowerText(p)|)
  {
    hide ExpValue, AllDigits;
    if p.None? {
      NoPower(a, r);
      assert a + "" + r == a + r;
    } else {
      FirstDigit(p.digits);
      var t := a + PowerText(p) + r;
      assert t == a + [p.letter] + p.sign + p.digits + r;
      assert t[|a|] == p.letter;
      assert At(t, |a| + 1) == if p.sign == "" then p.digits[0] else p.sign[0];
      DigitsAt(a + [p.letter] + p.sign, p.digits, r);
    }
  }

  lemma NoPower(a: string, r: string)
    requires !StartsPower(r)
    ensures Exponent(a + r, |a|) == (0, |a|)
  {
    hide ExpValue, AllDigits;
    AtSuffix(a, r, 0);
    AtSuffix(a, r, 1);
    AtSuffix(a, r, 2);
  }

  /** What follows the digits of a numeral is no digit, and a point exactly where the numeral has one. */
  lemma Follows(n: Written, r: string)
    requires Grammatical(n) && Ends(n, r)
    ensures var p := PowerText(n.power) + r; !IsDigit(At(p, 0)) && (!n.point ==> At(p, 0) != '.')
  {
    AtSuffix(PowerText(n.power), r, 0);
  }

  lemma PartRead(a: string, d: string, b: string, t: string)
    requires AllDigits(d) && !IsDigit(At(b, 0)) && t == a + d + b
    ensures Digits(t, |a|) == d && At(t, |a| + |d|) == At(b, 0)
  {
    DigitsAt(a, d, b);
    AtSuffix(a + d, b, 0);
  }

  /** Digits, then a point. */
  lemma BeforePoint(a: string, w: string, f: string, b: string, t: string)
    requires AllDigits(w) && t == a + (w + ("." + f)) + b
    ensures Digits(t, |a|) == w && At(t, |a| + |w|) == '.'
  {
    var rest := "." + f + b;
    assert At(rest, 0) == '.' && !IsDigit(At(rest, 0));
    assert t == a + w + rest;
    PartRead(a, w, rest, t);
  }

  /** Digits behind a point. */
  lemma BehindPoint(a: string, w: string, f: string, b: string, t: string)
    requires AllDigits(f) && !IsDigit(At(b, 0)) && t == a + (w + ("." + f)) + b
    ensures Digits(t, |a| + |w| + 1) == f
  {
    hide At;
    var q := a + w + ".";
    assert t == q + f + b;
    PartRead(q, f, b, t);
  }

  lemma MantissaRead(a: string, n: Written, r: string, b: string, t: string)
    requires Grammatical(n) && Ends(n, r)
    requires b == PowerText(n.power) + r && t == a + Mantissa(n) + b
    ensures Digits(t, |a|) == n.whole && (At(t, |a| + |n.whole|) == '.') == n.point
    ensures n.point ==> Digits(t, |a| + |n.whole| + 1) == n.frac
  {
    Follows(n, r);
    MantissaParts(a, n, b, t);
  }

  lemma MantissaParts(a: string, n: Written, b: string, t: string)
    requires AllDigits(n.whole) && AllDigits(n.frac) && t == a + Mantissa(n) + b
    requires !IsDigit(At(b, 0)) && (!n.point ==> At(b, 0) != '.')
    ensures Digits(t, |a|) == n.whole && (At(t, |a| + |n.whole|) == '.') == n.point
    ensures n.point ==> Digits(t, |a| + |n.whole| + 1) == n.frac
  {
    hide Digits, AllDigits, At;
    if n.point {
      BeforePoint(a, n.whole, n.frac, b, t);
      BehindPoint(a, n.whole, n.frac, b, t);
    } else {
      assert Mantissa(n) == n.whole;
      PartRead(a, n.whole, b, t);
    }
  }

  /** The first character after the sign is a digit or the point. */
  lemma MantissaStart(n: Written)
    requires Grammatical(n)
    ensures Mantissa(n) != "" && (IsDigit(Mantissa(n)[0]) || Mantissa(n)[0] == '.')
  {
    if n.whole != "" { FirstDigit(n.whole); }
  }

  lemma FrontRead(space: string, sign: string, b: string)
    requires Blank(space) && Sign(sign) && b != "" && !IsSpace(b[0]) && b[0] !in "+-"
    ensures var t := space + sign + b;
      && SpaceEnd(t, 0) == |space| && SignEnd(t, |space|) == |space| + |sign|
      && (At(t, |space|) == '-') == (sign == "-")
  {
    var t := space + sign + b;
    assert t == space + (sign + b);
    assert At(t, |space|) == At(sign + b, 0) by { AtSuffix(space, sign + b, 0); }
    assert t[0..0 + |space|] == space;
    SpaceSkipped(t, 0, space);
  }

  /** strtod takes a numeral apart as the grammar puts it together. */
  lemma Reading(n: Written, r: string)
    requires Grammatical(n) && Ends(n, r)
    ensures var t := Text(n) + r;
      && SpaceEnd(t, 0) == |n.space| && Lex(t, |n.space|) == Parts(n)
      && !IsInf(t, SignEnd(t, |n.space|)) && !IsNan(t, SignEnd(t, |n.space|))
  {
    hide Digits, AllDigits, ExpValue, SpaceEnd, Exponent;
    var a, m, p, t := n.space + n.sign, Mantissa(n), PowerText(n.power), Text(n) + r;
    MantissaStart(n);
    assert t == a + (m + p + r);
    FrontRead(n.space, n.sign, m + p + r);
    assert t[|a|] == m[0];
    assert t == a + m + (p + r);
    MantissaRead(a, n, r, p + r, t);
    assert t == (a + m) + p + r;
    PowerRead(a + m, n.power, r);
  }

  /** The longest numeral is read: one that begins the text is no longer than what strtod takes, and that is a numeral
      too. */
  lemma {:induction false} LongestRead(n: Written, r: string) returns (longest: Written, rest: string)
    requires Grammatical(n)
    ensures Grammatical(longest) && Ends(longest, rest) && longest.space == n.space
    ensures Text(longest) + rest == Text(n) + r && |Text(longest)| >= |Text(n)|
    decreases |r|
  {
    hide AllDigits;
    if Ends(n, r) { return n, r; }
    if IsDigit(At(r, 0)) {
      var m := Longer(n, r[0]);
      LongerText(n, r[0]);
      assert Text(n) + r == Text(m) + r[1..] by { assert r == [r[0]] + r[1..]; }
      longest, rest := LongestRead(m, r[1..]);
    } else if StartsPower(r) {
      var k := if At(r, 1) in "+-" then 2 else 1;
      var m := n.(power := Some(r[0], r[1..k], [r[k]]));
      PowerTaken(n, r, k);
      longest, rest := LongestRead(m, r[k + 1..]);
    } else {
      var m := n.(point := true);
      assert r == "." + r[1..];
      assert Text(n) + r == Text(m) + r[1..];
      longest, rest := LongestRead(m, r[1..]);
    }
  }

  lemma PowerTaken(n: Written, r: string, k: nat)
    requires Grammatical(n) && n.power.None? && StartsPower(r) && k == if At(r, 1) in "+-" then 2 else 1
    ensures k < |r|
    ensures var m := n.(power := Some(r[0], r[1..k], [r[k]]));
      Grammatical(m) && Text(n) + r == Text(m) + r[k + 1..] && |Text(m)| >= |Text(n)|
  {
    hide Text, PowerText, Mantissa;
    assert r[1..k] == if k == 2 then [r[1]] else "";
    var p := Some(r[0], r[1..k], [r[k]]);
    PowerAdded(n, p);
    assert r == [r[0]] + r[1..k] + [r[k]] + r[k + 1..];
    Regroup(Text(n), [r[0]] + r[1..k] + [r[k]], r[k + 1..]);
  }

  lemma PowerAdded(n: Written, p: Power)
    requires n.power.None? && p.Some?
    ensures Text(n.(power := p)) == Text(n) + ([p.letter] + p.sign + p.digits)
  {
    var f := n.space + n.sign + Mantissa(n);
    assert f + "" == f;
  }

  lemma Regroup(a: string, b: string, c: string)
    ensures a + (b + c) == a + b + c
  {}

  /** The numeral with one more digit at its end. */
  function Longer(n: Written, c: char): Written {
    if n.power.Some? then n.(power := n.power.(digits := n.power.digits + [c]))
    else if n.point then n.(frac := n.frac + [c])
    else n.(whole := n.whole + [c])
  }

  lemma LongerText(n: Written, c: char)
    requires Grammatical(n) && IsDigit(c)
    ensures Grammatical(Longer(n, c)) && Text(Longer(n, c)) == Text(n) + [c]
  {
  }

  lemma {:induction false} SpaceIsBlank(s: string, i: nat)
    requires i <= |s|
    ensures i <= SpaceEnd(s, i) <= |s| && Blank(s[i..SpaceEnd(s, i)])
    decreases |s| - i
  {
    if i < |s| && IsSpace(s[i]) {
      SpaceIsBlank(s, i + 1);
      var j := SpaceEnd(s, i + 1);
      OneMoreBlank(s, i, j);
    }
  }

  lemma OneMoreBlank(s: string, i: nat, j: nat)
    requires i < j <= |s| && IsSpace(s[i]) && Blank(s[i + 1..j])
    ensures Blank(s[i..j])
  {
    assert s[i..j] == [s[i]] + s[i + 1..j];
  }

  lemma OneDigit(space: string, sign: string, c: char)
    requires Blank(space) && Sign(sign) && IsDigit(c)
    ensures var n, m := Written(space, sign, [c], false, "", None), Written(space, sign, "", true, [c], None);
      && Grammatical(n) && Text(n) == space + sign + [c]
      && Grammatical(m) && Text(m) == space + sign + ("." + [c])
  {
    assert [c] + "" == [c] && "" + [c] == [c] && "" + ("." + [c]) == "." + [c];
  }

  /** Where strtod finds digits a numeral begins: one of a single digit at least. */
  lemma FirstNumeral(s: string) returns (n: Written)
    requires var num := Lex(s, SpaceEnd(s, 0)); num.whole + num.frac != ""
    ensures Grammatical(n) && Text(n) <= s
  {
    hide ExpValue, SpaceEnd, Grammatical, Text, Sign, Blank, AllDigits, IsDigit, Exponent;
    SpaceIsBlank(s, 0);
    var i := SpaceEnd(s, 0);
    var j := SignEnd(s, i);
    var space, sign := s[..i], s[i..j];
    assert s[0..i] == space && s[..j] == space + sign;
    assert Sign(sign) by { SignTaken(s, i); }
    if IsDigit(At(s, j)) {
      OneDigit(space, sign, s[j]);
      assert s[..j + 1] == space + sign + [s[j]];
      n := Written(space, sign, [s[j]], false, "", None);
    } else {
      var c := s[j + 1];
      OneDigit(space, sign, c);
      assert s[..j + 2] == space + sign + ("." + [c]);
      n := Written(space, sign, "", true, [c], None);
    }
  }

  lemma SignTaken(s: string, i: nat)
    requires i <= |s|
    ensures i <= SignEnd(s, i) <= |s| && Sign(s[i..SignEnd(s, i)])
  {
    var j := SignEnd(s, i);
    assert s[i..j] == if j == i then "" else [s[i]];
  }

  /** strtod finds digits exactly where a numeral begins the text, and then takes the longest that does, part by part. */
  lemma LongestIsRead(s: string)
    ensures var num := Lex(s, SpaceEnd(s, 0));
      && ((exists n :: Grammatical(n) && Text(n) <= s) <==> num.whole + num.frac != "")
      && (forall n :: Grammatical(n) && Text(n) <= s ==> |Text(n)| <= num.end)
      && (num.whole + num.frac != "" ==>
        exists n :: Grammatical(n) && Text(n) <= s && |Text(n)| == num.end && Parts(n) == num)
  {
    hide Digits, AllDigits, SpaceEnd, Lex, Grammatical, Text, Parts;
    var num := Lex(s, SpaceEnd(s, 0));
    forall n | Grammatical(n) && Text(n) <= s
      ensures num.whole + num.frac != "" && |Text(n)| <= num.end
    {
      var longest := NumeralIsRead(s, n);
    }
    if num.whole + num.frac != "" {
      var n := FirstNumeral(s);
      var longest := NumeralIsRead(s, n);
    }
  }

  lemma NumeralIsRead(s: string, n: Written) returns (longest: Written)
    requires Grammatical(n) && Text(n) <= s
    ensures var num := Lex(s, SpaceEnd(s, 0));
      && num.whole + num.frac != "" && Grammatical(longest) && Text(longest) <= s
      && Parts(longest) == num && |Text(n)| <= |Text(longest)| == num.end
  {
    hide Digits, AllDigits, SpaceEnd, Lex, Text;
    assert Text(n) + s[|Text(n)|..] == s;
    var rest;
    longest, rest := LongestRead(n, s[|Text(n)|..]);
    Reading(longest, rest);
  }

  /** What comes back for a numeral: the exact decimal's double, as far as strtod keeps its digits, and the numeral's end. */
  lemma NumeralAnswer(n: Written, r: string, bits: nat, end: nat)
    requires Grammatical(n) && Ends(n, r)
    requires var t := Text(n) + r; Reads(t, SpaceEnd(t, 0), bits, end)
    ensures end == |Text(n)| && AnswerIs(Parts(n), Unpack(bits))
  {
    hide Digits, AllDigits, SpaceEnd, Lex, Text, Ends, AnswerIs, Unpack, Reads, IsInf, IsNan;
    Reading(n, r);
    StrtodIsRounded(Text(n) + r, |n.space|, bits, end);
  }

  // ---- infinities and NaNs ----

  function Lower(c: char): char { if 'A' <= c <= 'Z' then (c as int + 32) as char else c }

  /** inf and nan are taken in any mixture of cases. */
  lemma WordIff(s: string, i: nat)
    ensures IsInf(s, i) <==> i + 3 <= |s| && [Lower(s[i]), Lower(s[i + 1]), Lower(s[i + 2])] == "inf"
    ensures IsNan(s, i) <==> i + 3 <= |s| && [Lower(s[i]), Lower(s[i + 1]), Lower(s[i + 2])] == "nan"
  {
    assert "inf"[0] == 'i' && "inf"[1] == 'n' && "inf"[2] == 'f';
    assert "nan"[0] == 'n' && "nan"[1] == 'a' && "nan"[2] == 'n';
  }

  /** White space, a sign and one of the words. */
  lemma WordAnswer(space: string, sign: string, word: string, r: string, bits: nat, end: nat)
    requires Blank(space) && Sign(sign) && |word| == 3
    requires [Lower(word[0]), Lower(word[1]), Lower(word[2])] in ["inf", "nan"]
    requires var t := space + sign + word + r; Reads(t, SpaceEnd(t, 0), bits, end)
    ensures end == |space + sign + word|
    ensures Unpack(bits) ==
      if Lower(word[0]) == 'n' then NotANumber else Infinite(sign == "-")
  {
    hide SpaceEnd, Lex, Converted, Collected, Dropped;
    var t, b := space + sign + word + r, word + r;
    assert t == space + sign + b;
    FrontRead(space, sign, b);
    WordIff(t, |space| + |sign|);
  }

  /** The capital E that %E prints is read. */
  lemma CapitalE()
    ensures SpaceEnd("1E5", 0) == 0 && Lex("1E5", 0) == Numeral(false, "1", "", 5, 3)
  {
    var n := Written("", "", "1", false, "", Some('E', "", "5"));
    assert Text(n) + "" == "1E5" by { assert Mantissa(n) == "1"; }
    assert "5"[..0] == "";
    Reading(n, "");
  }
}
