/** What stands next to a replacement: src/C99/Preprocess.hs writes it down with no space between, and
    src/C99/Lexer.hs takes the longest token. When that token reaches over the edge. */
module Junctions {
  import Decimal
  import opened Options
  import opened MacroText
  import opened Macros
  import opened ExpandProof
  import opened Painting
  import opened Arguments
  import opened ArgumentCases

  // ---- the lexer's longest match ----

  function At(s: string, i: nat): char { if i < |s| then s[i] else '\0' }

  predicate IsOct(c: char) { '0' <= c <= '7' }

  predicate IsHex(c: char) { Decimal.IsDigit(c) || 'a' <= c <= 'f' || 'A' <= c <= 'F' }

  predicate IsSuffixLetter(c: char) { c == 'u' || c == 'U' || c == 'l' || c == 'L' || c == 'f' || c == 'F' }

  /** How far a run of digits, octal digits, hexadecimal digits or suffix letters goes. */
  datatype Class = Digit | Oct | Hex | Suffix

  predicate Is(k: Class, c: char) {
    match k
    case Digit => Decimal.IsDigit(c)
    case Oct => IsOct(c)
    case Hex => IsHex(c)
    case Suffix => IsSuffixLetter(c)
  }

  function RunEnd(k: Class, s: string, i: nat): (j: nat)
    ensures j >= i && (i <= |s| ==> j <= |s|)
    decreases |s| - i
  {
    if i < |s| && Is(k, s[i]) then RunEnd(k, s, i + 1) else i
  }

  predicate HexStarts(s: string) { At(s, 0) == '0' && (At(s, 1) == 'x' || At(s, 1) == 'X') }

  predicate OctStarts(s: string) { At(s, 0) == '0' && IsOct(At(s, 1)) }

  /** The end of the fraction of a decimal number, past its point if it has one. */
  function FractionEnd(s: string): nat {
    var p := RunEnd(Digit, s, 0);
    if At(s, p) == '.' then RunEnd(Digit, s, p + 1) else p
  }

  predicate IsE(c: char) { c == 'e' || c == 'E' }

  predicate IsSign(c: char) { c == '+' || c == '-' }

  function ExponentEnd(s: string): nat {
    var q := FractionEnd(s);
    if !IsE(At(s, q)) then q else RunEnd(Digit, s, if IsSign(At(s, q + 1)) then q + 2 else q + 1)
  }

  /** lexNumber: how much of s is the number it starts with. */
  function NumberLen(s: string): nat {
    RunEnd(Suffix, s,
      if HexStarts(s) then RunEnd(Hex, s, 2) else if OctStarts(s) then RunEnd(Oct, s, 1) else ExponentEnd(s))
  }

  /** Does b after a make one punctuator? */
  predicate Pairs(a: char, b: char) {
    match a
    case '+' => b == '+' || b == '='
    case '-' => b == '-' || b == '=' || b == '>'
    case '&' => b == '&' || b == '='
    case '|' => b == '|' || b == '='
    case '<' => b == '<' || b == '='
    case '>' => b == '>' || b == '='
    case '*' => b == '='
    case '/' => b == '='
    case '%' => b == '='
    case '^' => b == '='
    case '!' => b == '='
    case '=' => b == '='
    case _ => false
  }

  /** punct. */
  function PunctLen(s: string): nat
    requires s != ""
  {
    if s[0] == '.' then if At(s, 1) == '.' && At(s, 2) == '.' then 3 else 1
    else if (s[0] == '<' || s[0] == '>') && At(s, 1) == s[0] && At(s, 2) == '=' then 3
    else if Pairs(s[0], At(s, 1)) then 2
    else 1
  }

  /** How much of the front of s the lexer takes together: a name, a number, a punctuator, or the two characters that
      open a comment or a wide literal. */
  function Together(s: string): nat
    requires s != ""
  {
    if s[0] == '/' && (At(s, 1) == '/' || At(s, 1) == '*') then 2
    else if s[0] == 'L' && IsQuote(At(s, 1)) then 2
    else if IsIdentStart(s[0]) then |SpanIdent(s).0|
    else if Decimal.IsDigit(s[0]) || (s[0] == '.' && Decimal.IsDigit(At(s, 1))) then NumberLen(s)
    else PunctLen(s)
  }

  // ---- when it reaches over an edge ----

  predicate IsNumber(z: string) {
    z != "" && (Decimal.IsDigit(z[0]) || (z[0] == '.' && Decimal.IsDigit(At(z, 1)))) && NumberLen(z) == |z|
  }

  predicate IsPunct(z: string) {
    z != "" && !IsIdentStart(z[0]) && !Decimal.IsDigit(z[0]) && !(z[0] == '.' && Decimal.IsDigit(At(z, 1))) &&
    !IsQuote(z[0]) && !(z[0] == '/' && (At(z, 1) == '/' || At(z, 1) == '*')) && PunctLen(z) == |z|
  }

  predicate IsToken(z: string) { IsName(z) || IsNumber(z) || IsPunct(z) }

  /** The characters that follow are drawn into the token z. */
  predicate Joins(z: string, rest: string) {
    if IsName(z) then z == "L" && IsQuote(At(rest, 0))
    else if IsNumber(z) then
      !HexStarts(z) && !OctStarts(z) &&
      ((RunEnd(Digit, z, 0) == |z| && At(rest, 0) == '.') || (IsE(z[|z| - 1]) && IsSign(At(rest, 0))))
    else if |z| == 1 then
      Pairs(z[0], At(rest, 0)) ||
      (z == "." && (Decimal.IsDigit(At(rest, 0)) || (At(rest, 0) == '.' && At(rest, 1) == '.'))) ||
      (z == "/" && (At(rest, 0) == '/' || At(rest, 0) == '*'))
    else (z == "<<" || z == ">>") && At(rest, 0) == '='
  }

  lemma {:induction false} RunEndConcat(k: Class, z: string, rest: string, i: nat)
    requires i <= |z|
    ensures RunEnd(k, z, i) < |z| ==> RunEnd(k, z + rest, i) == RunEnd(k, z, i)
    ensures RunEnd(k, z, i) == |z| && !Is(k, At(rest, 0)) ==> RunEnd(k, z + rest, i) == |z|
    decreases |z| - i
  {
    if i < |z| && Is(k, z[i]) {
      RunEndConcat(k, z, rest, i + 1);
      assert (z + rest)[i] == z[i];
    } else if i < |z| {
      assert (z + rest)[i] == z[i];
    } else if rest != "" {
      assert (z + rest)[i] == rest[0];
    }
  }

  lemma AtConcat(z: string, rest: string, i: nat)
    ensures At(z + rest, i) == if i < |z| then z[i] else At(rest, i - |z|)
  {}

  lemma NotIn(c: char)
    requires !IsIdentCont(c)
    ensures !Is(Digit, c) && !Is(Oct, c) && !Is(Hex, c) && !Is(Suffix, c) && !IsE(c) && c != 'x' && c != 'X'
  {}

  lemma {:induction false} RunStops(k: Class, s: string, i: nat)
    ensures var j := RunEnd(k, s, i); !Is(k, At(s, j)) || j >= |s|
    ensures forall m :: i <= m < RunEnd(k, s, i) ==> Is(k, At(s, m))
    decreases |s| - i
  {
    if i < |s| && Is(k, s[i]) { RunStops(k, s, i + 1); }
  }

  lemma PunctJoins(z: string, rest: string)
    requires IsPunct(z)
    ensures Together(z + rest) != |z| <==> Joins(z, rest)
  {
    hide NumberLen, SpanIdent;
    AtConcat(z, rest, 0);
    AtConcat(z, rest, 1);
    AtConcat(z, rest, 2);
    PunctKinds(z);
    var s := z + rest;
    if z == "." && Decimal.IsDigit(At(rest, 0)) { NumberGrows(s); }
  }

  lemma PunctKinds(z: string)
    requires IsPunct(z)
    ensures |z| <= 3 && !IsName(z) && !IsNumber(z)
    ensures |z| == 3 ==> z == "..." || z == "<<=" || z == ">>="
    ensures |z| == 2 ==> z[0] != '.' && Pairs(z[0], z[1])
  {
    hide NumberLen, SpanIdent;
    if |z| == 3 { assert z == [z[0], z[1], z[2]]; }
  }

  lemma NumberGrows(s: string)
    requires s != "" && s[0] == '.' && Decimal.IsDigit(At(s, 1))
    ensures NumberLen(s) >= 2
  {
    assert RunEnd(Digit, s, 0) == 0;
    assert FractionEnd(s) == RunEnd(Digit, s, 1) >= 2;
  }

  lemma NameJoins(z: string, rest: string)
    requires IsName(z) && !IsIdentCont(At(rest, 0))
    ensures Together(z + rest) != |z| <==> Joins(z, rest)
  {
    hide NumberLen;
    AtConcat(z, rest, 0);
    AtConcat(z, rest, 1);
    SpanNameBlank(z, rest);
    NameChars(z);
    if |z| == 1 && z[0] == 'L' { assert z == "L"; }
  }

  lemma NameChars(z: string)
    requires IsName(z)
    ensures forall i :: 0 <= i < |z| ==> IsIdentCont(z[i])
    ensures !IsQuote(At(z, 1)) && z[0] != '/'
  {
    assert SpanIdent(z).0 == z;
    if |z| > 1 { assert IsIdentCont(z[1]); }
  }

  lemma SuffixStays(z: string, rest: string, e: nat)
    requires e <= |z| && RunEnd(Suffix, z, e) == |z| && !IsIdentCont(At(rest, 0))
    ensures RunEnd(Suffix, z + rest, e) == |z|
    ensures e < |z| ==> IsSuffixLetter(z[|z| - 1])
  {
    NotIn(At(rest, 0));
    RunEndConcat(Suffix, z, rest, e);
    RunStops(Suffix, z, e);
    if e < |z| { assert Is(Suffix, At(z, |z| - 1)); }
  }

  lemma SameStart(z: string, rest: string)
    requires z != "" && !IsIdentCont(At(rest, 0))
    ensures HexStarts(z + rest) == HexStarts(z) && OctStarts(z + rest) == OctStarts(z)
  {
    NotIn(At(rest, 0));
    AtConcat(z, rest, 0);
    AtConcat(z, rest, 1);
  }

  /** Hexadecimal and octal numbers draw nothing in. */
  lemma PlainNumberJoins(z: string, rest: string)
    requires IsNumber(z) && !IsIdentCont(At(rest, 0)) && (HexStarts(z) || OctStarts(z))
    ensures NumberLen(z + rest) == |z|
  {
    NotIn(At(rest, 0));
    SameStart(z, rest);
    var k, i := if HexStarts(z) then Hex else Oct, if HexStarts(z) then 2 else 1;
    RunEndConcat(k, z, rest, i);
    SuffixStays(z, rest, RunEnd(k, z, i));
  }

  lemma IntegerJoins(z: string, rest: string)
    requires IsNumber(z) && !IsIdentCont(At(rest, 0)) && !HexStarts(z) && !OctStarts(z) && RunEnd(Digit, z, 0) == |z|
    ensures NumberLen(z + rest) != |z| <==> At(rest, 0) == '.'
    ensures !IsE(z[|z| - 1])
  {
    var s := z + rest;
    NotIn(At(rest, 0));
    SameStart(z, rest);
    RunEndConcat(Digit, z, rest, 0);
    AtConcat(z, rest, |z|);
    RunStops(Digit, z, 0);
    assert Is(Digit, At(z, |z| - 1));
    if At(rest, 0) == '.' {
      assert FractionEnd(s) >= |z| + 1;
    } else {
      assert ExponentEnd(s) == |z|;
      SuffixStays(z, rest, |z|);
    }
  }

  /** The fraction ends inside z, or at its end. */
  lemma FractionStays(z: string, rest: string)
    requires !IsIdentCont(At(rest, 0)) && RunEnd(Digit, z, 0) < |z|
    ensures FractionEnd(z + rest) == FractionEnd(z) <= |z|
    ensures FractionEnd(z) == |z| ==> !IsE(z[|z| - 1])
  {
    NotIn(At(rest, 0));
    var p := RunEnd(Digit, z, 0);
    RunEndConcat(Digit, z, rest, 0);
    AtConcat(z, rest, p);
    if z[p] == '.' {
      RunEndConcat(Digit, z, rest, p + 1);
      RunStops(Digit, z, p + 1);
      if p + 1 < |z| && FractionEnd(z) == |z| { assert Is(Digit, At(z, |z| - 1)); }
    }
  }

  lemma ExponentJoins(z: string, rest: string)
    requires IsNumber(z) && !IsIdentCont(At(rest, 0)) && !HexStarts(z) && !OctStarts(z) && RunEnd(Digit, z, 0) < |z|
    requires FractionEnd(z) < |z| && IsE(z[FractionEnd(z)])
    ensures NumberLen(z + rest) != |z| <==> IsE(z[|z| - 1]) && IsSign(At(rest, 0))
  {
    hide FractionEnd;
    var s, q := z + rest, FractionEnd(z);
    NotIn(At(rest, 0));
    SameStart(z, rest);
    FractionStays(z, rest);
    AtConcat(z, rest, q);
    AtConcat(z, rest, q + 1);
    if q + 1 == |z| {
      if !IsSign(At(rest, 0)) {
        RunEndConcat(Digit, z, rest, |z|);
        SuffixStays(z, rest, |z|);
      }
    } else {
      var i := if IsSign(z[q + 1]) then q + 2 else q + 1;
      RunEndConcat(Digit, z, rest, i);
      RunStops(Digit, z, i);
      SuffixStays(z, rest, RunEnd(Digit, z, i));
      if i < |z| && RunEnd(Digit, z, i) == |z| { assert Is(Digit, At(z, |z| - 1)); }
    }
  }

  lemma NumberJoins(z: string, rest: string)
    requires IsNumber(z) && !IsIdentCont(At(rest, 0))
    ensures Together(z + rest) != |z| <==> Joins(z, rest)
  {
    hide NumberLen, FractionEnd, ExponentEnd, HexStarts, OctStarts, SpanIdent;
    AtConcat(z, rest, 0);
    AtConcat(z, rest, 1);
    NotIn(At(rest, 0));
    NotAName(z);
    assert Together(z + rest) == NumberLen(z + rest) by { StillNumber(z, rest); }
    if HexStarts(z) || OctStarts(z) {
      PlainNumberJoins(z, rest);
    } else if RunEnd(Digit, z, 0) == |z| {
      IntegerJoins(z, rest);
    } else {
      NotAllDigits(z);
      FractionStays(z, rest);
      if FractionEnd(z) == |z| || !IsE(z[FractionEnd(z)]) {
        NoExponent(z, rest);
      } else {
        ExponentJoins(z, rest);
      }
    }
  }

  lemma StillNumber(z: string, rest: string)
    requires IsNumber(z)
    ensures Together(z + rest) == NumberLen(z + rest)
  {
    hide NumberLen, SpanIdent;
    AtConcat(z, rest, 0);
    AtConcat(z, rest, 1);
  }

  lemma NotAName(z: string)
    requires IsNumber(z)
    ensures !IsName(z)
  {}

  lemma NotAllDigits(z: string)
    requires RunEnd(Digit, z, 0) != |z|
    ensures RunEnd(Digit, z, 0) < |z|
  {}

  lemma NoExponent(z: string, rest: string)
    requires IsNumber(z) && !IsIdentCont(At(rest, 0)) && !HexStarts(z) && !OctStarts(z) && RunEnd(Digit, z, 0) < |z|
    requires FractionEnd(z) == |z| || (FractionEnd(z) < |z| && !IsE(z[FractionEnd(z)]))
    ensures NumberLen(z + rest) == |z| && !IsE(z[|z| - 1])
  {
    hide FractionEnd;
    NotIn(At(rest, 0));
    SameStart(z, rest);
    FractionStays(z, rest);
    AtConcat(z, rest, FractionEnd(z));
    SuffixStays(z, rest, FractionEnd(z));
  }

  /** For every token: what follows is drawn into it exactly under the condition on its kind and the next characters. */
  lemma TokenJoinsIff(z: string, rest: string)
    requires IsToken(z) && (IsPunct(z) || !IsIdentCont(At(rest, 0)))
    ensures Together(z + rest) != |z| <==> Joins(z, rest)
  {
    hide Together, Joins, IsNumber, IsPunct, IsName;
    if IsPunct(z) { PunctJoins(z, rest); } else if IsName(z) { NameJoins(z, rest); } else { NumberJoins(z, rest); }
  }

  /** The test the program makes between a body and a spliced argument is on the safe side for punctuators. */
  lemma JoinsFuses(z: string, rest: string)
    requires IsPunct(z) && Joins(z, rest)
    ensures rest != "" && Fuses(z[|z| - 1], rest[0])
  {
    PunctKinds(z);
  }

  /** It is not exact: + and * are kept apart though they make no token, and 1e and + are not kept apart though they do. */
  lemma FusesIsNotExact()
    ensures IsPunct("+") && Fuses('+', '*') && !Joins("+", "*")
    ensures IsNumber("1e") && !Fuses('e', '+') && Joins("1e", "+") && Together("1e" + "+") == 3
  {
    assert RunEnd(Digit, "1e", 0) == 1 && FractionEnd("1e") == 1 && ExponentEnd("1e") == 2 && NumberLen("1e") == 2;
    var s := "1e" + "+";
    assert s == "1e+" && RunEnd(Digit, s, 0) == 1 && FractionEnd(s) == 1 && ExponentEnd(s) == 3 && NumberLen(s) == 3;
  }

  // ---- next to a replacement ----

  lemma {:induction false} PunctWalk(active: set<string>, t: Table, at: Place, a: string, s: string)
    requires t.WellKeyed() && s != "" && IsIdentStart(s[0])
    requires forall i :: 0 <= i < |a| ==> !IsIdentStart(a[i]) && !IsQuote(a[i])
    requires forall i :: 0 < i < |a| && a[i - 1] == '/' ==> a[i] != '/' && a[i] != '*'
    ensures Go(active, t, at, a + s) == a + Go(active, t, at, s)
    decreases |a|
  {
    hide Go;
    if a == "" {
      assert a + s == s;
      assert "" + Go(active, t, at, s) == Go(active, t, at, s);
    } else {
      var u := a[1..];
      assert (a + s)[1..] == u + s;
      assert |a| > 1 ==> (a + s)[1] == a[1];
      GoOther(active, t, at, a + s);
      PunctWalk(active, t, at, u, s);
      assert [a[0]] + (u + Go(active, t, at, s)) == a + Go(active, t, at, s);
    }
  }

  lemma PunctShape(a: string)
    requires IsPunct(a)
    ensures forall i :: 0 <= i < |a| ==> !IsIdentStart(a[i]) && !IsQuote(a[i])
    ensures forall i :: 0 < i < |a| && a[i - 1] == '/' ==> a[i] != '/' && a[i] != '*'
  {
    hide NumberLen, SpanIdent;
    PunctKinds(a);
  }

  /** Text that begins with no name keeps its first character. */
  lemma GoHead(active: set<string>, t: Table, at: Place, r: string)
    requires t.WellKeyed() && (r == "" || !IsIdentStart(r[0]))
    ensures At(Go(active, t, at, r), 0) == At(r, 0)
  {
    hide Go, Ident, ScanLit, ScanBlockComment;
    GoParts(active, t, at, r);
  }

  /**
   * A replacement between a punctuator a and the text r: a, the body and the rest follow each other directly. The token a
   * takes in what comes after it, and the body's last token z what comes after that, exactly where Joins says; for z
   * other than a point that is decided by the first character of r.
   */
  lemma ReplacementJoins(active: set<string>, t: Table, at: Place, a: string, i: string, r: string, z: string)
    requires t.WellKeyed() && IsPunct(a) && i != "" && IsIdentStart(i[0]) && SpanIdent(i + r) == (i, r)
    requires Live(active, t, i) && i != "__FILE__" && i != "__LINE__"
    requires var m := t.Find(i).value;
      !m.func && !m.variadic && '#' !in m.body && !Candidate(active + {i}, t, m.body) && !EndsInComment(m.body)
    requires IsToken(z) && |z| <= |t.Find(i).value.body| && t.Find(i).value.body[|t.Find(i).value.body| - |z|..] == z
    ensures
      var body, rest := t.Find(i).value.body, Go(active, t, at, r);
      && Go(active, t, at, a + (i + r)) == a + (body + rest)
      && (Together(a + (body + rest)) != |a| <==> Joins(a, body + rest))
      && (Together(z + rest) != |z| <==> Joins(z, rest))
      && (z != "." ==> Joins(z, rest) == Joins(z, r))
  {
    hide Go, Candidate, EndsInComment, Ident, SpanIdent, Together, Joins, IsPunct, IsToken;
    var body, rest := t.Find(i).value.body, Go(active, t, at, r);
    assert (i + r)[0] == i[0];
    PunctShape(a);
    PunctWalk(active, t, at, a, i + r);
    GoName(active, t, at, i + r);
    ReplacedByBody(active, t, at, i, r);
    assert IsToken(a) by { PunctIsToken(a); }
    TokenJoinsIff(a, body + rest);
    RestStarts(i, r);
    GoHead(active, t, at, r);
    TokenJoinsIff(z, rest);
    if z != "." { FirstDecides(z, rest, r); }
  }

  lemma PunctIsToken(a: string)
    requires IsPunct(a)
    ensures IsToken(a)
  {}

  lemma RestStarts(i: string, r: string)
    requires SpanIdent(i + r) == (i, r)
    ensures !IsIdentCont(At(r, 0)) && (r == "" || !IsIdentStart(r[0]))
  {
    hide SpanIdent;
  }

  lemma FirstDecides(z: string, u: string, v: string)
    requires z != "." && At(u, 0) == At(v, 0)
    ensures Joins(z, u) == Joins(z, v)
  {
    hide IsName, IsNumber, HexStarts, OctStarts;
  }

  // ---- -N ----

  /** With N defined as -1 the text -N comes out as --1, which begins with a decrement. */
  lemma MinusMinus(at: Place)
    ensures
      var t := EMPTY.Define(Macro("N", false, false, [], "-1", false));
      t.WellKeyed() && Rescan({}, t, at, "-N", false) == "--1" && Together("--1") == 2
  {
    hide Go, Candidate, EndsInComment, Ident, SpanIdent;
    var t := EMPTY.Define(Macro("N", false, false, [], "-1", false));
    LoneIdent('N');
    MinusOne(t);
    assert "-N" == "-" + ("N" + "") && "N" + "" == "N";
    IsMinus();
    IsOne();
    assert "-1"[1..] == "1";
    ReplacementJoins({}, t, at, "-", "N", "", "1");
    GoParts({}, t, at, "");
    assert "-" + ("-1" + "") == "--1";
    assert At("--1", 0) == '-' && At("--1", 1) == '-';
  }

  lemma IsMinus()
    ensures IsPunct("-") && IsToken("-")
  {
    hide NumberLen, SpanIdent;
  }

  lemma IsOne()
    ensures IsToken("1")
  {
    assert RunEnd(Digit, "1", 0) == 1 && FractionEnd("1") == 1 && ExponentEnd("1") == 1 && NumberLen("1") == 1;
  }

  lemma MinusOne(t: Table)
    ensures !Candidate({} + {"N"}, t, "-1") && !EndsInComment("-1") && '#' !in "-1"
  {
    hide Candidate, EndsInComment;
    NoCandidate({} + {"N"}, t);
    CleanStep({} + {"N"}, t, '1', "");
    CleanStep({} + {"N"}, t, '-', "1");
    EmptyEnds();
    EndsStep('1', "");
    EndsStep('-', "1");
    assert ['1'] + "" == "1" && ['-'] + "1" == "-1";
  }
}
