/** Calls that src/C99/Preprocess.hs expands otherwise than section 6.10.3 of ISO/IEC 9899:1999 says. */
module ArgumentCases {
  import Decimal
  import opened Options
  import opened MacroText
  import opened Macros
  import opened ExpandProof
  import opened Painting
  import opened Arguments

  // ---- where they do not ----

  /** f(x) defined as x, g(x) as f(x), h as f(3), k as f, and j as (f. */
  const SAME: Table := EMPTY.Define(Macro("f", true, false, ["x"], "x", false))
    .Define(Macro("g", true, false, ["x"], "f(x)", false)).Define(Macro("h", false, false, [], "f(3)", false))
    .Define(Macro("k", false, false, [], "f", false)).Define(Macro("j", false, false, [], "(f", false))

  lemma SameParts()
    ensures SAME.WellKeyed() && SAME.Find("f") == Some(Macro("f", true, false, ["x"], "x", false))
    ensures SAME.Find("g") == Some(Macro("g", true, false, ["x"], "f(x)", false))
    ensures SAME.Find("h") == Some(Macro("h", false, false, [], "f(3)", false))
    ensures SAME.Find("k") == Some(Macro("k", false, false, [], "f", false))
    ensures SAME.Find("j") == Some(Macro("j", false, false, [], "(f", false))
    ensures "f" != "h" && "f" != "g" && "f" != "k" && "f" != "j"
    ensures Live({}, SAME, "f") && Live({}, SAME, "g") && Live({}, SAME, "h") && Live({}, SAME, "k")
    ensures Live({}, SAME, "j") && IsName("j") && "j" != "__FILE__" && "j" != "__LINE__"
    ensures IsName("f") && IsName("g") && IsName("h") && IsName("k") && IsName("x")
    ensures "f" != "__FILE__" && "f" != "__LINE__" && "h" != "__FILE__" && "h" != "__LINE__"
    ensures "g" != "__FILE__" && "g" != "__LINE__" && "k" != "__FILE__" && "k" != "__LINE__"
  {
    assert "f"[0] != "g"[0] && "g"[0] != "h"[0] && "k"[0] != "f"[0] && "k"[0] != "g"[0] && "k"[0] != "h"[0];
    assert "j"[0] != "f"[0] && "j"[0] != "g"[0] && "j"[0] != "h"[0] && "j"[0] != "k"[0];
    LoneIdent('f');
    LoneIdent('j');
    LoneIdent('k');
    LoneIdent('g');
    LoneIdent('h');
    LoneIdent('x');
    assert "f"[0] != "h"[0];
  }

  lemma FPart()
    ensures SAME.WellKeyed() && SAME.Find("f") == Some(Macro("f", true, false, ["x"], "x", false))
    ensures Live({}, SAME, "f") && IsName("f") && "f" != "__FILE__" && "f" != "__LINE__" && IsName("x")
  {
    SameParts();
  }

  lemma GPart()
    ensures SAME.WellKeyed() && SAME.Find("g") == Some(Macro("g", true, false, ["x"], "f(x)", false))
    ensures Live({}, SAME, "g") && IsName("g") && "g" != "__FILE__" && "g" != "__LINE__" && "f" != "g"
  {
    SameParts();
  }

  lemma HPart()
    ensures SAME.WellKeyed() && SAME.Find("h") == Some(Macro("h", false, false, [], "f(3)", false))
    ensures Live({}, SAME, "h") && IsName("h") && "h" != "__FILE__" && "h" != "__LINE__" && "f" != "h"
  {
    SameParts();
  }

  lemma KPart()
    ensures SAME.WellKeyed() && SAME.Find("k") == Some(Macro("k", false, false, [], "f", false))
    ensures Live({}, SAME, "k") && IsName("k") && "k" != "__FILE__" && "k" != "__LINE__" && "f" != "k"
  {
    SameParts();
  }

  lemma JPart()
    ensures SAME.WellKeyed() && SAME.Find("j") == Some(Macro("j", false, false, [], "(f", false))
    ensures Live({}, SAME, "j") && IsName("j") && "j" != "__FILE__" && "j" != "__LINE__" && "f" != "j"
  {
    SameParts();
  }

  /** The text f(d). */
  function CallText(d: char): string { ['f'] + (['('] + ([d] + ([')'] + ""))) }

  lemma CallTextIs(d: char)
    requires Decimal.IsDigit(d)
    ensures CallText(d) != "" && CallText(d)[0] == 'f' && SpanIdent(CallText(d)) == ("f", ['('] + ([d] + ([')'] + "")))
    ensures forall active :: "f" in active ==> !Candidate(active, SAME, CallText(d))
    ensures !EndsInComment(CallText(d)) && !EndsInComment([d]) && forall active :: !Candidate(active, SAME, [d])
  {
    hide Candidate, EndsInComment, SpanIdent, SAME;
    NameThen(['('] + ([d] + ([')'] + "")));
    EmptyEnds();
    EndsStep(')', "");
    EndsStep(d, [')'] + "");
    EndsStep('(', [d] + ([')'] + ""));
    IdentEnds(CallText(d));
    EndsStep(d, "");
    assert [d] + "" == [d];
    forall active
      ensures !Candidate(active, SAME, [d]) && ("f" in active ==> !Candidate(active, SAME, CallText(d)))
    {
      NoCandidate(active, SAME);
      CleanStep(active, SAME, d, "");
      CleanStep(active, SAME, ')', "");
      CleanStep(active, SAME, d, [')'] + "");
      CleanStep(active, SAME, '(', [d] + ([')'] + ""));
      FPart();
      if "f" in active { CleanName(active, SAME, CallText(d)); }
    }
  }

  lemma EndsStep(c: char, r: string)
    requires c != '/' && !IsQuote(c)
    ensures EndsInComment([c] + r) == EndsInComment(r)
  {
    hide EndsInComment, InsideAtEnd;
    EndsParts([c] + r);
    assert ([c] + r)[1..] == r;
  }

  lemma CleanStep(active: set<string>, t: Table, c: char, r: string)
    requires !IsIdentStart(c)
    ensures Candidate(active, t, [c] + r) == Candidate(active, t, r)
  {
    assert ([c] + r)[1..] == r;
  }

  lemma CleanName(active: set<string>, t: Table, s: string)
    requires s != "" && IsIdentStart(s[0])
    requires !Live(active, t, SpanIdent(s).0) && !Candidate(active, t, SpanIdent(s).1)
    ensures !Candidate(active, t, s)
  {}

  lemma NestedArgs()
    ensures var s := CallText('1') + ([')'] + "");
      DropSpaces(['('] + s) == ['('] + s && (['('] + s)[1..] == s && ScanArgs(s) == ([CallText('1')], "")
  {
    hide ScanArg, ScanArgs, DropSpaces;
    var u := [')'] + "";
    var v := [')'] + u;
    ClosedArg("");
    InnerClose(u);
    PlainArg('1', v, 1);
    InnerOpen(['1'] + v);
    PlainArg('f', ['('] + (['1'] + v), 0);
    assert CallText('1') + u == ['f'] + (['('] + (['1'] + v));
    assert ['f'] + (['('] + (['1'] + ([')'] + ""))) == CallText('1');
    CallOf(CallText('1') + u, CallText('1'), "");
  }

  lemma InnerClose(u: string)
    ensures ScanArg([')'] + u, 1) == ([')'] + ScanArg(u, 0).0, ScanArg(u, 0).1)
  {
    hide ScanLit;
    assert ([')'] + u)[1..] == u;
  }

  lemma InnerOpen(u: string)
    ensures ScanArg(['('] + u, 0) == (['('] + ScanArg(u, 1).0, ScanArg(u, 1).1)
  {
    hide ScanLit;
    assert (['('] + u)[1..] == u;
  }

  /** A call of f alone gives its argument. */
  lemma SingleCall(active: set<string>, at: Place, d: char)
    requires Decimal.IsDigit(d) && "f" !in active
    ensures SAME.WellKeyed() && Go(active, SAME, at, CallText(d)) == [d]
  {
    hide Go, Candidate, EndsInComment, Ident, SpanIdent, ScanArgs, DropSpaces, CallText, SAME;
    FPart();
    CallTextIs(d);
    OneDigitCall(d, "");
    var r := ['('] + ([d] + ([')'] + ""));
    ArgumentStays(active, SAME, at, "f", "x", r, [d]);
    GoName(active, SAME, at, CallText(d));
  }

  lemma NestedIn(active: set<string>, at: Place)
    requires "f" !in active
    ensures SAME.WellKeyed() && Go(active, SAME, at, "f(f(1))") == "f(1)"
  {
    hide Go, Candidate, EndsInComment, Ident, SpanIdent, ScanArgs, DropSpaces, SAME;
    FPart();
    CallTextIs('1');
    NestedArgs();
    var r := ['('] + (CallText('1') + ([')'] + ""));
    assert CallText('1') == "f(1)" && ['f'] + r == "f(f(1))";
    assert "f" in active + {"f"};
    ArgumentStays(active, SAME, at, "f", "x", r, CallText('1'));
    NameThen(r);
    GoName(active, SAME, at, ['f'] + r);
  }

  /** f(f(1)) comes out as f(1), where the argument alone gives 1: the argument mentions f. */
  lemma NestedCallStays(at: Place)
    ensures SAME.WellKeyed() && Go({}, SAME, at, "f(f(1))") == "f(1)" && Go({}, SAME, at, "f(1)") == "1"
  {
    hide Go;
    NestedIn({}, at);
    SingleCall({}, at, '1');
    assert CallText('1') == "f(1)" && ['1'] == "1";
  }

  /** So does g(f(1)): the argument has nothing to do with g, but f in the body of g reaches over it. */
  lemma ArgumentMeetsCallee(at: Place)
    ensures SAME.WellKeyed() && Go({}, SAME, at, "g(f(1))") == "f(1)" && Go({}, SAME, at, "f(1)") == "1"
  {
    hide Go, Candidate, EndsInComment, Ident, SpanIdent, ScanArgs, DropSpaces, Expand, PendingCall, Substituted, SAME;
    FPart();
    GPart();
    NestedCallStays(at);
    NestedIn({} + {"g"}, at);
    NestedArgs();
    var r := ['('] + (CallText('1') + ([')'] + ""));
    assert CallText('1') == "f(1)" && "g(f(1))" == ['g'] + r;
    GThen(r);
    GoName({}, SAME, at, "g(f(1))");
    IdentParts({}, SAME, at, "g", r);
    GBody();
    CandidateFF();
    ExpandLive({} + {"g"}, SAME, at, "f(f(1))");
    NothingPends({}, SAME, "f(1)");
    GoParts({}, SAME, at, "");
    assert "f(1)" + "" == "f(1)";
  }

  lemma GThen(r: string)
    requires r != "" && r[0] == '('
    ensures SpanIdent(['g'] + r) == ("g", r)
  {
    LoneIdent('g');
    SpanNameBlank("g", r);
  }

  lemma CandidateFF()
    ensures Candidate({}, SAME, "f(f(1))")
  {
    hide SpanIdent, SAME;
    FPart();
    var r := "(f(1))";
    assert "f(f(1))" == ['f'] + r;
    NameThen(r);
  }

  lemma GBody()
    ensures Substituted(SAME.Find("g").value, ["f(1)"]) == "f(f(1))"
  {
    hide Subst, SpanIdent, SAME;
    GPart();
    assert "f(x)" == "f" + (['('] + ("x" + ([')'] + "")));
    assert "f" + ['('] + "f(1)" + [')'] == "f(f(1))";
    CallAround(SAME.Find("g").value, "f(1)");
  }

  lemma CallAround(m: Macro, arg: string)
    requires m.params == ["x"] && !m.variadic && arg != "" && arg[0] == 'f' && arg[|arg| - 1] == ')'
    ensures Subst(m, [arg], false, false, "", "f" + (['('] + ("x" + ([')'] + "")))) == "f" + ['('] + arg + [')']
  {
    hide Subst, SpanIdent, Fuses;
    var r2 := [')'] + "";
    var r1 := "x" + r2;
    LoneIdent('f');
    LoneIdent('x');
    SpanNameBlank("f", ['('] + r1);
    SpanNameBlank("x", r2);
    Apart();
    OwnName(m, [arg], false, "", "f", ['('] + r1);
    assert "" + "f" == "f";
    OwnChar(m, [arg], false, "f", '(', r1);
    var acc := "f" + ['('];
    ArgName(m, [arg], false, acc, "x", r2);
    assert (acc + arg)[|acc + arg| - 1] == ')';
    OwnChar(m, [arg], true, acc + arg, ')', "");
    SubstEnds(m, [arg], acc + arg + [')']);
  }

  lemma Apart()
    ensures !Fuses('f', '(') && !Fuses('(', 'f') && !Fuses(')', ')') && "f" != "x"
  {
    assert "f"[0] != "x"[0];
  }

  lemma SubstEnds(m: Macro, args: seq<string>, acc: string)
    ensures Subst(m, args, false, false, acc, "") == acc
  {}

  lemma OwnName(m: Macro, args: seq<string>, spliced: bool, acc: string, i: string, r: string)
    requires i != "" && IsIdentStart(i[0]) && SpanIdent(i + r) == (i, r) && ParamIndex(m.params, i).None? && !m.variadic
    ensures Subst(m, args, spliced, false, acc, i + r) == Subst(m, args, false, false, acc + i, r)
  {
    assert (i + r)[0] == i[0];
  }

  lemma OwnChar(m: Macro, args: seq<string>, spliced: bool, acc: string, c: char, r: string)
    requires c != '#' && !IsIdentStart(c) && acc != "" && !Fuses(acc[|acc| - 1], c)
    ensures Subst(m, args, spliced, false, acc, [c] + r) == Subst(m, args, false, false, acc + [c], r)
  {
    assert ([c] + r)[1..] == r;
  }

  lemma ArgName(m: Macro, args: seq<string>, spliced: bool, acc: string, i: string, r: string)
    requires i != "" && IsIdentStart(i[0]) && SpanIdent(i + r) == (i, r)
    requires ParamIndex(m.params, i) == Some(0) && args != [] && args[0] != "" && acc != ""
    requires !Fuses(acc[|acc| - 1], args[0][0])
    ensures Subst(m, args, spliced, false, acc, i + r) == Subst(m, args, true, false, acc + args[0], r)
  {
    assert (i + r)[0] == i[0];
  }

  /** f(h) comes out as f(3), where the argument alone gives 3: it does not mention f, but its expansion comes to f. */
  lemma ArgumentLeadsBack(at: Place)
    ensures SAME.WellKeyed() && Go({}, SAME, at, "f(h)") == "f(3)" && Go({}, SAME, at, "h") == "3"
  {
    hide Go, Candidate, EndsInComment, Ident, SpanIdent, ScanArgs, DropSpaces, Expand, PendingCall, Substituted, SAME;
    FPart();
    HPart();
    CallTextIs('3');
    assert CallText('3') == "f(3)" && ['3'] == "3";
    HBodies(at);
    OneNameCall();
    var r := ['('] + (['h'] + ([')'] + ""));
    assert "f(h)" == ['f'] + r;
    NameThen(r);
    GoName({}, SAME, at, "f(h)");
    IdentParts({}, SAME, at, "f", r);
    OnlyParameter(SAME.Find("f").value, "x", "h");
    NothingPends({}, SAME, "f(3)");
    GoParts({}, SAME, at, "");
  }

  lemma OneNameCall()
    ensures var s := ['h'] + ([')'] + "");
      DropSpaces(['('] + s) == ['('] + s && (['('] + s)[1..] == s && ScanArgs(s) == (["h"], "")
  {
    hide ScanArg, ScanArgs, DropSpaces;
    ClosedArg("");
    PlainArg('h', [')'] + "", 0);
    assert ['h'] + "" == "h";
    CallOf(['h'] + ([')'] + ""), "h", "");
  }

  /** h alone, and h in the replacement of f. */
  lemma HBodies(at: Place)
    ensures SAME.WellKeyed() && Go({}, SAME, at, "h") == "3" && Expand({} + {"f"}, SAME, at, "h", false) == "f(3)"
  {
    hide Go, Candidate, EndsInComment, Ident, SpanIdent, Expand, Substituted, SAME;
    FPart();
    HPart();
    CallTextIs('3');
    assert CallText('3') == "f(3)";
    LoneIdent('h');
    GoName({}, SAME, at, "h");
    GoName({"f"}, SAME, at, "h");
    GoParts({}, SAME, at, "");
    GoParts({"f"}, SAME, at, "");
    var m := SAME.Find("h").value;
    NoHash();
    PlainBody(m, "", m.body);
    SubstitutedIs(m);
    IdentParts({}, SAME, at, "h", "");
    ReplacedByBody({"f"}, SAME, at, "h", "");
    SingleCall({} + {"h"}, at, '3');
    RescanIsGo({} + {"h"}, SAME, at, "f(3)");
    assert {} + {"f"} == {"f"} && "f(3)" + "" == "f(3)" && "3" + "" == "3";
    HIsLive();
    ExpandLive({"f"}, SAME, at, "h");
  }

  lemma NoHash()
    ensures '#' !in "f(3)"
  {}

  lemma SubstitutedIs(m: Macro)
    requires Subst(m, [], false, false, "", m.body) == "" + m.body
    ensures Substituted(m, []) == m.body
  {}

  lemma HIsLive()
    ensures Candidate({}, SAME, "h")
  {
    hide SpanIdent, SAME;
    HPart();
    LoneIdent('h');
  }

  lemma ExpandLive(active: set<string>, t: Table, at: Place, s: string)
    requires t.WellKeyed() && Candidate({}, t, s)
    ensures Expand(active, t, at, s, false) == Go(active, t, at, s)
  {
    hide Go, Candidate;
  }

  // ---- replacements that end in the name of a function-like macro ----

  lemma NameHasNoHash(n: string)
    requires IsName(n)
    ensures '#' !in n
  {
    assert SpanIdent(n).0 == n;
  }

  lemma LiveName(t: Table, n: string)
    requires IsName(n) && t.Find(n).Some?
    ensures Candidate({}, t, n)
  {
    hide SpanIdent;
  }

  /** k(1) comes out as f(1), where f(1) is 1. */
  lemma AliasNotCalled(at: Place)
    ensures SAME.WellKeyed() && Go({}, SAME, at, "k(1)") == "f(1)" && Go({}, SAME, at, "f(1)") == "1"
  {
    hide Go, SAME;
    KComesOut(at);
    SingleCall({}, at, '1');
    assert CallText('1') == "f(1)" && ['1'] == "1";
  }

  lemma KComesOut(at: Place)
    ensures SAME.WellKeyed() && Go({}, SAME, at, "k(1)") == "f(1)"
  {
    hide Go, Ident, SpanIdent, Candidate, EndsInComment, Substituted, Breaks, Rescanned, SAME;
    FPart();
    KPart();
    var r := "(1)";
    assert "k(1)" == ['k'] + r;
    LetterThen('k', r);
    GoName({}, SAME, at, ['k'] + r);
    KBody();
    assert {} + {"k"} == {"k"} && "" + "f" == "f" && "" + "f" + "(1)" == "f(1)";
    TrailingNameStays({}, SAME, at, "k", "", "f", r);
    GoParts({"k"}, SAME, at, "");
    PlainOne(at);
  }

  lemma KBody()
    ensures Substituted(SAME.Find("k").value, []) == "f" && Rescanned(SAME, "f") && Breaks({"k"}, SAME, "", "f")
  {
    hide Candidate, EndsInComment, SpanIdent, Substituted, Subst, SAME;
    FPart();
    KPart();
    var m := SAME.Find("k").value;
    NameHasNoHash("f");
    PlainBody(m, "", m.body);
    SubstitutedIs(m);
    LiveName(SAME, "f");
  }

  /** Nor need the name be all of the replacement: j(1) comes out as (f(1), where (f(1) is (1. */
  lemma TrailingNotCalled(at: Place)
    ensures SAME.WellKeyed() && Go({}, SAME, at, "j(1)") == "(f(1)" && Go({}, SAME, at, "(f(1)") == "(1"
  {
    hide Go, SAME;
    assert SAME.WellKeyed() by { FPart(); }
    JComesOut(at);
    SingleCall({}, at, '1');
    assert CallText('1') == "f(1)" && ['1'] == "1" && "(f(1)" == ['('] + "f(1)" && ['('] + "1" == "(1";
    GoStep({}, SAME, at, '(', "f(1)");
  }

  lemma JComesOut(at: Place)
    ensures SAME.WellKeyed() && Go({}, SAME, at, "j(1)") == "(f(1)"
  {
    hide Go, Ident, SpanIdent, Candidate, EndsInComment, Substituted, Breaks, Rescanned, SAME;
    FPart();
    JPart();
    var r := "(1)";
    assert "j(1)" == ['j'] + r;
    LetterThen('j', r);
    GoName({}, SAME, at, ['j'] + r);
    JBody();
    assert {} + {"j"} == {"j"} && "(" + "f" == "(f" && "(" + "f" + "(1)" == "(f(1)";
    TrailingNameStays({}, SAME, at, "j", "(", "f", r);
    JustParen(at);
    PlainOne(at);
  }

  lemma JustParen(at: Place)
    ensures SAME.WellKeyed() && Go({"j"}, SAME, at, "(") == "("
  {
    hide Go, SAME;
    FPart();
    GoParts({"j"}, SAME, at, "");
    GoStep({"j"}, SAME, at, '(', "");
    assert ['('] + "" == "(";
  }

  lemma JBody()
    ensures Substituted(SAME.Find("j").value, []) == "(f" && Rescanned(SAME, "(f") && Breaks({"j"}, SAME, "(", "f")
  {
    hide Candidate, EndsInComment, SpanIdent, Substituted, Subst, SAME;
    FPart();
    JPart();
    var m := SAME.Find("j").value;
    assert '#' !in m.body;
    PlainBody(m, "", m.body);
    SubstitutedIs(m);
    LiveName(SAME, "f");
    CleanStep({}, SAME, '(', "f");
    assert ['('] + "f" == "(f" && "("[1..] == "" && "(" + "f" == "(f";
  }

  lemma LetterThen(c: char, r: string)
    requires r != "" && r[0] == '(' && IsIdentStart(c)
    ensures SpanIdent([c] + r) == ([c], r)
  {
    LoneIdent(c);
    SpanNameBlank([c], r);
  }

  lemma GoStep(active: set<string>, t: Table, at: Place, c: char, r: string)
    requires t.WellKeyed() && c != '/' && !IsQuote(c) && !IsIdentStart(c)
    ensures Go(active, t, at, [c] + r) == [c] + Go(active, t, at, r)
  {
    hide Go;
    assert ([c] + r)[1..] == r;
    GoOther(active, t, at, [c] + r);
  }

  lemma PlainOne(at: Place)
    ensures SAME.WellKeyed() && Go({}, SAME, at, "(1)") == "(1)"
  {
    hide Go, Candidate, EndsInComment, SAME;
    FPart();
    PlainThree(SAME, at, '(', '1', ')');
    assert ['('] + (['1'] + ([')'] + "")) == "(1)";
  }

  lemma PlainThree(t: Table, at: Place, a: char, b: char, c: char)
    requires t.WellKeyed() && forall x :: x in [a, b, c] ==> x != '/' && !IsQuote(x) && !IsIdentStart(x)
    ensures var s := [a] + ([b] + ([c] + "")); Go({}, t, at, s) == s
  {
    hide Go;
    assert a in [a, b, c] && b in [a, b, c] && c in [a, b, c];
    GoParts({}, t, at, "");
    GoStep({}, t, at, c, "");
    GoStep({}, t, at, b, [c] + "");
    GoStep({}, t, at, a, [b] + ([c] + ""));
  }
}
