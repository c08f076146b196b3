/** Expansion with paint carried on the names it retires (section 6.10.3.4p2 of ISO/IEC 9899:1999), and where
    src/C99/Preprocess.hs, whose text carries none, agrees with it. */
module Painting {
  import Decimal
  import opened Options
  import opened MacroText
  import opened Macros
  import opened ExpandProof

  /** A character, and whether it belongs to a name that is never to be replaced again. */
  datatype Mark = Mark(c: char, off: bool)

  function Marks(s: string, off: bool): (m: seq<Mark>)
    ensures |m| == |s|
  {
    seq(|s|, i requires 0 <= i < |s| => Mark(s[i], off))
  }

  function Erase(m: seq<Mark>): (s: string)
    ensures |s| == |m|
  {
    seq(|m|, i requires 0 <= i < |m| => m[i].c)
  }

  lemma EraseMarks(s: string, off: bool)
    ensures Erase(Marks(s, off)) == s
  {}

  lemma EraseConcat(a: seq<Mark>, b: seq<Mark>)
    ensures Erase(a + b) == Erase(a) + Erase(b)
  {}

  /** Does the text hold a retired name? */
  predicate Retired(m: seq<Mark>) { exists i :: 0 <= i < |m| && m[i].off }

  // ---- the reference ----

  function PaintExpand(active: set<string>, t: Table, at: Place, s: string): seq<Mark>
    requires t.WellKeyed()
    decreases t.Names() - active, Parens(s), |s|, 2
  {
    if !Candidate({}, t, s) then Marks(s, false) else PaintGo(active, t, at, s)
  }

  function PaintGo(active: set<string>, t: Table, at: Place, s: string): seq<Mark>
    requires t.WellKeyed()
    decreases t.Names() - active, Parens(s), |s|, 0, 1
  {
    if s == "" then []
    else if |s| >= 2 && s[0] == '/' && s[1] == '/' then Marks(s, false)
    else if |s| >= 2 && s[0] == '/' && s[1] == '*' then
      var (c, r) := ScanBlockComment(s[2..]);
      SuffixParens(r, s);
      Marks(s[..2] + c, false) + PaintGo(active, t, at, r)
    else if IsQuote(s[0]) then
      var (l, r) := ScanLit(s[0], s[1..]);
      SuffixParens(r, s);
      Marks([s[0]] + l, false) + PaintGo(active, t, at, r)
    else if IsIdentStart(s[0]) then
      var (i, r) := SpanIdent(s);
      SuffixParens(r, s);
      PaintIdent(active, t, at, i, r)
    else
      SuffixParens(s[1..], s);
      Marks([s[0]], false) + PaintGo(active, t, at, s[1..])
  }

  /** A name met inside its own replacement is retired for good; a call is fed back only by a name that is not. */
  function PaintIdent(active: set<string>, t: Table, at: Place, i: string, r: string): seq<Mark>
    requires t.WellKeyed() && i != ""
    decreases t.Names() - active, Parens(r), |i| + |r|, 0, 0
  {
    if i == "__FILE__" then Marks("\"" + Forward(at.file) + "\"", false) + PaintGo(active, t, at, r)
    else if i == "__LINE__" then Marks(Spelled(at.line), false) + PaintGo(active, t, at, r)
    else if i in active || t.Find(i).None? then Marks(i, i in active) + PaintGo(active, t, at, r)
    else
      var m := t.Find(i).value;
      Shrinks(active, t, i);
      if !m.func then
        PaintExpand(active + {i}, t, at, Substituted(m, [])) + PaintGo(active, t, at, r)
      else
        var r0 := DropSpaces(r);
        if r0 != "" && r0[0] == '(' then
          var (args, r2) := ScanArgs(r0[1..]);
          var ex := PaintExpand(active + {i}, t, at, Substituted(m, args));
          CallUsesParen(r, r2);
          match (if Retired(ex) then None else PendingCall(active, t, Erase(ex), r2))
          case Some(n) =>
            IdentHasNoParens(n);
            ParensConcat(n, r2);
            PaintGo(active, t, at, n + r2)
          case None => ex + PaintGo(active, t, at, r2)
        else Marks(i, false) + PaintGo(active, t, at, r)
  }

  // ---- where the program does the same ----

  predicate KeepsExpand(active: set<string>, t: Table, at: Place, s: string)
    requires t.WellKeyed()
    decreases t.Names() - active, Parens(s), |s|, 2
  {
    Candidate({}, t, s) ==> KeepsPaint(active, t, at, s)
  }

  /** No call in the course of this expansion is fed back by a retired name. */
  predicate KeepsPaint(active: set<string>, t: Table, at: Place, s: string)
    requires t.WellKeyed()
    decreases t.Names() - active, Parens(s), |s|, 0, 1
  {
    if s == "" || (|s| >= 2 && s[0] == '/' && s[1] == '/') then true
    else if |s| >= 2 && s[0] == '/' && s[1] == '*' then
      var r := ScanBlockComment(s[2..]).1;
      SuffixParens(r, s);
      KeepsPaint(active, t, at, r)
    else if IsQuote(s[0]) then
      var r := ScanLit(s[0], s[1..]).1;
      SuffixParens(r, s);
      KeepsPaint(active, t, at, r)
    else if IsIdentStart(s[0]) then
      var (i, r) := SpanIdent(s);
      SuffixParens(r, s);
      KeepsIdent(active, t, at, i, r)
    else
      SuffixParens(s[1..], s);
      KeepsPaint(active, t, at, s[1..])
  }

  predicate KeepsIdent(active: set<string>, t: Table, at: Place, i: string, r: string)
    requires t.WellKeyed() && i != ""
    decreases t.Names() - active, Parens(r), |i| + |r|, 0, 0
  {
    if !Live(active, t, i) || i == "__FILE__" || i == "__LINE__" then KeepsPaint(active, t, at, r)
    else
      var m := t.Find(i).value;
      Shrinks(active, t, i);
      if !m.func then
        KeepsExpand(active + {i}, t, at, Substituted(m, [])) && KeepsPaint(active, t, at, r)
      else
        var r0 := DropSpaces(r);
        if r0 != "" && r0[0] == '(' then
          var (args, r2) := ScanArgs(r0[1..]);
          var ex := PaintExpand(active + {i}, t, at, Substituted(m, args));
          CallUsesParen(r, r2);
          KeepsExpand(active + {i}, t, at, Substituted(m, args)) &&
          match PendingCall(active, t, Erase(ex), r2)
          case Some(n) =>
            IdentHasNoParens(n);
            ParensConcat(n, r2);
            !Retired(ex) && KeepsPaint(active, t, at, n + r2)
          case None => KeepsPaint(active, t, at, r2)
        else KeepsPaint(active, t, at, r)
  }

  lemma {:induction false} ExpandKeepsPaint(active: set<string>, t: Table, at: Place, s: string)
    requires t.WellKeyed() && KeepsExpand(active, t, at, s)
    ensures Erase(PaintExpand(active, t, at, s)) == Expand(active, t, at, s, false)
    decreases t.Names() - active, Parens(s), |s|, 2
  {
    if Candidate({}, t, s) { PaintAgrees(active, t, at, s); } else { EraseMarks(s, false); }
  }

  /** On every text where no retired name feeds a call back, the program expands as the reference does. */
  lemma {:induction false} PaintAgrees(active: set<string>, t: Table, at: Place, s: string)
    requires t.WellKeyed() && KeepsPaint(active, t, at, s)
    ensures Erase(PaintGo(active, t, at, s)) == Go(active, t, at, s)
    decreases t.Names() - active, Parens(s), |s|, 0, 2
  {
    hide Erase, Marks, Ident, PaintIdent, KeepsIdent, Candidate;
    if s == "" {
      EraseMarks("", false);
      assert Erase([]) == "";
    } else if |s| >= 2 && s[0] == '/' && s[1] == '/' {
      EraseMarks(s, false);
    } else if |s| >= 2 && s[0] == '/' && s[1] == '*' {
      var (c, r) := ScanBlockComment(s[2..]);
      SuffixParens(r, s);
      PaintAgrees(active, t, at, r);
      EraseMarks(s[..2] + c, false);
      EraseConcat(Marks(s[..2] + c, false), PaintGo(active, t, at, r));
    } else if IsQuote(s[0]) {
      var (l, r) := ScanLit(s[0], s[1..]);
      SuffixParens(r, s);
      PaintAgrees(active, t, at, r);
      EraseMarks([s[0]] + l, false);
      EraseConcat(Marks([s[0]] + l, false), PaintGo(active, t, at, r));
    } else if IsIdentStart(s[0]) {
      var (i, r) := SpanIdent(s);
      SuffixParens(r, s);
      IdentAgrees(active, t, at, i, r);
    } else {
      SuffixParens(s[1..], s);
      PaintAgrees(active, t, at, s[1..]);
      EraseMarks([s[0]], false);
      EraseConcat(Marks([s[0]], false), PaintGo(active, t, at, s[1..]));
    }
  }

  /** A text that stays, in front of the rest. */
  lemma Prefixed(a: string, off: bool, rest: seq<Mark>, plain: string)
    requires Erase(rest) == plain
    ensures Erase(Marks(a, off) + rest) == a + plain
  {
    hide Erase, Marks;
    EraseMarks(a, off);
    EraseConcat(Marks(a, off), rest);
  }

  lemma {:induction false} IdentAgrees(active: set<string>, t: Table, at: Place, i: string, r: string)
    requires t.WellKeyed() && i != "" && KeepsIdent(active, t, at, i, r)
    ensures Erase(PaintIdent(active, t, at, i, r)) == Ident(active, t, at, i, r)
    decreases t.Names() - active, Parens(r), |i| + |r|, 0, 1
  {
    hide Erase, Marks, Go, PaintGo, KeepsPaint, Expand, PaintExpand, KeepsExpand, Retired, PendingCall;
    var rest := PaintGo(active, t, at, r);
    if i == "__FILE__" {
      PaintAgrees(active, t, at, r);
      Prefixed("\"" + Forward(at.file) + "\"", false, rest, Go(active, t, at, r));
    } else if i == "__LINE__" {
      PaintAgrees(active, t, at, r);
      Prefixed(Spelled(at.line), false, rest, Go(active, t, at, r));
    } else if !Live(active, t, i) {
      PaintAgrees(active, t, at, r);
      Prefixed(i, i in active, rest, Go(active, t, at, r));
    } else if !t.Find(i).value.func {
      var text := Substituted(t.Find(i).value, []);
      Shrinks(active, t, i);
      ExpandKeepsPaint(active + {i}, t, at, text);
      PaintAgrees(active, t, at, r);
      EraseConcat(PaintExpand(active + {i}, t, at, text), rest);
    } else {
      var r0 := DropSpaces(r);
      if r0 != "" && r0[0] == '(' {
        CallAgrees(active, t, at, i, r);
      } else {
        PaintAgrees(active, t, at, r);
        Prefixed(i, false, rest, Go(active, t, at, r));
      }
    }
  }

  lemma {:induction false} CallAgrees(active: set<string>, t: Table, at: Place, i: string, r: string)
    requires t.WellKeyed() && i != "" && KeepsIdent(active, t, at, i, r)
    requires Live(active, t, i) && i != "__FILE__" && i != "__LINE__" && t.Find(i).value.func
    requires DropSpaces(r) != "" && DropSpaces(r)[0] == '('
    ensures Erase(PaintIdent(active, t, at, i, r)) == Ident(active, t, at, i, r)
    decreases t.Names() - active, Parens(r), |i| + |r|, 0, 0
  {
    hide Erase, Marks, Go, PaintGo, KeepsPaint, Expand, PaintExpand, KeepsExpand, Retired, PendingCall, ScanArgs;
    var (args, r2) := ScanArgs(DropSpaces(r)[1..]);
    var text := Substituted(t.Find(i).value, args);
    var ex := PaintExpand(active + {i}, t, at, text);
    Shrinks(active, t, i);
    CallUsesParen(r, r2);
    ExpandKeepsPaint(active + {i}, t, at, text);
    match PendingCall(active, t, Erase(ex), r2)
    case Some(n) =>
      IdentHasNoParens(n);
      ParensConcat(n, r2);
      PaintAgrees(active, t, at, n + r2);
    case None =>
      PaintAgrees(active, t, at, r2);
      EraseConcat(ex, PaintGo(active, t, at, r2));
  }

  // ---- when a retired name comes back ----

  predicate Blank(s: string) { DropSpaces(s) == "" }

  /** The name n and nothing else but blanks. */
  ghost predicate Bare(ex: string, n: string) {
    exists k :: 0 <= k <= |ex| - |n| && BareAt(ex, n, k)
  }

  predicate BareAt(ex: string, n: string, k: nat)
    requires k <= |ex| - |n|
  {
    Blank(ex[..k]) && ex[k..k + |n|] == n && Blank(ex[k + |n|..])
  }

  predicate IsName(n: string) { n != "" && IsIdentStart(n[0]) && SpanIdent(n) == (n, "") }

  predicate StartsCall(s: string) { DropSpaces(s) != "" && DropSpaces(s)[0] == '(' }

  lemma {:induction false} DropSpacesTakes(s: string) returns (k: nat)
    ensures k <= |s| && DropSpaces(s) == s[k..] && Blank(s[..k])
    decreases |s|
  {
    k := 0;
    if s != "" && IsSpaceTab(s[0]) {
      k := DropSpacesTakes(s[1..]);
      assert s[1..][k..] == s[k + 1..] && s[..k + 1][1..] == s[1..][..k];
      k := k + 1;
    }
  }

  lemma {:induction false} DropBlank(a: string, b: string)
    requires Blank(a)
    ensures DropSpaces(a + b) == DropSpaces(b)
    decreases |a|
  {
    if a == "" {
      assert a + b == b;
    } else {
      assert (a + b)[1..] == a[1..] + b;
      DropBlank(a[1..], b);
    }
  }

  lemma {:induction false} SpanNameBlank(n: string, b: string)
    requires forall i :: 0 <= i < |n| ==> IsIdentCont(n[i])
    requires b == "" || !IsIdentCont(b[0])
    ensures SpanIdent(n + b) == (n, b)
    decreases |n|
  {
    if n == "" {
      assert n + b == b;
    } else {
      assert (n + b)[1..] == n[1..] + b && [n[0]] + n[1..] == n;
      SpanNameBlank(n[1..], b);
    }
  }

  lemma BlankStart(b: string)
    requires Blank(b)
    ensures b == "" || !IsIdentCont(b[0])
  {}

  lemma BareSpans(ex: string)
    ensures var (n, tl) := SpanIdent(DropSpaces(ex));
      SpanIdent(n) == (n, "") && (Blank(tl) ==> Bare(ex, n))
  {
    hide SpanIdent, DropSpaces;
    var k := DropSpacesTakes(ex);
    var (n, tl) := SpanIdent(DropSpaces(ex));
    SpanNameBlank(n, "");
    assert n + "" == n;
    if Blank(tl) { BareFrom(ex, k, n, tl); }
  }

  lemma BareFrom(ex: string, k: nat, n: string, tl: string)
    requires k <= |ex| && Blank(ex[..k]) && ex[k..] == n + tl && Blank(tl)
    ensures Bare(ex, n)
  {
    hide Blank;
    var s := n + tl;
    assert s[..|n|] == n && s[|n|..] == tl;
    assert ex[k..k + |n|] == ex[k..][..|n|] && ex[k + |n|..] == ex[k..][|n|..];
    assert BareAt(ex, n, k);
  }

  lemma InThree(s: string, i: nat, j: nat)
    requires i <= j <= |s|
    ensures s == s[..i] + (s[i..j] + s[j..])
  {}

  lemma SpanAmongBlanks(a: string, n: string, b: string)
    requires Blank(a) && Blank(b) && IsName(n)
    ensures SpanIdent(DropSpaces(a + (n + b))) == (n, b)
  {
    hide SpanIdent, DropSpaces, Blank;
    DropBlank(a, n + b);
    BlankStart(b);
    SpanNameBlank(n, b);
    NameStays(n, b);
  }

  lemma BareIsSpan(ex: string, n: string)
    requires Bare(ex, n) && IsName(n)
    ensures SpanIdent(DropSpaces(ex)).0 == n && Blank(SpanIdent(DropSpaces(ex)).1)
  {
    hide SpanIdent, DropSpaces, Blank, IsName;
    var j :| 0 <= j <= |ex| - |n| && BareAt(ex, n, j);
    InThree(ex, j, j + |n|);
    SpanAmongBlanks(ex[..j], n, ex[j + |n|..]);
  }

  lemma NameStays(n: string, b: string)
    requires n != "" && IsIdentStart(n[0])
    ensures DropSpaces(n + b) == n + b
  {}

  /** A call is fed back exactly when its whole replacement is one name of a function-like macro that is not being
      replaced outside, and a parenthesis follows. */
  lemma FedBackIff(active: set<string>, t: Table, ex: string, after: string, n: string)
    ensures PendingCall(active, t, ex, after) == Some(n) <==>
      Bare(ex, n) && IsName(n) && n !in active && t.Find(n).Some? && t.Find(n).value.func && StartsCall(after)
  {
    hide SpanIdent, DropSpaces, Bare, Table.Find;
    BareSpans(ex);
    if Bare(ex, n) && IsName(n) { BareIsSpan(ex, n); }
  }

  /**
   * A macro is called again by its own replacement exactly when that is its own name alone and a parenthesis follows;
   * for a text that holds no other macro, on the substituted text itself.
   */
  lemma RevivedIff(active: set<string>, t: Table, at: Place, i: string, args: seq<string>, after: string)
    requires t.WellKeyed() && Live(active, t, i) && i != "__FILE__" && i != "__LINE__" && IsName(i) && t.Find(i).value.func
    ensures
      var text := Substituted(t.Find(i).value, args);
      var ex := Expand(active + {i}, t, at, text, false);
      && (PendingCall(active, t, ex, after) == Some(i) <==> Bare(ex, i) && StartsCall(after))
      && (!Candidate(active + {i}, t, text) && !EndsInComment(text) ==> ex == text)
  {
    hide Expand, Substituted, Candidate, EndsInComment, PendingCall, Bare, StartsCall;
    var text := Substituted(t.Find(i).value, args);
    FedBackIff(active, t, Expand(active + {i}, t, at, text, false), after, i);
    if !Candidate(active + {i}, t, text) && !EndsInComment(text) { ExpandQuiet(active + {i}, t, at, text); }
  }

  // ---- f(1)(2) with f(x) defined as f ----

  const TWICE: Table := EMPTY.Define(Macro("f", true, false, ["x"], "f", false))

  lemma TwiceParts()
    ensures TWICE.WellKeyed() && TWICE.Find("f") == Some(Macro("f", true, false, ["x"], "f", false))
    ensures Live({}, TWICE, "f") && IsName("f") && "f" != "__FILE__" && "f" != "__LINE__"
  {
    LoneIdent('f');
  }

  lemma PlainArg(c: char, u: string, d: nat)
    requires !IsQuote(c) && c != '(' && c != ')' && c != ','
    ensures ScanArg([c] + u, d) == ([c] + ScanArg(u, d).0, ScanArg(u, d).1)
  {
    hide ScanLit;
    assert ([c] + u)[1..] == u;
  }

  lemma ClosedArg(rest: string)
    ensures ScanArg([')'] + rest, 0) == ("", [')'] + rest)
  {}

  lemma OneArg(s: string, arg: string, rest: string)
    requires ScanArg(s, 0) == (arg, [')'] + rest)
    ensures CollectArgs(s) == ([DropSpaces(arg)], rest)
  {
    hide ScanArg, DropSpaces;
    assert ([')'] + rest)[1..] == rest;
  }

  lemma NoSpaces(s: string)
    requires s != "" && !IsSpaceTab(s[0])
    ensures DropSpaces(s) == s
  {}

  lemma CallOf(s: string, arg: string, rest: string)
    requires s != "" && s[0] != ')' && ScanArg(s, 0) == (arg, [')'] + rest) && arg != "" && !IsSpaceTab(arg[0])
    ensures DropSpaces(['('] + s) == ['('] + s && (['('] + s)[1..] == s && ScanArgs(s) == ([arg], rest)
  {
    hide ScanArg, CollectArgs, DropSpaces;
    OneArg(s, arg, rest);
    NoSpaces(arg);
    NoSpaces(['('] + s);
  }

  lemma OneDigitCall(d: char, rest: string)
    requires Decimal.IsDigit(d)
    ensures var s := [d] + ([')'] + rest);
      DropSpaces(['('] + s) == ['('] + s && (['('] + s)[1..] == s && ScanArgs(s) == ([[d]], rest)
  {
    hide ScanArg, ScanArgs, DropSpaces;
    ClosedArg(rest);
    PlainArg(d, [')'] + rest, 0);
    assert [d] + "" == [d];
    CallOf([d] + ([')'] + rest), [d], rest);
  }

  lemma BodyIsName(arg: string)
    ensures Substituted(TWICE.Find("f").value, [arg]) == "f"
  {
    hide SpanIdent;
    TwiceParts();
    LoneIdent('f');
    var m := TWICE.Find("f").value;
    assert ParamIndex(m.params, "f") == None;
    assert "" + "f" == "f";
    assert Subst(m, [arg], false, false, "f", "") == "f";
  }

  lemma PaintedName(at: Place)
    ensures Expand({"f"}, TWICE, at, "f", false) == "f" && PaintExpand({"f"}, TWICE, at, "f") == Marks("f", true)
  {
    hide SpanIdent, Go, PaintGo, Ident;
    TwiceParts();
    LoneIdent('f');
    assert Candidate({}, TWICE, "f");
    GoParts({"f"}, TWICE, at, "f");
    GoParts({"f"}, TWICE, at, "");
    IdentQuiet({"f"}, TWICE, at, "f", "");
    PaintNothing({"f"}, TWICE, at);
    PaintName({"f"}, TWICE, at, "f");
    assert Marks("f", true) + [] == Marks("f", true);
  }

  lemma PaintNothing(active: set<string>, t: Table, at: Place)
    requires t.WellKeyed()
    ensures PaintGo(active, t, at, "") == []
  {}

  lemma PaintName(active: set<string>, t: Table, at: Place, s: string)
    requires t.WellKeyed() && s != "" && IsIdentStart(s[0])
    ensures PaintGo(active, t, at, s) == PaintIdent(active, t, at, SpanIdent(s).0, SpanIdent(s).1)
  {
    hide PaintIdent, SpanIdent, ScanLit, ScanBlockComment, Marks;
  }

  /**
   * The program calls f again: f(1)(2) comes out as f. With paint the name stays retired, and it is f(2).
   */
  lemma TwiceCalled(at: Place)
    ensures Go({}, TWICE, at, "f(1)(2)") == "f" && Erase(PaintGo({}, TWICE, at, "f(1)(2)")) == "f(2)"
  {
    hide Go, PaintGo, ScanArgs, DropSpaces, Erase;
    TwiceParts();
    var r2 := ['('] + (['2'] + ([')'] + ""));
    var r := ['('] + (['1'] + ([')'] + r2));
    assert r2 == "(2)" && r == "(1)(2)" && "f(1)(2)" == ['f'] + r && "f(2)" == ['f'] + r2;
    OneDigitCall('1', r2);
    OneDigitCall('2', "");
    CallsAgain(at, r, "1", r2);
    CallsAgain(at, r2, "2", "");
    PaintedCall(at, r, r2);
  }

  /** One call: fed back if another follows. */
  lemma CallsAgain(at: Place, r: string, arg: string, r2: string)
    requires r != "" && r[0] == '(' && DropSpaces(r) == r && ScanArgs(r[1..]) == ([arg], r2)
    requires r2 == "" || (r2[0] == '(' && DropSpaces(r2) == r2)
    ensures TWICE.WellKeyed()
    ensures Go({}, TWICE, at, ['f'] + r) == if r2 == "" then "f" else Go({}, TWICE, at, ['f'] + r2)
  {
    hide Go, Ident, ScanArgs, Substituted, Expand, PendingCall, SpanIdent, DropSpaces;
    TwiceParts();
    PaintedName(at);
    BodyIsName(arg);
    NameThen(r);
    GoName({}, TWICE, at, ['f'] + r);
    GoParts({}, TWICE, at, "");
    IdentParts({}, TWICE, at, "f", r);
    assert {} + {"f"} == {"f"} && "f" + r2 == ['f'] + r2 && "f" + "" == "f";
    if r2 != "" { FedBack(r2); } else { NothingPends({}, TWICE, "f"); }
  }

  lemma NameThen(r: string)
    requires r != "" && r[0] == '('
    ensures SpanIdent(['f'] + r) == ("f", r)
  {
    LoneIdent('f');
    SpanNameBlank("f", r);
  }

  lemma FedBack(r2: string)
    requires r2 != "" && r2[0] == '('
    ensures PendingCall({}, TWICE, "f", r2) == Some("f") && PendingCall({}, TWICE, "f", "").None?
  {
    hide PendingCall, SpanIdent;
    TwiceParts();
    assert BareAt("f", "f", 0) by { assert "f"[..0] == "" && "f"[0..0 + |"f"|] == "f" && "f"[0 + |"f"|..] == ""; }
    FedBackIff({}, TWICE, "f", r2, "f");
    NothingPends({}, TWICE, "f");
  }

  lemma PaintedCall(at: Place, r: string, r2: string)
    requires r == "(1)(2)" && r2 == "(2)" && DropSpaces(r) == r && ScanArgs(r[1..]) == (["1"], r2)
    ensures Erase(PaintGo({}, TWICE, at, "f(1)(2)")) == "f(2)"
  {
    hide PaintGo, PaintIdent, ScanArgs, Substituted, PaintExpand, PendingCall, SpanIdent;
    TwiceParts();
    PaintedName(at);
    BodyIsName("1");
    assert "f(1)(2)" == ['f'] + r;
    NameThen(r);
    PaintName({}, TWICE, at, ['f'] + r);
    PaintIdentParts(at, r, r2);
    PaintPlain(at);
    var m := Marks("f", true);
    EraseMarks("f", true);
    EraseMarks("(2)", false);
    EraseConcat(m, Marks("(2)", false));
    assert "f" + "(2)" == "f(2)";
  }

  lemma PaintIdentParts(at: Place, r: string, r2: string)
    requires r != "" && r[0] == '(' && DropSpaces(r) == r && ScanArgs(r[1..]) == (["1"], r2)
    ensures PaintIdent({}, TWICE, at, "f", r) == Marks("f", true) + PaintGo({}, TWICE, at, r2)
  {
    hide PaintGo, ScanArgs, Substituted, PaintExpand, PendingCall, DropSpaces;
    TwiceParts();
    PaintedName(at);
    BodyIsName("1");
    Shrinks({}, TWICE, "f");
    assert {} + {"f"} == {"f"};
    assert Marks("f", true)[0].off;
    assert Retired(Marks("f", true));
  }

  lemma PaintPlain(at: Place)
    ensures PaintGo({}, TWICE, at, "(2)") == Marks("(2)", false)
  {
    hide PaintGo, PaintIdent, ScanLit, ScanBlockComment;
    TwiceParts();
    PaintStep(at, '(', "2)");
    PaintStep(at, '2', ")");
    PaintStep(at, ')', "");
    PaintNothing({}, TWICE, at);
    assert ['('] + "2)" == "(2)" && ['2'] + ")" == "2)" && [')'] + "" == ")";
    assert Marks("(2)", false) == Marks("(", false) + (Marks("2", false) + (Marks(")", false) + []));
  }

  lemma PaintStep(at: Place, c: char, r: string)
    requires !IsIdentStart(c) && !IsQuote(c) && c != '/'
    ensures TWICE.WellKeyed() && PaintGo({}, TWICE, at, [c] + r) == Marks([c], false) + PaintGo({}, TWICE, at, r)
  {
    hide PaintIdent, ScanLit, ScanBlockComment, SpanIdent;
    hide Marks;
    TwiceParts();
    assert ([c] + r)[1..] == r;
  }
}
