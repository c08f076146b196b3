/** When expansion changes nothing, and what painting a name does (src/C99/Preprocess.hs). */
module ExpandProof {
  import opened Options
  import opened MacroText
  import opened Macros

  // ---- does a text end with a block comment still open? ----

  predicate EndsInComment(s: string)
    decreases |s|
  {
    if s == "" || (|s| >= 2 && s[0] == '/' && s[1] == '/') then false
    else if |s| >= 2 && s[0] == '/' && s[1] == '*' then InsideAtEnd(s[2..])
    else if IsQuote(s[0]) then EndsInComment(ScanLit(s[0], s[1..]).1)
    else EndsInComment(s[1..])
  }

  /** The same for a text that begins inside a comment. */
  predicate InsideAtEnd(s: string)
    decreases |s|
  {
    if s == "" then true
    else if |s| >= 2 && s[0] == '*' && s[1] == '/' then EndsInComment(s[2..])
    else InsideAtEnd(s[1..])
  }

  predicate Closed(c: string) { |c| >= 2 && c[|c| - 2] == '*' && c[|c| - 1] == '/' }

  lemma InsideParts(s: string)
    requires s != ""
    ensures InsideAtEnd(s) == if |s| >= 2 && s[0] == '*' && s[1] == '/' then EndsInComment(s[2..]) else InsideAtEnd(s[1..])
  {}

  lemma ClosedCons(x: char, a: string)
    ensures Closed([x] + a) == (Closed(a) || (|a| == 1 && x == '*' && a[0] == '/'))
  {}

  lemma {:induction false} BlockCommentEnds(s: string)
    ensures var (c, r) := ScanBlockComment(s);
      if Closed(c) then InsideAtEnd(s) == EndsInComment(r) else InsideAtEnd(s) && |r| <= 1 && (r == "" ==> s == "")
  {
    hide EndsInComment, InsideAtEnd, Closed;
    if s == "" {
      EmptyInside();
      ShortIsOpen("");
    } else if |s| >= 2 && s[0] == '*' && s[1] == '/' {
      InsideParts(s);
      assert Closed("*/") by { EndIsClosed(); }
      assert s[..2] == "*/";
    } else if |s| >= 2 {
      InsideParts(s);
      BlockCommentEnds(s[1..]);
      var (a, r) := ScanBlockComment(s[1..]);
      assert |a| == 1 ==> a[0] == (a + r)[0] == s[1];
      ClosedCons(s[0], a);
    } else {
      InsideParts(s);
      EmptyInside();
      ShortIsOpen("");
    }
  }

  lemma ShortIsOpen(c: string)
    requires |c| < 2
    ensures !Closed(c)
  {}

  lemma EndIsClosed()
    ensures Closed("*/")
  {}

  lemma {:induction false} OpenCommentEnds(s: string)
    ensures var (c, r) := ScanOpenComment(s);
      if Closed(c) then InsideAtEnd(s) == EndsInComment(r) else InsideAtEnd(s) && r == ""
  {
    hide EndsInComment, InsideAtEnd, Closed;
    if s == "" {
      EmptyInside();
      ShortIsOpen("");
    } else if |s| >= 2 && s[0] == '*' && s[1] == '/' {
      InsideParts(s);
      assert Closed("*/") by { EndIsClosed(); }
      assert s[..2] == "*/";
    } else {
      InsideParts(s);
      OpenCommentEnds(s[1..]);
      var (a, r) := ScanOpenComment(s[1..]);
      assert |a| == 1 ==> a[0] == (a + r)[0] == s[1];
      ClosedCons(s[0], a);
    }
  }

  // ---- candidates ----

  lemma {:induction false} PaintingHidesOnly(active: set<string>, t: Table, s: string)
    requires !Candidate({}, t, s)
    ensures !Candidate(active, t, s)
    decreases |s|
  {
    if s != "" {
      if IsIdentStart(s[0]) { PaintingHidesOnly(active, t, SpanIdent(s).1); } else { PaintingHidesOnly(active, t, s[1..]); }
    }
  }

  /** Where an identifier stops. */
  lemma {:induction false} SpanStops(a: string, b: string)
    requires a != "" && !IsIdentCont(a[|a| - 1])
    ensures |SpanIdent(a + b).0| < |a|
  {
    var (i, r) := SpanIdent(a + b);
    assert (i + r)[|a| - 1] == a[|a| - 1];
  }

  /** A text cut behind a character of no identifier: the scan of the whole has seen the rest. */
  lemma {:induction false} CleanSplit(active: set<string>, t: Table, a: string, b: string)
    requires !Candidate(active, t, a + b)
    requires a == "" || !IsIdentCont(a[|a| - 1])
    ensures !Candidate(active, t, b)
    decreases |a|
  {
    hide Candidate, SpanIdent, Live;
    if a == "" {
      assert a + b == b;
      return;
    }
    CandidateParts(active, t, a + b);
    if IsIdentStart(a[0]) {
      SpanStops(a, b);
      var (i, r) := SpanIdent(a + b);
      assert r == (a + b)[|i|..] == a[|i|..] + b;
      CleanSplit(active, t, a[|i|..], b);
    } else {
      assert (a + b)[1..] == a[1..] + b;
      CleanSplit(active, t, a[1..], b);
    }
  }

  // ---- quiet text ----

  /** What expansion makes of a text with nothing to expand: the text, but for what an open comment leaves behind. */
  function Quiet(active: set<string>, t: Table, at: Place, s: string): string
    requires t.WellKeyed()
  {
    if EndsInComment(s) && s != "" then s[..|s| - 1] + Go(active, t, at, s[|s| - 1..]) else s
  }

  lemma {:induction false} GoQuiet(active: set<string>, t: Table, at: Place, s: string)
    requires t.WellKeyed() && !Candidate(active, t, s)
    ensures Go(active, t, at, s) == Quiet(active, t, at, s)
    decreases |s|
  {
    hide Go, Candidate, EndsInComment, Ident, ScanLit, ScanBlockComment, Live;
    if s == "" {
      GoParts(active, t, at, s);
    } else if |s| >= 2 && s[0] == '/' && s[1] == '/' {
      GoParts(active, t, at, s);
      EndsParts(s);
    } else if |s| >= 2 && s[0] == '/' && s[1] == '*' {
      CommentQuiet(active, t, at, s);
    } else if IsQuote(s[0]) {
      LiteralQuiet(active, t, at, s);
    } else if IsIdentStart(s[0]) {
      var (i, r) := SpanIdent(s);
      GoParts(active, t, at, s);
      CandidateParts(active, t, s);
      IdentEnds(s);
      GoQuiet(active, t, at, r);
      IdentQuiet(active, t, at, i, r);
      QuietAfter(active, t, at, i, r, s);
    } else {
      GoParts(active, t, at, s);
      EndsParts(s);
      CandidateParts(active, t, s);
      GoQuiet(active, t, at, s[1..]);
      QuietAfter(active, t, at, [s[0]], s[1..], s);
    }
  }

  lemma LiteralQuiet(active: set<string>, t: Table, at: Place, s: string)
    requires t.WellKeyed() && !Candidate(active, t, s) && s != "" && IsQuote(s[0])
    ensures Go(active, t, at, s) == Quiet(active, t, at, s)
    decreases |s|, 0
  {
    hide Go, Candidate, EndsInComment, ScanLit;
    var (l, r) := ScanLit(s[0], s[1..]);
    var front := [s[0]] + l;
    assert s == front + r;
    if r != "" {
      LitCloses(s[0], s[1..]);
      assert front[|front| - 1] == s[0];
      CleanSplit(active, t, front, r);
    } else {
      NoCandidate(active, t);
    }
    GoParts(active, t, at, s);
    EndsParts(s);
    GoQuiet(active, t, at, r);
    QuietAfter(active, t, at, front, r, s);
  }

  lemma NoCandidate(active: set<string>, t: Table)
    ensures !Candidate(active, t, "")
  {}

  lemma GoParts(active: set<string>, t: Table, at: Place, s: string)
    requires t.WellKeyed()
    ensures Go(active, t, at, s) ==
      if s == "" then ""
      else if |s| >= 2 && s[0] == '/' && s[1] == '/' then s
      else if |s| >= 2 && s[0] == '/' && s[1] == '*' then
        s[..2] + ScanBlockComment(s[2..]).0 + Go(active, t, at, ScanBlockComment(s[2..]).1)
      else if IsQuote(s[0]) then
        [s[0]] + ScanLit(s[0], s[1..]).0 + Go(active, t, at, ScanLit(s[0], s[1..]).1)
      else if IsIdentStart(s[0]) then Ident(active, t, at, SpanIdent(s).0, SpanIdent(s).1)
      else [s[0]] + Go(active, t, at, s[1..])
  {}

  lemma EndsParts(s: string)
    requires s != ""
    ensures EndsInComment(s) ==
      if |s| >= 2 && s[0] == '/' && s[1] == '/' then false
      else if |s| >= 2 && s[0] == '/' && s[1] == '*' then InsideAtEnd(s[2..])
      else if IsQuote(s[0]) then EndsInComment(ScanLit(s[0], s[1..]).1)
      else EndsInComment(s[1..])
  {}

  lemma CandidateParts(active: set<string>, t: Table, s: string)
    requires s != "" && !Candidate(active, t, s)
    ensures if IsIdentStart(s[0]) then !Live(active, t, SpanIdent(s).0) && !Candidate(active, t, SpanIdent(s).1)
      else !Candidate(active, t, s[1..])
  {}

  /** An identifier opens no comment. */
  lemma {:induction false} IdentEnds(s: string)
    ensures EndsInComment(s) == EndsInComment(SpanIdent(s).1)
    decreases |s|
  {
    hide EndsInComment;
    if s != "" && IsIdentCont(s[0]) {
      EndsParts(s);
      IdentEnds(s[1..]);
    }
  }

  lemma IdentQuiet(active: set<string>, t: Table, at: Place, i: string, r: string)
    requires t.WellKeyed() && i != "" && !Live(active, t, i)
    ensures Ident(active, t, at, i, r) == i + Go(active, t, at, r)
  {}

  /** A prefix that stays as it is in front of a quiet text. */
  lemma QuietAfter(active: set<string>, t: Table, at: Place, a: string, r: string, s: string)
    requires t.WellKeyed() && s == a + r && EndsInComment(s) == EndsInComment(r)
    ensures a + Quiet(active, t, at, r) == Quiet(active, t, at, s)
  {
    hide Go;
    if EndsInComment(s) {
      EmptyEnds();
      assert s[|s| - 1..] == r[|r| - 1..];
      assert s[..|s| - 1] == a + r[..|r| - 1];
      var last := Go(active, t, at, r[|r| - 1..]);
      assert a + (r[..|r| - 1] + last) == (a + r[..|r| - 1]) + last;
    }
  }

  lemma EmptyEnds()
    ensures !EndsInComment("")
  {}

  lemma CommentQuiet(active: set<string>, t: Table, at: Place, s: string)
    requires t.WellKeyed() && !Candidate(active, t, s)
    requires |s| >= 2 && s[0] == '/' && s[1] == '*'
    ensures Go(active, t, at, s) == Quiet(active, t, at, s)
    decreases |s|, 0
  {
    hide Go, Candidate, EndsInComment, InsideAtEnd, ScanBlockComment;
    var (c, r) := ScanBlockComment(s[2..]);
    GoParts(active, t, at, s);
    EndsParts(s);
    BlockCommentEnds(s[2..]);
    var front := s[..2] + c;
    assert s == front + r;
    if Closed(c) {
      assert front[|front| - 1] == '/';
      CleanSplit(active, t, front, r);
      GoQuiet(active, t, at, r);
      QuietAfter(active, t, at, front, r, s);
    } else if r == "" {
      assert s == "/*" && s[1..] == "*";
      GoParts(active, t, at, r);
      GoParts(active, t, at, "*");
      assert "*"[1..] == "";
    } else {
      assert s[|s| - 1..] == r && s[..|s| - 1] == front;
    }
  }

  /** A character that can be left behind: no name, or no live object-like macro, or one whose body expands to itself. */
  predicate StrayStays(active: set<string>, t: Table, at: Place, c: char)
    requires t.WellKeyed()
  {
    !IsIdentStart(c) || !Live(active, t, [c]) || t.Find([c]).value.func ||
    Expand(active + {[c]}, t, at, Substituted(t.Find([c]).value, []), false) == [c]
  }

  lemma StrayStaysIff(active: set<string>, t: Table, at: Place, c: char)
    requires t.WellKeyed()
    ensures Go(active, t, at, [c]) == [c] <==> StrayStays(active, t, at, c)
  {
    hide Go, Ident, Expand, Substituted;
    GoParts(active, t, at, [c]);
    GoParts(active, t, at, "");
    assert [c][1..] == "";
    if IsIdentStart(c) {
      LoneIdent(c);
      if Live(active, t, [c]) { IdentParts(active, t, at, [c], ""); } else { IdentQuiet(active, t, at, [c], ""); }
    } else if IsQuote(c) {
      assert ScanLit(c, "") == ("", "");
    }
  }

  lemma LoneIdent(c: char)
    requires IsIdentStart(c)
    ensures SpanIdent([c]) == ([c], "") && [c] != "__FILE__" && [c] != "__LINE__"
  {
    assert [c][1..] == "";
    assert SpanIdent("") == ("", "");
    assert [c] + "" == [c];
    assert |"__FILE__"| == 8 && |"__LINE__"| == 8;
  }

  /** With nothing to expand, expansion without the scan gives the text back exactly when no comment stays open or the
      character it leaves behind stays as it is. */
  lemma ScanIsExact(active: set<string>, t: Table, at: Place, s: string)
    requires t.WellKeyed() && !Candidate({}, t, s)
    ensures Expand(active, t, at, s, false) == s
    ensures Rescan(active, t, at, s, false) == s <==>
      !EndsInComment(s) || s == "" || StrayStays(active, t, at, s[|s| - 1])
  {
    hide Go, Candidate, EndsInComment, StrayStays;
    PaintingHidesOnly(active, t, s);
    GoQuiet(active, t, at, s);
    QuietIff(active, t, at, s);
  }

  lemma QuietIff(active: set<string>, t: Table, at: Place, s: string)
    requires t.WellKeyed()
    ensures Quiet(active, t, at, s) == s <==> !EndsInComment(s) || s == "" || StrayStays(active, t, at, s[|s| - 1])
  {
    hide Go, EndsInComment, StrayStays;
    if EndsInComment(s) && s != "" {
      var c, front := s[|s| - 1], s[..|s| - 1];
      StrayStaysIff(active, t, at, c);
      assert s[|s| - 1..] == [c];
      var last := Go(active, t, at, [c]);
      assert front + [c] == s;
      assert (front + last)[|s| - 1..] == last;
    }
  }

  lemma SamePrefix(c: string, a: string, b: string)
    ensures c + a == c + b <==> a == b
  {
    assert (c + a)[|c|..] == a && (c + b)[|c|..] == b;
  }

  /** The same for a line that begins inside a comment: what follows the comment decides. */
  lemma ScanIsExactInside(active: set<string>, t: Table, at: Place, s: string)
    requires t.WellKeyed() && !Candidate({}, t, s)
    ensures Expand(active, t, at, s, true) == s
    ensures var r := ScanOpenComment(s).1;
      Rescan(active, t, at, s, true) == s <==>
        !EndsInComment(r) || r == "" || StrayStays(active, t, at, r[|r| - 1])
  {
    hide Go, Candidate, EndsInComment, InsideAtEnd, ScanOpenComment, StrayStays, Quiet;
    var (c, r) := ScanOpenComment(s);
    OpenCommentEnds(s);
    PaintingHidesOnly(active, t, s);
    if Closed(c) {
      assert c[|c| - 1] == '/';
      CleanSplit(active, t, c, r);
      GoQuiet(active, t, at, r);
      QuietIff(active, t, at, r);
      SamePrefix(c, Quiet(active, t, at, r), r);
    } else {
      GoParts(active, t, at, r);
      assert c + "" == c;
    }
  }

  // ---- painting ----

  /** A body that asks for nothing is substituted as it stands. */
  lemma {:induction false} PlainBody(m: Macro, acc: string, s: string)
    requires '#' !in s && !m.variadic
    ensures Subst(m, [], false, false, acc, s) == acc + s
    decreases |s|
  {
    if s == "" {
      assert acc + s == acc;
    } else if IsIdentStart(s[0]) {
      var (i, r) := SpanIdent(s);
      PlainBody(m, acc + i, r);
      assert acc + i + r == acc + s;
    } else {
      PlainBody(m, acc + [s[0]], s[1..]);
      assert acc + [s[0]] + s[1..] == acc + s;
    }
  }

  lemma ExpandQuiet(active: set<string>, t: Table, at: Place, s: string)
    requires t.WellKeyed() && !Candidate(active, t, s) && !EndsInComment(s)
    ensures Expand(active, t, at, s, false) == s
  {
    hide Go, Candidate, EndsInComment;
    GoQuiet(active, t, at, s);
  }

  lemma IdentParts(active: set<string>, t: Table, at: Place, i: string, r: string)
    requires t.WellKeyed() && i != "" && Live(active, t, i) && i != "__FILE__" && i != "__LINE__"
    ensures
      var m := t.Find(i).value;
      var r0 := DropSpaces(r);
      Ident(active, t, at, i, r) ==
      if !m.func then Expand(active + {i}, t, at, Substituted(m, []), false) + Go(active, t, at, r)
      else if r0 == "" || r0[0] != '(' then i + Go(active, t, at, r)
      else
        var (args, r2) := ScanArgs(r0[1..]);
        var ex := Expand(active + {i}, t, at, Substituted(m, args), false);
        match PendingCall(active, t, ex, r2)
        case Some(n) => Go(active, t, at, n + r2)
        case None => ex + Go(active, t, at, r2)
  {
    Shrinks(active, t, i);
  }

  /**
   * A name met in its own replacement is retired (section 6.10.3.4p2 of ISO/IEC 9899:1999): when the body holds
   * no other macro, the name is replaced by exactly its body, once.
   */
  lemma ReplacedByBody(active: set<string>, t: Table, at: Place, i: string, r: string)
    requires t.WellKeyed() && i != "" && Live(active, t, i) && i != "__FILE__" && i != "__LINE__"
    requires var m := t.Find(i).value;
      !m.func && !m.variadic && '#' !in m.body && !Candidate(active + {i}, t, m.body) && !EndsInComment(m.body)
    ensures Ident(active, t, at, i, r) == t.Find(i).value.body + Go(active, t, at, r)
  {
    hide Go, Candidate, EndsInComment, Ident, Expand;
    var m := t.Find(i).value;
    PlainBody(m, "", m.body);
    assert Substituted(m, []) == m.body;
    IdentParts(active, t, at, i, r);
    ExpandQuiet(active + {i}, t, at, m.body);
  }

  lemma GoName(active: set<string>, t: Table, at: Place, s: string)
    requires t.WellKeyed() && s != "" && IsIdentStart(s[0])
    ensures Go(active, t, at, s) == Ident(active, t, at, SpanIdent(s).0, SpanIdent(s).1)
  {
    hide ScanLit, ScanBlockComment, Ident, SpanIdent;
  }

  /**
   * A call is replaced by its substituted text, in which the macro's own name is retired already; an argument
   * that calls the same macro is not expanded first.
   */
  lemma CallReplaced(active: set<string>, t: Table, at: Place, i: string, r: string)
    requires t.WellKeyed() && i != "" && Live(active, t, i) && i != "__FILE__" && i != "__LINE__"
    requires t.Find(i).value.func && DropSpaces(r) != "" && DropSpaces(r)[0] == '('
    requires var text := Substituted(t.Find(i).value, ScanArgs(DropSpaces(r)[1..]).0);
      !Candidate(active + {i}, t, text) && !EndsInComment(text)
    ensures
      var (args, after) := ScanArgs(DropSpaces(r)[1..]);
      var text := Substituted(t.Find(i).value, args);
      Ident(active, t, at, i, r) ==
        match PendingCall(active, t, text, after)
        case Some(n) => Go(active, t, at, n + after)
        case None => text + Go(active, t, at, after)
  {
    hide Go, Candidate, EndsInComment, PendingCall, ScanArgs, Ident, Expand, Substituted, DropSpaces;
    var (args, after) := ScanArgs(DropSpaces(r)[1..]);
    var text := Substituted(t.Find(i).value, args);
    IdentParts(active, t, at, i, r);
    ExpandQuiet(active + {i}, t, at, text);
  }

  /** An argument is not expanded before it is spliced: even a macro that is its parameter keeps a call of itself. */
  lemma ArgumentStays(active: set<string>, t: Table, at: Place, i: string, x: string, r: string, arg: string)
    requires t.WellKeyed() && i != "" && Live(active, t, i) && i != "__FILE__" && i != "__LINE__"
    requires t.Find(i).value.func && t.Find(i).value.params == [x] && t.Find(i).value.body == x
    requires x != "" && IsIdentStart(x[0]) && SpanIdent(x) == (x, "")
    requires DropSpaces(r) != "" && DropSpaces(r)[0] == '(' && ScanArgs(DropSpaces(r)[1..]) == ([arg], "")
    requires !Candidate(active + {i}, t, arg) && !EndsInComment(arg)
    ensures Ident(active, t, at, i, r) == arg
  {
    hide Go, Candidate, EndsInComment, PendingCall, Ident, Expand, DropSpaces, ScanArgs;
    var m := t.Find(i).value;
    OnlyParameter(m, x, arg);
    CallReplaced(active, t, at, i, r);
    NothingPends(active, t, arg);
    GoParts(active, t, at, "");
  }

  lemma OnlyParameter(m: Macro, x: string, arg: string)
    requires m.params == [x] && m.body == x && x != "" && IsIdentStart(x[0]) && SpanIdent(x) == (x, "")
    ensures Substituted(m, [arg]) == arg
  {
    hide SpanIdent;
    assert ParamIndex(m.params, x) == Some(0);
    assert Subst(m, [arg], true, false, arg, "") == arg;
    assert Splice(false, arg, "") == arg;
  }

  lemma NothingPends(active: set<string>, t: Table, text: string)
    ensures PendingCall(active, t, text, "").None?
  {}

  /** The stray character an open comment leaves can be a macro: then the scan hides what the walk would change. */
  lemma StrayIsExpanded(at: Place)
    ensures
      var t := EMPTY.Define(Macro("o", false, false, [], "1", false));
      !Candidate({}, t, "/*xo") && Expand({}, t, at, "/*xo", false) == "/*xo" &&
      Rescan({}, t, at, "/*xo", false) == "/*x1"
  {
    hide Go, Candidate, EndsInComment, InsideAtEnd, Ident, SpanIdent;
    var t := EMPTY.Define(Macro("o", false, false, [], "1", false));
    XoIsQuiet(t);
    PaintingHidesOnly({}, t, "/*xo");
    GoQuiet({}, t, at, "/*xo");
    LoneO(t, at);
    assert "/*xo"[..3] == "/*x" && "/*xo"[3..] == "o";
  }

  lemma XoIsQuiet(t: Table)
    requires t.user.Keys == {"o"} && t.pre == map[]
    ensures !Candidate({}, t, "/*xo") && EndsInComment("/*xo")
  {
    hide EndsInComment, InsideAtEnd;
    var s := "/*xo";
    assert s[1..][1..] == s[2..] == "xo" && s[2..][1..] == s[3..] == "o" && s[3..][1..] == "";
    InsideParts("o");
    InsideParts("xo");
    EndsParts(s);
    assert InsideAtEnd("") by { EmptyInside(); }
    SpanXo();
    assert !Candidate({}, t, "");
    assert !Candidate({}, t, "xo");
  }

  lemma EmptyInside()
    ensures InsideAtEnd("")
  {}

  lemma SpanCons(c: char, r: string)
    requires IsIdentCont(c)
    ensures SpanIdent([c] + r) == ([c] + SpanIdent(r).0, SpanIdent(r).1)
  {
    assert ([c] + r)[1..] == r;
  }

  lemma SpanXo()
    ensures SpanIdent("xo") == ("xo", "") && SpanIdent("o") == ("o", "")
  {
    SpanCons('o', "");
    SpanCons('x', "o");
    assert ['o'] + "" == "o" && ['x'] + "o" == "xo";
  }

  lemma LoneO(t: Table, at: Place)
    requires t == EMPTY.Define(Macro("o", false, false, [], "1", false))
    ensures Go({}, t, at, "o") == "1"
  {
    hide Go, Ident, Candidate, EndsInComment, SpanIdent;
    LoneOne(t);
    SpanXo();
    ReplacedByBody({}, t, at, "o", "");
    GoParts({}, t, at, "o");
    GoParts({}, t, at, "");
  }

  lemma LoneOne(t: Table)
    ensures !Candidate({} + {"o"}, t, "1") && !EndsInComment("1")
  {
    assert "1"[1..] == "";
    EndsParts("1");
    EmptyEnds();
    NoCandidate({} + {"o"}, t);
  }

  // ---- __LINE__ and __FILE__ ----

  lemma {:induction false} LineSpelled(n: nat)
    ensures Spelled(n) == Decimal.Dec(n)
  {
    assert "0123456789"[n % 10] == Decimal.DigitChar(n % 10);
    if n >= 10 { LineSpelled(n / 10); } else { assert "" + [Decimal.DigitChar(n)] == [Decimal.DigitChar(n)]; }
  }

  lemma {:induction false} ForwardIs(path: string)
    ensures |Forward(path)| == |path|
    ensures forall i :: 0 <= i < |path| ==> Forward(path)[i] == if path[i] == '\\' then '/' else path[i]
  {
    if path != "" {
      ForwardIs(path[1..]);
      assert forall i :: 0 < i < |path| ==> path[i] == path[1..][i - 1];
    }
  }

  /** They stand for the line's number as a decimal numeral and for the file's name as a literal, its slashes forward. */
  lemma PlaceIs(active: set<string>, t: Table, at: Place, r: string)
    requires t.WellKeyed()
    ensures
      && Ident(active, t, at, "__LINE__", r) == Decimal.Dec(at.line) + Go(active, t, at, r)
      && Decimal.AllDigits(Decimal.Dec(at.line)) && Decimal.NatOf(Decimal.Dec(at.line)) == at.line
    ensures exists f: string ::
      && Ident(active, t, at, "__FILE__", r) == "\"" + f + "\"" + Go(active, t, at, r) && |f| == |at.file|
      && forall i :: 0 <= i < |f| ==> f[i] == if at.file[i] == '\\' then '/' else at.file[i]
  {
    hide Go, Forward, Spelled, Decimal.Dec, Decimal.NatOf;
    LineSpelled(at.line);
    Decimal.DecDenotes(at.line);
    ForwardIs(at.file);
    assert "__LINE__"[2] != "__FILE__"[2];
    assert Ident(active, t, at, "__FILE__", r) == "\"" + Forward(at.file) + "\"" + Go(active, t, at, r);
  }
}
