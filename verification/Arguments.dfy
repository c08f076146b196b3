/** Arguments of macro calls: src/C99/Preprocess.hs splices them unexpanded and rescans, section 6.10.3.1 of
    ISO/IEC 9899:1999 expands each on its own first. Where the two agree. */
module Arguments {
  import opened Options
  import opened MacroText
  import opened Macros
  import opened ExpandProof
  import opened Painting

  // ---- cutting a text in two ----

  /** The walk over a + b comes to b exactly, and no call before it reaches into b or is followed by a parenthesis. */
  predicate Breaks(active: set<string>, t: Table, a: string, b: string)
    decreases |a|, 1
  {
    if a == "" || b == "" then true
    else
      var s := a + b;
      if |s| >= 2 && s[0] == '/' && s[1] == '/' then false
      else if |s| >= 2 && s[0] == '/' && s[1] == '*' then
        |a| >= 2 &&
        var (c, r) := ScanBlockComment(a[2..]);
        ScanBlockComment(s[2..]) == (c, r + b) && Breaks(active, t, r, b)
      else if IsQuote(a[0]) then
        var (l, r) := ScanLit(a[0], a[1..]);
        ScanLit(a[0], s[1..]) == (l, r + b) && Breaks(active, t, r, b)
      else if IsIdentStart(a[0]) then
        var (i, r) := SpanIdent(a);
        SpanIdent(s) == (i, r + b) && BreaksAfter(active, t, i, r, b)
      else Breaks(active, t, a[1..], b)
  }

  predicate BreaksAfter(active: set<string>, t: Table, i: string, r: string, b: string)
    decreases |r| + 1, 0
  {
    if Dull(active, t, i) then Breaks(active, t, r, b)
    else if StartsCall(r + b) then
      StartsCall(r) &&
      var (args, r2) := ScanArgs(DropSpaces(r)[1..]);
      ScanArgs(DropSpaces(r + b)[1..]) == (args, r2 + b) && !StartsCall(r2) && !StartsCall(r2 + b) &&
      Breaks(active, t, r2, b)
    else !StartsCall(r) && Breaks(active, t, r, b)
  }

  /** A name whose replacement does not look at what follows. */
  predicate Dull(active: set<string>, t: Table, i: string) {
    !Live(active, t, i) || i == "__FILE__" || i == "__LINE__" || !t.Find(i).value.func
  }

  /** Then each part is expanded as if it stood alone. */
  lemma {:induction false} GoConcat(active: set<string>, t: Table, at: Place, a: string, b: string)
    requires t.WellKeyed() && Breaks(active, t, a, b)
    ensures Go(active, t, at, a + b) == Go(active, t, at, a) + Go(active, t, at, b)
    decreases |a|, 1
  {
    hide Go, Ident, Breaks, BreaksAfter, ScanLit, ScanBlockComment, SpanIdent;
    var s := a + b;
    var z := Go(active, t, at, b);
    GoParts(active, t, at, "");
    if a == "" {
      assert s == b;
    } else if b == "" {
      assert s == a;
    } else {
      BreaksParts(active, t, a, b);
      if |s| >= 2 && s[0] == '/' && s[1] == '*' {
        CommentConcat(active, t, at, a, b);
      } else if IsQuote(a[0]) {
        LiteralConcat(active, t, at, a, b);
      } else if IsIdentStart(a[0]) {
        var (i, r) := SpanIdent(a);
        GoName(active, t, at, s);
        GoName(active, t, at, a);
        IdentConcat(active, t, at, i, r, b);
      } else {
        OtherConcat(active, t, at, a, b);
      }
    }
  }

  lemma {:induction false} CommentConcat(active: set<string>, t: Table, at: Place, a: string, b: string)
    requires t.WellKeyed() && b != "" && Breaks(active, t, a, b) && |a + b| >= 2 && (a + b)[0] == '/' && (a + b)[1] == '*'
    requires a != ""
    ensures Go(active, t, at, a + b) == Go(active, t, at, a) + Go(active, t, at, b)
    decreases |a|, 0
  {
    hide Go, Breaks, ScanBlockComment;
    BreaksParts(active, t, a, b);
    var (c, r) := ScanBlockComment(a[2..]);
    GoComment(active, t, at, a + b);
    GoComment(active, t, at, a);
    GoConcat(active, t, at, r, b);
    ThreeParts(a[..2] + c, Go(active, t, at, r), Go(active, t, at, b));
  }

  lemma {:induction false} LiteralConcat(active: set<string>, t: Table, at: Place, a: string, b: string)
    requires t.WellKeyed() && b != "" && Breaks(active, t, a, b) && a != "" && IsQuote(a[0])
    ensures Go(active, t, at, a + b) == Go(active, t, at, a) + Go(active, t, at, b)
    decreases |a|, 0
  {
    hide Go, Breaks, ScanLit;
    BreaksParts(active, t, a, b);
    var (l, r) := ScanLit(a[0], a[1..]);
    GoLiteral(active, t, at, a + b);
    GoLiteral(active, t, at, a);
    GoConcat(active, t, at, r, b);
    ThreeParts([a[0]] + l, Go(active, t, at, r), Go(active, t, at, b));
  }

  lemma {:induction false} OtherConcat(active: set<string>, t: Table, at: Place, a: string, b: string)
    requires t.WellKeyed() && b != "" && Breaks(active, t, a, b) && a != "" && !IsQuote(a[0]) && !IsIdentStart(a[0])
    requires !(|a + b| >= 2 && (a + b)[0] == '/' && (a + b)[1] == '*')
    ensures Go(active, t, at, a + b) == Go(active, t, at, a) + Go(active, t, at, b)
    decreases |a|, 0
  {
    hide Go, Breaks;
    BreaksParts(active, t, a, b);
    GoOther(active, t, at, a + b);
    GoOther(active, t, at, a);
    GoConcat(active, t, at, a[1..], b);
    ThreeParts([a[0]], Go(active, t, at, a[1..]), Go(active, t, at, b));
  }

  lemma BreaksParts(active: set<string>, t: Table, a: string, b: string)
    requires a != "" && b != "" && Breaks(active, t, a, b)
    ensures var s := a + b;
      && s[0] == a[0] && s[1..] == a[1..] + b && !(|s| >= 2 && s[0] == '/' && s[1] == '/')
      && if |s| >= 2 && s[0] == '/' && s[1] == '*' then
        |a| >= 2 && a[1] == '*' && s[..2] == a[..2] && s[2..] == a[2..] + b &&
        var (c, r) := ScanBlockComment(a[2..]);
        ScanBlockComment(s[2..]) == (c, r + b) && Breaks(active, t, r, b)
      else if IsQuote(a[0]) then
        var (l, r) := ScanLit(a[0], a[1..]);
        ScanLit(a[0], s[1..]) == (l, r + b) && Breaks(active, t, r, b)
      else if IsIdentStart(a[0]) then
        var (i, r) := SpanIdent(a);
        SpanIdent(s) == (i, r + b) && BreaksAfter(active, t, i, r, b)
      else Breaks(active, t, a[1..], b)
  {
    hide BreaksAfter, ScanLit, ScanBlockComment, SpanIdent;
    FrontOf(a, b);
  }

  lemma FrontOf(a: string, b: string)
    requires a != ""
    ensures (a + b)[0] == a[0] && (a + b)[1..] == a[1..] + b
    ensures |a| >= 2 ==> (a + b)[1] == a[1] && (a + b)[2..] == a[2..] + b && (a + b)[..2] == a[..2]
  {}

  lemma GoComment(active: set<string>, t: Table, at: Place, s: string)
    requires t.WellKeyed() && |s| >= 2 && s[0] == '/' && s[1] == '*'
    ensures var (c, r) := ScanBlockComment(s[2..]); Go(active, t, at, s) == s[..2] + c + Go(active, t, at, r)
  {
    hide ScanBlockComment, ScanLit, Ident, SpanIdent;
  }

  lemma GoLiteral(active: set<string>, t: Table, at: Place, s: string)
    requires t.WellKeyed() && s != "" && IsQuote(s[0])
    ensures var (l, r) := ScanLit(s[0], s[1..]); Go(active, t, at, s) == [s[0]] + l + Go(active, t, at, r)
  {
    hide ScanBlockComment, ScanLit, Ident, SpanIdent;
  }

  lemma GoOther(active: set<string>, t: Table, at: Place, s: string)
    requires t.WellKeyed() && s != "" && !IsQuote(s[0]) && !IsIdentStart(s[0])
    requires !(|s| >= 2 && s[0] == '/' && (s[1] == '/' || s[1] == '*'))
    ensures Go(active, t, at, s) == [s[0]] + Go(active, t, at, s[1..])
  {
    hide ScanBlockComment, ScanLit, Ident, SpanIdent;
  }

  lemma ThreeParts(a: string, b: string, c: string)
    ensures a + (b + c) == a + b + c
  {}

  lemma {:induction false} IdentConcat(active: set<string>, t: Table, at: Place, i: string, r: string, b: string)
    requires t.WellKeyed() && i != "" && BreaksAfter(active, t, i, r, b)
    ensures Ident(active, t, at, i, r + b) == Ident(active, t, at, i, r) + Go(active, t, at, b)
    decreases |r| + 1, 0
  {
    hide Go, Breaks, Expand, ScanArgs, DropSpaces, Substituted, PendingCall;
    var z := Go(active, t, at, b);
    if Live(active, t, i) && i != "__FILE__" && i != "__LINE__" {
      IdentParts(active, t, at, i, r);
      IdentParts(active, t, at, i, r + b);
      var m := t.Find(i).value;
      if m.func && StartsCall(r + b) {
        var (args, r2) := ScanArgs(DropSpaces(r)[1..]);
        var ex := Expand(active + {i}, t, at, Substituted(m, args), false);
        NotFed(active, t, ex, r2);
        NotFed(active, t, ex, r2 + b);
        ShorterRest(r);
        GoConcat(active, t, at, r2, b);
        ThreeParts(ex, Go(active, t, at, r2), z);
      } else {
        GoConcat(active, t, at, r, b);
        if m.func { ThreeParts(i, Go(active, t, at, r), z); } else {
          ThreeParts(Expand(active + {i}, t, at, Substituted(m, []), false), Go(active, t, at, r), z);
        }
      }
    } else {
      GoConcat(active, t, at, r, b);
      if i == "__FILE__" { ThreeParts("\"" + Forward(at.file) + "\"", Go(active, t, at, r), z); }
      else if i == "__LINE__" { ThreeParts(Spelled(at.line), Go(active, t, at, r), z); }
      else { ThreeParts(i, Go(active, t, at, r), z); }
    }
  }

  lemma NotFed(active: set<string>, t: Table, ex: string, after: string)
    requires !StartsCall(after)
    ensures PendingCall(active, t, ex, after).None?
  {}

  lemma ShorterRest(r: string)
    requires StartsCall(r)
    ensures |ScanArgs(DropSpaces(r)[1..]).1| < |r|
  {}

  // ---- expansion that does not come to a name ----

  predicate MeetsInside(x: string, active: set<string>, t: Table, at: Place, s: string)
    requires t.WellKeyed()
    decreases t.Names() - active, Parens(s), |s|, 2
  {
    Candidate({}, t, s) && Meets(x, active, t, at, s)
  }

  /** Does the expansion of s come to the name x? */
  predicate Meets(x: string, active: set<string>, t: Table, at: Place, s: string)
    requires t.WellKeyed()
    decreases t.Names() - active, Parens(s), |s|, 0, 1
  {
    if s == "" || (|s| >= 2 && s[0] == '/' && s[1] == '/') then false
    else if |s| >= 2 && s[0] == '/' && s[1] == '*' then
      var r := ScanBlockComment(s[2..]).1;
      SuffixParens(r, s);
      Meets(x, active, t, at, r)
    else if IsQuote(s[0]) then
      var r := ScanLit(s[0], s[1..]).1;
      SuffixParens(r, s);
      Meets(x, active, t, at, r)
    else if IsIdentStart(s[0]) then
      var (i, r) := SpanIdent(s);
      SuffixParens(r, s);
      MeetsName(x, active, t, at, i, r)
    else
      SuffixParens(s[1..], s);
      Meets(x, active, t, at, s[1..])
  }

  predicate MeetsName(x: string, active: set<string>, t: Table, at: Place, i: string, r: string)
    requires t.WellKeyed() && i != ""
    decreases t.Names() - active, Parens(r), |i| + |r|, 0, 0
  {
    if i == x then true
    else if !Live(active, t, i) || i == "__FILE__" || i == "__LINE__" then Meets(x, active, t, at, r)
    else
      var m := t.Find(i).value;
      Shrinks(active, t, i);
      if !m.func then
        MeetsInside(x, active + {i}, t, at, Substituted(m, [])) || Meets(x, active, t, at, r)
      else
        var r0 := DropSpaces(r);
        if r0 != "" && r0[0] == '(' then
          var (args, r2) := ScanArgs(r0[1..]);
          var ex := Expand(active + {i}, t, at, Substituted(m, args), false);
          CallUsesParen(r, r2);
          MeetsInside(x, active + {i}, t, at, Substituted(m, args)) ||
          match PendingCall(active, t, ex, r2)
          case Some(n) =>
            IdentHasNoParens(n);
            ParensConcat(n, r2);
            n == x || Meets(x, active, t, at, n + r2)
          case None => Meets(x, active, t, at, r2)
        else Meets(x, active, t, at, r)
  }

  lemma {:induction false} UnmetInside(x: string, active: set<string>, t: Table, at: Place, s: string)
    requires t.WellKeyed() && !MeetsInside(x, active, t, at, s)
    ensures Expand(active + {x}, t, at, s, false) == Expand(active, t, at, s, false)
    decreases t.Names() - active, Parens(s), |s|, 2
  {
    hide Go, Meets, Candidate;
    if Candidate({}, t, s) { Unmet(x, active, t, at, s); }
  }

  /** A name the expansion does not come to may be retired or not. */
  lemma {:induction false} Unmet(x: string, active: set<string>, t: Table, at: Place, s: string)
    requires t.WellKeyed() && !Meets(x, active, t, at, s)
    ensures Go(active + {x}, t, at, s) == Go(active, t, at, s)
    decreases t.Names() - active, Parens(s), |s|, 0, 2
  {
    hide Go, Ident, MeetsName;
    GoParts(active, t, at, s);
    GoParts(active + {x}, t, at, s);
    if s == "" || (|s| >= 2 && s[0] == '/' && s[1] == '/') {
    } else if |s| >= 2 && s[0] == '/' && s[1] == '*' {
      var r := ScanBlockComment(s[2..]).1;
      SuffixParens(r, s);
      Unmet(x, active, t, at, r);
    } else if IsQuote(s[0]) {
      var r := ScanLit(s[0], s[1..]).1;
      SuffixParens(r, s);
      Unmet(x, active, t, at, r);
    } else if IsIdentStart(s[0]) {
      var (i, r) := SpanIdent(s);
      SuffixParens(r, s);
      UnmetName(x, active, t, at, i, r);
    } else {
      SuffixParens(s[1..], s);
      Unmet(x, active, t, at, s[1..]);
    }
  }

  lemma {:induction false} UnmetName(x: string, active: set<string>, t: Table, at: Place, i: string, r: string)
    requires t.WellKeyed() && i != "" && !MeetsName(x, active, t, at, i, r)
    ensures Ident(active + {x}, t, at, i, r) == Ident(active, t, at, i, r)
    decreases t.Names() - active, Parens(r), |i| + |r|, 0, 1
  {
    hide Go, Expand, Meets, MeetsInside, PendingCall, ScanArgs, Substituted;
    if !Live(active, t, i) || i == "__FILE__" || i == "__LINE__" {
      Unmet(x, active, t, at, r);
    } else {
      Shrinks(active, t, i);
      IdentParts(active, t, at, i, r);
      IdentParts(active + {x}, t, at, i, r);
      assert active + {x} + {i} == active + {i} + {x};
      if !t.Find(i).value.func {
        UnmetInside(x, active + {i}, t, at, Substituted(t.Find(i).value, []));
        Unmet(x, active, t, at, r);
      } else if DropSpaces(r) != "" && DropSpaces(r)[0] == '(' {
        UnmetCall(x, active, t, at, i, r);
      } else {
        Unmet(x, active, t, at, r);
      }
    }
  }

  lemma {:induction false} UnmetCall(x: string, active: set<string>, t: Table, at: Place, i: string, r: string)
    requires t.WellKeyed() && i != "" && !MeetsName(x, active, t, at, i, r)
    requires Live(active, t, i) && i != "__FILE__" && i != "__LINE__" && t.Find(i).value.func
    requires DropSpaces(r) != "" && DropSpaces(r)[0] == '('
    ensures Ident(active + {x}, t, at, i, r) == Ident(active, t, at, i, r)
    decreases t.Names() - active, Parens(r), |i| + |r|, 0, 0
  {
    hide Go, Expand, Meets, MeetsInside, PendingCall, ScanArgs, Substituted;
    var (args, r2) := ScanArgs(DropSpaces(r)[1..]);
    var text := Substituted(t.Find(i).value, args);
    var ex := Expand(active + {i}, t, at, text, false);
    Shrinks(active, t, i);
    CallUsesParen(r, r2);
    IdentParts(active, t, at, i, r);
    IdentParts(active + {x}, t, at, i, r);
    assert active + {x} + {i} == active + {i} + {x};
    UnmetInside(x, active + {i}, t, at, text);
    PendingPainted(x, active, t, ex, r2);
    match PendingCall(active, t, ex, r2)
    case Some(n) =>
      IdentHasNoParens(n);
      ParensConcat(n, r2);
      Unmet(x, active, t, at, n + r2);
    case None => Unmet(x, active, t, at, r2);
  }

  lemma PendingPainted(x: string, active: set<string>, t: Table, ex: string, after: string)
    ensures PendingCall(active, t, ex, after) != Some(x) ==>
      PendingCall(active + {x}, t, ex, after) == PendingCall(active, t, ex, after)
  {
    hide SpanIdent, DropSpaces;
  }

  /** What the names in S lead to: object-like macros in S again, and names that are no macros. */
  ghost predicate Leads(t: Table, S: set<string>) {
    forall n :: n in S && t.Find(n).Some? ==>
      !t.Find(n).value.func && !Candidate(S, t, Substituted(t.Find(n).value, [])) &&
      !EndsInComment(Substituted(t.Find(n).value, []))
  }

  /**
   * A condition on the texts alone: the text mentions object-like macros only, and following their bodies neither x nor
   * a function-like macro comes up.
   */
  lemma {:induction false} Unreached(x: string, active: set<string>, t: Table, at: Place, s: string, S: set<string>)
    requires t.WellKeyed() && Leads(t, S) && x !in S && t.Find(x).Some?
    requires !Candidate(S, t, s) && !EndsInComment(s)
    ensures !Meets(x, active, t, at, s)
    decreases t.Names() - active, Parens(s), |s|, 0, 1
  {
    hide Candidate, EndsInComment, MeetsName, Leads, ScanLit, ScanBlockComment, SpanIdent;
    if s == "" || (|s| >= 2 && s[0] == '/' && s[1] == '/') {
      return;
    }
    EndsParts(s);
    if |s| >= 2 && s[0] == '/' && s[1] == '*' {
      var (c, r) := ScanBlockComment(s[2..]);
      SuffixParens(r, s);
      BlockCommentEnds(s[2..]);
      assert s == (s[..2] + c) + r;
      CleanSplit(S, t, s[..2] + c, r);
      Unreached(x, active, t, at, r, S);
    } else if IsQuote(s[0]) {
      var (l, r) := ScanLit(s[0], s[1..]);
      SuffixParens(r, s);
      LiteralRest(S, t, s);
      Unreached(x, active, t, at, r, S);
    } else if IsIdentStart(s[0]) {
      var (i, r) := SpanIdent(s);
      SuffixParens(r, s);
      CandidateParts(S, t, s);
      IdentEnds(s);
      UnreachedName(x, active, t, at, i, r, S);
    } else {
      SuffixParens(s[1..], s);
      CandidateParts(S, t, s);
      Unreached(x, active, t, at, s[1..], S);
    }
  }

  lemma LiteralRest(S: set<string>, t: Table, s: string)
    requires s != "" && IsQuote(s[0]) && !Candidate(S, t, s)
    ensures !Candidate(S, t, ScanLit(s[0], s[1..]).1)
  {
    hide Candidate, ScanLit;
    var (l, r) := ScanLit(s[0], s[1..]);
    var front := [s[0]] + l;
    assert s == front + r;
    if r != "" {
      LitCloses(s[0], s[1..]);
      assert front[|front| - 1] == s[0];
      CleanSplit(S, t, front, r);
    } else {
      NoCandidate(S, t);
    }
  }

  lemma {:induction false} UnreachedName(x: string, active: set<string>, t: Table, at: Place, i: string, r: string,
      S: set<string>)
    requires t.WellKeyed() && Leads(t, S) && x !in S && t.Find(x).Some? && i != ""
    requires !Live(S, t, i) && !Candidate(S, t, r) && !EndsInComment(r)
    ensures !MeetsName(x, active, t, at, i, r)
    decreases t.Names() - active, Parens(r), |i| + |r|, 0, 0
  {
    hide Candidate, EndsInComment, Meets, MeetsInside, Substituted;
    Unreached(x, active, t, at, r, S);
    if Live(active, t, i) {
      Shrinks(active, t, i);
      assert i in S && t.Find(i).Some?;
      var text := Substituted(t.Find(i).value, []);
      UnreachedBody(x, active + {i}, t, at, text, S);
    }
  }

  lemma {:induction false} UnreachedBody(x: string, active: set<string>, t: Table, at: Place, s: string, S: set<string>)
    requires t.WellKeyed() && Leads(t, S) && x !in S && t.Find(x).Some?
    requires !Candidate(S, t, s) && !EndsInComment(s)
    ensures !MeetsInside(x, active, t, at, s)
    decreases t.Names() - active, Parens(s), |s|, 1
  {
    Unreached(x, active, t, at, s, S);
  }

  // ---- splicing, piece by piece ----

  /** A stretch of the body, or an argument spliced into it. */
  datatype Piece = Own(text: string) | Arg(text: string)

  function Text(ps: seq<Piece>): string { if ps == [] then "" else ps[0].text + Text(ps[1..]) }

  /** Where a body without # and ## is cut: acc is all that has been built, own the end of it since the last argument. */
  function Cut(m: Macro, args: seq<string>, spliced: bool, acc: string, own: string, s: string): seq<Piece>
    decreases |s|
  {
    if s == "" then [Own(own)]
    else if IsIdentStart(s[0]) then
      var (i, r) := SpanIdent(s);
      var k := ParamIndex(m.params, i);
      if k.Some? && k.value < |args| then
        [Own(own + Gap(acc, args[k.value])), Arg(args[k.value])] +
        Cut(m, args, true, Splice(false, args[k.value], acc), "", r)
      else if m.variadic && i == "__VA_ARGS__" then
        var more := Joined(if |m.params| <= |args| then args[|m.params|..] else []);
        [Own(own + Gap(acc, more)), Arg(more)] + Cut(m, args, true, Splice(false, more, acc), "", r)
      else Cut(m, args, false, acc + i, own + i, r)
    else
      var c := if spliced && acc != "" && Fuses(acc[|acc| - 1], s[0]) then " " + [s[0]] else [s[0]];
      Cut(m, args, false, acc + c, own + c, s[1..])
  }

  function Gap(acc: string, text: string): string {
    if acc != "" && text != "" && Fuses(acc[|acc| - 1], text[0]) then " " else ""
  }

  function Pieces(m: Macro, args: seq<string>): seq<Piece> { Cut(m, args, false, "", "", m.body) }

  /** The pieces spell the substituted text. */
  lemma {:induction false} CutSpells(m: Macro, args: seq<string>, spliced: bool, acc: string, own: string, s: string,
      front: string)
    requires '#' !in s && acc == front + own
    ensures Subst(m, args, spliced, false, acc, s) == front + Text(Cut(m, args, spliced, acc, own, s))
    decreases |s|, 0
  {
    hide SpanIdent, Fuses, ParamIndex, Joined;
    if s == "" {
      assert Text([Own(own)]) == own + "";
      assert front + (own + "") == acc;
    } else if IsIdentStart(s[0]) {
      var (i, r) := SpanIdent(s);
      assert '#' !in r;
      var k := ParamIndex(m.params, i);
      if k.Some? && k.value < |args| {
        SpliceSpells(m, args, acc, own, args[k.value], r, front);
      } else if m.variadic && i == "__VA_ARGS__" {
        SpliceSpells(m, args, acc, own, Joined(if |m.params| <= |args| then args[|m.params|..] else []), r, front);
      } else {
        assert acc + i == front + (own + i);
        CutSpells(m, args, false, acc + i, own + i, r, front);
      }
    } else {
      var c := if spliced && acc != "" && Fuses(acc[|acc| - 1], s[0]) then " " + [s[0]] else [s[0]];
      assert acc + c == front + (own + c);
      assert acc + (" " + [s[0]]) == acc + " " + [s[0]];
      CutSpells(m, args, false, acc + c, own + c, s[1..], front);
    }
  }

  lemma {:induction false} SpliceSpells(m: Macro, args: seq<string>, acc: string, own: string, text: string, r: string,
      front: string)
    requires '#' !in r && acc == front + own
    ensures var built := Splice(false, text, acc);
      Subst(m, args, true, false, built, r) ==
        front + Text([Own(own + Gap(acc, text)), Arg(text)] + Cut(m, args, true, built, "", r))
    decreases |r|, 1
  {
    hide Subst, Cut, Fuses, Text;
    var built := Splice(false, text, acc);
    BuiltIs(acc, own, text, front);
    var gap, rest := own + Gap(acc, text), Cut(m, args, true, built, "", r);
    assert built == built + "";
    CutSpells(m, args, true, built, "", r, built);
    TwoMore(gap, text, rest);
    Nested(front, gap, text, Text(rest));
  }

  lemma BuiltIs(acc: string, own: string, text: string, front: string)
    requires acc == front + own
    ensures Splice(false, text, acc) == front + (own + Gap(acc, text)) + text
  {
    hide Fuses;
    assert front + (own + " ") == acc + " " && front + (own + "") == acc;
  }

  lemma Nested(a: string, b: string, c: string, d: string)
    ensures a + b + c + d == a + (b + (c + d))
  {}

  lemma TwoMore(a: string, b: string, rest: seq<Piece>)
    ensures Text([Own(a), Arg(b)] + rest) == a + (b + Text(rest))
  {
    var ps := [Own(a), Arg(b)] + rest;
    assert ps[1..] == [Arg(b)] + rest && ps[1..][1..] == rest;
  }

  lemma PiecesSpell(m: Macro, args: seq<string>)
    requires '#' !in m.body
    ensures Text(Pieces(m, args)) == Substituted(m, args)
  {
    CutSpells(m, args, false, "", "", m.body, "");
    assert "" + Text(Pieces(m, args)) == Text(Pieces(m, args));
  }

  // ---- arguments first ----

  /** Every piece is left behind before the next begins. */
  predicate AllBreak(active: set<string>, t: Table, ps: seq<Piece>) {
    ps == [] || (Breaks(active, t, ps[0].text, Text(ps[1..])) && AllBreak(active, t, ps[1..]))
  }

  /** The reference: the body's own stretches with own retired, each argument on its own with only outer retired. */
  function EachAlone(own: set<string>, outer: set<string>, t: Table, at: Place, ps: seq<Piece>): string
    requires t.WellKeyed()
  {
    if ps == [] then ""
    else Go(if ps[0].Own? then own else outer, t, at, ps[0].text) + EachAlone(own, outer, t, at, ps[1..])
  }

  lemma {:induction false} RescanSplits(own: set<string>, t: Table, at: Place, ps: seq<Piece>)
    requires t.WellKeyed() && AllBreak(own, t, ps)
    ensures Go(own, t, at, Text(ps)) == EachAlone(own, own, t, at, ps)
  {
    hide Go, Breaks;
    if ps == [] {
      GoParts(own, t, at, "");
    } else {
      GoConcat(own, t, at, ps[0].text, Text(ps[1..]));
      RescanSplits(own, t, at, ps[1..]);
    }
  }

  lemma {:induction false} AloneAgrees(i: string, active: set<string>, t: Table, at: Place, ps: seq<Piece>)
    requires t.WellKeyed() && forall k :: 0 <= k < |ps| && ps[k].Arg? ==> !Meets(i, active, t, at, ps[k].text)
    ensures EachAlone(active + {i}, active + {i}, t, at, ps) == EachAlone(active + {i}, active, t, at, ps)
  {
    hide Go, Meets;
    if ps != [] {
      if ps[0].Arg? { Unmet(i, active, t, at, ps[0].text); }
      forall k | 0 <= k < |ps[1..]| && ps[1..][k].Arg?
        ensures !Meets(i, active, t, at, ps[1..][k].text)
      {
        assert ps[1..][k] == ps[k + 1];
      }
      AloneAgrees(i, active, t, at, ps[1..]);
    }
  }

  /** Does the rescan see the text? The candidate scan lets pass what has no macro in it. */
  predicate Rescanned(t: Table, text: string) { Candidate({}, t, text) || !EndsInComment(text) }

  lemma RescanIsGo(active: set<string>, t: Table, at: Place, text: string)
    requires t.WellKeyed() && Rescanned(t, text)
    ensures Expand(active, t, at, text, false) == Go(active, t, at, text)
  {
    hide Go, Candidate, EndsInComment;
    if !Candidate({}, t, text) {
      PaintingHidesOnly(active, t, text);
      GoQuiet(active, t, at, text);
    }
  }

  /**
   * For every function-like macro without # and ##: splicing the arguments unexpanded and rescanning gives what expanding
   * each argument first gives, whenever no call reaches over an edge between the body and an argument, and no
   * argument's own expansion comes to the macro that is being called.
   */
  lemma ArgumentsFirst(active: set<string>, t: Table, at: Place, i: string, args: seq<string>)
    requires t.WellKeyed() && Live(active, t, i) && i != "__FILE__" && i != "__LINE__" && t.Find(i).value.func
    requires '#' !in t.Find(i).value.body && Rescanned(t, Substituted(t.Find(i).value, args))
    requires AllBreak(active + {i}, t, Pieces(t.Find(i).value, args))
    requires forall p :: p in Pieces(t.Find(i).value, args) && p.Arg? ==> !Meets(i, active, t, at, p.text)
    ensures
      var m := t.Find(i).value;
      Expand(active + {i}, t, at, Substituted(m, args), false) ==
        EachAlone(active + {i}, active, t, at, Pieces(m, args))
  {
    hide Expand, Go, Meets, AllBreak, Substituted, Rescanned, Pieces;
    var m := t.Find(i).value;
    PiecesSpell(m, args);
    RescanIsGo(active + {i}, t, at, Substituted(m, args));
    RescanSplits(active + {i}, t, at, Pieces(m, args));
    AloneAgrees(i, active, t, at, Pieces(m, args));
  }

  /** With one argument spliced once: exactly when that argument expands alike with the macro retired and not. */
  lemma OneArgumentIff(active: set<string>, t: Table, at: Place, i: string, args: seq<string>, a: string, x: string, b: string)
    requires t.WellKeyed() && Live(active, t, i) && i != "__FILE__" && i != "__LINE__" && t.Find(i).value.func
    requires '#' !in t.Find(i).value.body && Rescanned(t, Substituted(t.Find(i).value, args))
    requires Pieces(t.Find(i).value, args) == [Own(a), Arg(x), Own(b)]
    requires AllBreak(active + {i}, t, Pieces(t.Find(i).value, args))
    ensures
      var m := t.Find(i).value;
      Expand(active + {i}, t, at, Substituted(m, args), false) == EachAlone(active + {i}, active, t, at, Pieces(m, args))
      <==> Go(active + {i}, t, at, x) == Go(active, t, at, x)
  {
    hide Expand, Go, AllBreak, Substituted, Rescanned, Pieces;
    var m := t.Find(i).value;
    PiecesSpell(m, args);
    RescanIsGo(active + {i}, t, at, Substituted(m, args));
    RescanSplits(active + {i}, t, at, Pieces(m, args));
    ThreeAlone(active + {i}, active + {i}, t, at, a, x, b);
    ThreeAlone(active + {i}, active, t, at, a, x, b);
    Middle(Go(active + {i}, t, at, a), Go(active + {i}, t, at, x), Go(active, t, at, x), Go(active + {i}, t, at, b));
  }

  lemma ThreeAlone(own: set<string>, outer: set<string>, t: Table, at: Place, a: string, x: string, b: string)
    requires t.WellKeyed()
    ensures EachAlone(own, outer, t, at, [Own(a), Arg(x), Own(b)]) ==
      Go(own, t, at, a) + (Go(outer, t, at, x) + Go(own, t, at, b))
  {
    hide Go;
    var ps := [Own(a), Arg(x), Own(b)];
    assert ps[1..] == [Arg(x), Own(b)] && ps[1..][1..] == [Own(b)] && ps[1..][1..][1..] == [];
    assert EachAlone(own, outer, t, at, [Own(b)]) == Go(own, t, at, b) + "";
    assert EachAlone(own, outer, t, at, ps[1..]) == Go(outer, t, at, x) + Go(own, t, at, b);
  }

  lemma Middle(a: string, x: string, y: string, b: string)
    ensures a + (x + b) == a + (y + b) <==> x == y
  {
    if a + (x + b) == a + (y + b) {
      assert (a + (x + b))[|a|..] == x + b && (a + (y + b))[|a|..] == y + b;
      assert |x| == |y|;
      assert (x + b)[..|x|] == x && (y + b)[..|y|] == y;
    }
  }

  // ---- rescanning with the rest ----

  /**
   * The replacement of an object-like macro is rescanned alone, section 6.10.3.4p1 rescans it with the text that follows.
   * The result is the same whenever no call reaches from the replacement into that text, and the expansion of the text
   * does not come to the macro itself.
   */
  lemma RescannedWithRest(active: set<string>, t: Table, at: Place, i: string, r: string)
    requires t.WellKeyed() && i != "" && Live(active, t, i) && i != "__FILE__" && i != "__LINE__" && !t.Find(i).value.func
    requires var b := Substituted(t.Find(i).value, []); Rescanned(t, b) && Breaks(active + {i}, t, b, r)
    requires !Meets(i, active, t, at, r)
    ensures Ident(active, t, at, i, r) == Go(active + {i}, t, at, Substituted(t.Find(i).value, []) + r)
  {
    hide Go, Ident, Expand, Meets, Breaks, Substituted, Rescanned;
    var b := Substituted(t.Find(i).value, []);
    IdentParts(active, t, at, i, r);
    RescanIsGo(active + {i}, t, at, b);
    GoConcat(active + {i}, t, at, b, r);
    Unmet(i, active, t, at, r);
  }

  /** The same for a call that is not fed back; r2 is the text after its arguments. */
  lemma CallRescannedWithRest(active: set<string>, t: Table, at: Place, i: string, r: string)
    requires t.WellKeyed() && i != "" && Live(active, t, i) && i != "__FILE__" && i != "__LINE__" && t.Find(i).value.func
    requires StartsCall(r)
    requires var (args, r2) := ScanArgs(DropSpaces(r)[1..]);
      var b := Substituted(t.Find(i).value, args);
      Rescanned(t, b) && Breaks(active + {i}, t, b, r2) && !Meets(i, active, t, at, r2)
      && PendingCall(active, t, Expand(active + {i}, t, at, b, false), r2).None?
    ensures var (args, r2) := ScanArgs(DropSpaces(r)[1..]);
      Ident(active, t, at, i, r) == Go(active + {i}, t, at, Substituted(t.Find(i).value, args) + r2)
  {
    hide Go, Ident, Expand, Meets, Breaks, Substituted, Rescanned, PendingCall, ScanArgs, DropSpaces;
    var (args, r2) := ScanArgs(DropSpaces(r)[1..]);
    var b := Substituted(t.Find(i).value, args);
    IdentParts(active, t, at, i, r);
    RescanIsGo(active + {i}, t, at, b);
    GoConcat(active + {i}, t, at, b, r2);
    Unmet(i, active, t, at, r2);
  }

  /** A name that ends the replacement is not called, whatever follows. */
  lemma TrailingNameStays(active: set<string>, t: Table, at: Place, i: string, d: string, n: string, r: string)
    requires t.WellKeyed() && i != "" && Live(active, t, i) && i != "__FILE__" && i != "__LINE__" && !t.Find(i).value.func
    requires Substituted(t.Find(i).value, []) == d + n && Rescanned(t, d + n) && Breaks(active + {i}, t, d, n)
    requires IsName(n) && Live(active + {i}, t, n) && n != "__FILE__" && n != "__LINE__" && t.Find(n).value.func
    ensures Ident(active, t, at, i, r) == Go(active + {i}, t, at, d) + n + Go(active, t, at, r)
  {
    hide Go, Ident, Expand, Breaks, Substituted, Rescanned;
    IdentParts(active, t, at, i, r);
    RescanIsGo(active + {i}, t, at, d + n);
    EndsUncalled(active + {i}, t, at, d, n);
  }

  /** Nor when the replacement is that of a call, unless it is the name alone. */
  lemma TrailingNameInCall(active: set<string>, t: Table, at: Place, i: string, d: string, n: string, r: string)
    requires t.WellKeyed() && i != "" && Live(active, t, i) && i != "__FILE__" && i != "__LINE__" && t.Find(i).value.func
    requires StartsCall(r) && Rescanned(t, d + n) && Breaks(active + {i}, t, d, n)
    requires var (args, r2) := ScanArgs(DropSpaces(r)[1..]);
      Substituted(t.Find(i).value, args) == d + n && PendingCall(active, t, Go(active + {i}, t, at, d) + n, r2).None?
    requires IsName(n) && Live(active + {i}, t, n) && n != "__FILE__" && n != "__LINE__" && t.Find(n).value.func
    ensures var (args, r2) := ScanArgs(DropSpaces(r)[1..]);
      Ident(active, t, at, i, r) == Go(active + {i}, t, at, d) + n + Go(active, t, at, r2)
  {
    hide Go, Ident, Expand, Breaks, Substituted, Rescanned, PendingCall, ScanArgs, DropSpaces;
    IdentParts(active, t, at, i, r);
    RescanIsGo(active + {i}, t, at, d + n);
    EndsUncalled(active + {i}, t, at, d, n);
  }

  lemma EndsUncalled(active: set<string>, t: Table, at: Place, d: string, n: string)
    requires t.WellKeyed() && Breaks(active, t, d, n)
    requires IsName(n) && Live(active, t, n) && n != "__FILE__" && n != "__LINE__" && t.Find(n).value.func
    ensures Go(active, t, at, d + n) == Go(active, t, at, d) + n
  {
    hide Go, Ident, Expand, Breaks, SpanIdent;
    GoConcat(active, t, at, d, n);
    GoName(active, t, at, n);
    IdentParts(active, t, at, n, "");
    GoParts(active, t, at, "");
    assert n + "" == n;
  }
}
