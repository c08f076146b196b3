/** The state of src/C99/Preprocess.hs, its cached flag and its per-line fast path. */
module PreprocessorState {
  import opened Options
  import opened MacroText
  import opened Macros
  import opened ExpandProof
  import opened IfStack
  import opened Lines

  // ---- the scan in place ----

  function IdentEnd(s: string, j: nat): (r: nat)
    requires j <= |s|
    ensures j <= r <= |s|
    decreases |s| - j
  {
    if j < |s| && IsIdentCont(s[j]) then IdentEnd(s, j + 1) else j
  }

  /** Is some identifier of the line among the names? */
  predicate NamedAt(names: set<string>, s: string, i: nat)
    decreases |s| - i
  {
    if i >= |s| then false
    else if IsIdentStart(s[i]) then
      var j := IdentEnd(s, i + 1);
      s[i..j] in names || NamedAt(names, s, j)
    else NamedAt(names, s, i + 1)
  }

  lemma SpanNone(s: string)
    requires s == "" || !IsIdentCont(s[0])
    ensures SpanIdent(s) == ("", s)
  {}

  lemma SpanOne(s: string)
    requires s != "" && IsIdentCont(s[0])
    ensures SpanIdent(s) == ([s[0]] + SpanIdent(s[1..]).0, SpanIdent(s[1..]).1)
  {}

  lemma {:induction false} IdentEndSpans(s: string, j: nat)
    requires j <= |s|
    ensures SpanIdent(s[j..]) == (s[j..IdentEnd(s, j)], s[IdentEnd(s, j)..])
    decreases |s| - j
  {
    hide SpanIdent;
    if j < |s| && IsIdentCont(s[j]) {
      assert s[j..][1..] == s[j + 1..];
      SpanOne(s[j..]);
      IdentEndSpans(s, j + 1);
      assert s[j..IdentEnd(s, j)] == [s[j]] + s[j + 1..IdentEnd(s, j)];
    } else {
      SpanNone(s[j..]);
      assert s[j..j] == "";
    }
  }

  /** An identifier to its end. */
  predicate WordAt(s: string, a: nat, b: nat) {
    a < b <= |s| && IsIdentStart(s[a]) && (forall k :: a <= k < b ==> IsIdentCont(s[k])) && (b == |s| || !IsIdentCont(s[b]))
  }

  lemma {:induction false} IdentEndIs(s: string, j: nat)
    requires j <= |s|
    ensures var e := IdentEnd(s, j);
      (forall k :: j <= k < e ==> IsIdentCont(s[k])) && (e == |s| || !IsIdentCont(s[e]))
    decreases |s| - j
  {
    if j < |s| && IsIdentCont(s[j]) { IdentEndIs(s, j + 1); }
  }

  /** When the scan in place stops at a line, an identifier of the line is a name. */
  lemma {:induction false} ScanFindsNames(names: set<string>, s: string, i: nat)
    requires NamedAt(names, s, i)
    ensures exists a: nat, b: nat :: WordAt(s, a, b) && s[a..b] in names
    decreases |s| - i
  {
    if IsIdentStart(s[i]) {
      var j := IdentEnd(s, i + 1);
      if s[i..j] in names {
        IdentEndIs(s, i + 1);
        assert WordAt(s, i, j);
      } else {
        ScanFindsNames(names, s, j);
      }
    } else {
      ScanFindsNames(names, s, i + 1);
    }
  }

  /** The scan in place never misses what the scan of expansion would find. */
  lemma {:induction false} ScanMissesNothing(t: Table, s: string, i: nat)
    requires t.Known() && i <= |s| && !NamedAt(t.names, s, i)
    ensures !Candidate({}, t, s[i..])
    decreases |s| - i
  {
    if i < |s| {
      assert s[i..][1..] == s[i + 1..];
      if IsIdentStart(s[i]) {
        IdentEndSpans(s, i);
        assert IdentEnd(s, i) == IdentEnd(s, i + 1);
        ScanMissesNothing(t, s, IdentEnd(s, i));
      } else {
        ScanMissesNothing(t, s, i + 1);
      }
    }
  }

  // ---- the comment state of a line ----

  lemma {:induction false} LiteralsAgree(s: string, k: nat, q: char)
    requires k <= |s|
    ensures var e := LitEnd(s, k, q); ScanLit(q, s[k..]).1 == (if e <= |s| then s[e..] else "")
    decreases |s| - k
  {
    if k < |s| {
      assert s[k..][1..] == s[k + 1..];
      if s[k] == '\\' {
        if k + 1 < |s| {
          assert s[k..][2..] == s[k + 2..];
          LiteralsAgree(s, k + 2, q);
        }
      } else if s[k] != q {
        LiteralsAgree(s, k + 1, q);
      }
    }
  }

  /** The loop over the bytes and the recursion over the text agree on whether a comment stays open. */
  lemma {:induction false} CommentsAgree(s: string, k: nat, d: int, inComment: bool)
    ensures ParenDepth(s, k, d, inComment).1 ==
      if k >= |s| then inComment else if inComment then InsideAtEnd(s[k..]) else EndsInComment(s[k..])
    decreases |s| - k
  {
    hide EndsInComment, InsideAtEnd, ScanLit, LitEnd;
    if k >= |s| { return; }
    var r := s[k..];
    assert r[1..] == s[k + 1..];
    EmptyEnds();
    EmptyInside();
    if inComment {
      InsideParts(r);
      if s[k] == '*' && k + 1 < |s| && s[k + 1] == '/' {
        assert r[2..] == s[k + 2..] && (k + 2 == |s| ==> r[2..] == "");
        CommentsAgree(s, k + 2, d, false);
      } else {
        CommentsAgree(s, k + 1, d, true);
      }
    } else {
      EndsParts(r);
      if s[k] == '/' && k + 1 < |s| && s[k + 1] == '/' {
      } else if s[k] == '/' && k + 1 < |s| && s[k + 1] == '*' {
        assert r[2..] == s[k + 2..];
        CommentsAgree(s, k + 2, d, true);
      } else if IsQuote(s[k]) {
        LiteralsAgree(s, k + 1, s[k]);
        CommentsAgree(s, LitEnd(s, k + 1, s[k]), d, false);
      } else {
        CommentsAgree(s, k + 1, if s[k] == '(' then d + 1 else if s[k] == ')' then d - 1 else d, false);
      }
    }
  }

  lemma OnlyOrders(text: string, line: nat)
    ensures Classify(text, line).Act? ==> Classify(text, line).a.Order?
  {
    hide WordOf;
  }

  lemma OrdersSayNothing(env: Env, s: Machine<Sound>, e: Event<Plain, Cond>)
    requires e.Act? ==> e.a.Order?
    ensures Step(Ruled(env), s, e).1 == ""
  {
    hide Dead, Ordered, Holds, OrTop;
  }

  // ---- the fast path ----

  /** A line that opens no call and names no macro: the long way would give it back as it is. */
  lemma FastPath(env: Env, s: Machine<Sound>, lines: seq<string>, line: nat)
    requires lines != [] && !StartsHash(lines[0]) && !Dead(s.stack)
    requires ParenDepth(lines[0], 0, 0, false).0 <= 0 && !NamedAt(s.m.table.names, lines[0], 0)
    ensures
      var (e, merged, inComment, rest) := Next(s.stack, lines, line, false);
      (merged, inComment, rest) == (0, ParenDepth(lines[0], 0, 0, false).1, lines[1..]) &&
      Step(Ruled(env), s, e) == (s, lines[0])
  {
    ScanMissesNothing(s.m.table, lines[0], 0);
    assert lines[0][0..] == lines[0];
  }

  // ---- the state ----

  class Preprocessor {
    const env: Env
    var table: Table
    var stack: seq<int>
    var disabled: bool
    var errors: seq<nat>

    /** The cached flag is right and the candidate names cover every macro. */
    ghost predicate Valid()
      reads this
    {
      table.Known() && disabled == Dead(stack)
    }

    ghost function View(): Machine<Sound>
      requires Valid()
      reads this
    {
      Machine(stack, World(table, errors))
    }

    constructor (env: Env)
      ensures Valid() && this.env == env && View() == Machine([], World(EMPTY, []))
    {
      this.env := env;
      table, stack, disabled, errors := EMPTY, [], false, [];
    }

    method Recompute()
      modifies this`disabled
      ensures disabled == Dead(stack)
    {
      disabled := Dead(stack);
    }

    /** One directive. */
    method Directive(text: string, line: nat)
      requires Valid()
      modifies this
      ensures Valid() && View() == Step(Ruled(env), old(View()), Classify(text, line)).0
    {
      hide Classify, Ordered, Holds;
      match Classify(text, line)
      case Endif(c) =>
        if stack == [] {
          errors := errors + [c.line];
        } else {
          stack := stack[1..];
          Recompute();
        }
      case Else(c) =>
        if stack == [] {
          errors := errors + [c.line];
        } else {
          stack := [ElseTop(stack[0])] + stack[1..];
          Recompute();
        }
      case Elif(c) =>
        if stack == [] {
          errors := errors + [c.line];
        } else {
          stack := [ElifTop(stack[0], Holds(env, World(table, errors), c))] + stack[1..];
          Recompute();
        }
      case If(c) =>
        stack := [if disabled then 2 else if Holds(env, World(table, errors), c) then 1 else 0] + stack;
        Recompute();
      case Act(a) =>
        OnlyOrders(text, line);
        if !disabled { Order(a.word, a.rest, a.line); }
    }

    /** A directive that is no conditional, in live code. */
    method Order(word: Option<string>, rest: string, line: nat)
      requires Valid()
      modifies this`table, this`errors
      ensures Valid() && View() == old(View()).(m := Ordered(env, old(View()).m, line, word, rest))
    {
      if word == Some("define") {
        var m := env.parse(rest);
        if m.None? {
          errors := errors + [line];
        } else {
          table := table.Define(m.value);
        }
      } else if word == Some("undef") {
        var n := ReadIdent(rest).0;
        if n.Some? { table := table.Undef(n.value); }
      } else if word == Some("error") {
        errors := errors + [line];
      }
    }

    /** A live line of text: as it is when it can, and otherwise merged and expanded. */
    method TextLine(lines: seq<string>, line: nat, inComment: bool)
      returns (o: string, merged: nat, inComment': bool, rest: seq<string>)
      requires Valid() && !disabled && lines != [] && (inComment || !StartsHash(lines[0]))
      ensures
        var (e, took, carried, left) := Next(stack, lines, line, inComment);
        (merged, inComment', rest) == (took, carried, left) && Step(Ruled(env), View(), e) == (View(), o)
    {
      hide Step, Next, Dead, Ruled, MergeLines, ParenDepth, NamedAt, Expand;
      var (d, c, at) := ParenDepth(lines[0], 0, 0, inComment);
      if !inComment && d <= 0 && !NamedAt(table.names, lines[0], 0) {
        FastPath(env, View(), lines, line);
        return lines[0], 0, c, lines[1..];
      }
      NextIsText(env, View(), lines, line, inComment);
      var cut := if d > 0 && at.Some? then lines[0][..at.value] else lines[0];
      var logical;
      var all := MergeLines(d, c, cut, lines[1..], 0);
      logical, merged, inComment', rest := all.0, all.1, all.2, all.3;
      o := Expand({}, table, Place(env.file, line), logical, inComment);
    }

    /**
     * The lines of a file, by the cached flag and the fast path. The result is what every line the long way
     * gives, and there is one line out for each line in.
     */
    method ProcessLines(src: seq<string>) returns (out: seq<string>)
      requires Valid()
      modifies this
      ensures Valid() && (View(), out) == Reference(env, old(View()), src, 1, false)
      ensures |out| == |src|
    {
      hide Step, Next, Dead, Ruled, MergeLines, MergeDirective, ParenDepth, NamedAt, Expand, Classify, Reference, Blanks,
        StartsHash, Took;
      var rest, line, inComment := src, 1, false;
      out := [];
      ghost var all := Reference(env, View(), src, 1, false);
      assert out + all.1 == all.1;
      while rest != []
        invariant Valid()
        invariant line >= 1
        invariant var (s, o) := Reference(env, View(), rest, line, inComment); (s, out + o) == all
        decreases |rest|
      {
        ghost var s := View();
        if !inComment && StartsHash(rest[0]) {
          var (text, merged, left) := MergeDirective(rest[0], rest[1..], 0);
          NextIsDirective(env, s, rest, line);
          ReferenceStep(env, s, rest, line, inComment, out);
          Directive(text, line);
          out := out + ([""] + Blanks(merged));
          rest, line := left, line + merged + 1;
        } else if disabled {
          NextIsDead(env, s, rest, line, inComment);
          ReferenceStep(env, s, rest, line, inComment, out);
          out := out + ([""] + Blanks(0));
          rest, line := rest[1..], line + 1;
        } else {
          var o, merged, inComment', left := TextLine(rest, line, inComment);
          ReferenceStep(env, s, rest, line, inComment, out);
          out := out + ([o] + Blanks(merged));
          rest, line, inComment := left, line + merged + 1, inComment';
        }
      }
      ReferenceEnds(env, View(), line, inComment);
      assert out + [] == out;
    }
  }

  lemma ReferenceStep(env: Env, s: Machine<Sound>, lines: seq<string>, line: nat, inComment: bool, out: seq<string>)
    requires lines != []
    ensures
      var (e, merged, inComment', rest) := Next(s.stack, lines, line, inComment);
      var (s1, o) := Step(Ruled(env), s, e);
      var (s2, more) := Reference(env, s1, rest, line + merged + 1, inComment');
      var (s3, all) := Reference(env, s, lines, line, inComment);
      s3 == s2 && out + all == out + ([o] + Blanks(merged)) + more
  {
    hide Next, Step, Ruled, Blanks, Took;
    var (e, merged, inComment', rest) := Next(s.stack, lines, line, inComment);
    var (s1, o) := Step(Ruled(env), s, e);
    var more := Reference(env, s1, rest, line + merged + 1, inComment').1;
    assert out + ([o] + Blanks(merged) + more) == out + ([o] + Blanks(merged)) + more;
  }

  lemma ReferenceEnds(env: Env, s: Machine<Sound>, line: nat, inComment: bool)
    ensures Reference(env, s, [], line, inComment) == (s, [])
  {}

  lemma NextIsDirective(env: Env, s: Machine<Sound>, lines: seq<string>, line: nat)
    requires lines != [] && StartsHash(lines[0])
    ensures
      var (text, merged, rest) := MergeDirective(lines[0], lines[1..], 0);
      var e := Classify(text, line);
      Next(s.stack, lines, line, false) == (e, merged, false, rest) && Step(Ruled(env), s, e).1 == ""
  {
    hide Step, Classify, Ruled;
    var e := Classify(MergeDirective(lines[0], lines[1..], 0).0, line);
    OnlyOrders(MergeDirective(lines[0], lines[1..], 0).0, line);
    OrdersSayNothing(env, s, e);
  }

  lemma NextIsDead(env: Env, s: Machine<Sound>, lines: seq<string>, line: nat, inComment: bool)
    requires lines != [] && (inComment || !StartsHash(lines[0])) && Dead(s.stack)
    ensures
      var e := Act(Text(line, lines[0], inComment));
      Next(s.stack, lines, line, inComment) == (e, 0, inComment, lines[1..]) && Step(Ruled(env), s, e) == (s, "")
  {}

  lemma NextIsText(env: Env, s: Machine<Sound>, lines: seq<string>, line: nat, inComment: bool)
    requires lines != [] && (inComment || !StartsHash(lines[0])) && !Dead(s.stack)
    ensures
      var (d, c, at) := ParenDepth(lines[0], 0, 0, inComment);
      var cut := if d > 0 && at.Some? then lines[0][..at.value] else lines[0];
      var (logical, merged, inComment', rest) := MergeLines(d, c, cut, lines[1..], 0);
      var e := Act(Text(line, logical, inComment));
      Next(s.stack, lines, line, inComment) == (e, merged, inComment', rest) &&
      Step(Ruled(env), s, e) == (s, Expand({}, s.m.table, Place(env.file, line), logical, inComment))
  {}

  // ---- lines of nested conditionals ----

  /** A line that is complete by itself. */
  predicate Single(s: string) {
    if StartsHash(s) then !EndsInComment(s) else ParenDepth(s, 0, 0, false).0 <= 0 && !EndsInComment(s)
  }

  function EventOf(s: string, line: nat): Event<Plain, Cond> {
    if StartsHash(s) then Classify(s, line) else Act(Text(line, s, false))
  }

  function EventsOf(lines: seq<string>, line: nat): seq<Event<Plain, Cond>>
    decreases |lines|
  {
    if lines == [] then [] else [EventOf(lines[0], line)] + EventsOf(lines[1..], line + 1)
  }

  lemma {:induction false} SingleLinesRun(env: Env, s: Machine<Sound>, lines: seq<string>, line: nat)
    requires forall i :: 0 <= i < |lines| ==> Single(lines[i])
    ensures Reference(env, s, lines, line, false) == Run(Ruled(env), s, EventsOf(lines, line))
    decreases |lines|
  {
    hide Step, Next, Classify, ParenDepth, EndsInComment, MergeLines, MergeDirective, Ruled;
    if lines != [] {
      SingleIsNext(env, s, lines, line);
      var e := EventOf(lines[0], line);
      var s1 := Step(Ruled(env), s, e).0;
      SingleLinesRun(env, s1, lines[1..], line + 1);
      RunCons(Ruled(env), s, e, EventsOf(lines[1..], line + 1));
      assert [Step(Ruled(env), s, e).1] + Blanks(0) == [Step(Ruled(env), s, e).1];
    }
  }

  lemma SingleIsNext(env: Env, s: Machine<Sound>, lines: seq<string>, line: nat)
    requires lines != [] && Single(lines[0])
    ensures Next(s.stack, lines, line, false) == (EventOf(lines[0], line), 0, false, lines[1..])
  {
    hide Classify, ParenDepth, EndsInComment, Dead;
    CommentsAgree(lines[0], 0, 0, false);
    assert lines[0][0..] == lines[0];
    EmptyEnds();
    ShortLine();
  }

  lemma ShortLine()
    ensures !ParenDepth("", 0, 0, false).1
  {}

  /**
   * Lines that spell nested groups become what the groups mean: a line is expanded, or its definition made,
   * exactly when every group around it chose the arm it stands in. The conditional stack is empty again after.
   */
  lemma NestedLinesMean(env: Env, w: Sound, lines: seq<string>, g: Group<Plain, Cond>)
    requires forall i :: 0 <= i < |lines| ==> Single(lines[i])
    requires EventsOf(lines, 1) == Flat(g)
    ensures
      var (m, out) := Meaning(Ruled(env), w, g);
      Reference(env, Machine([], w), lines, 1, false) == (Machine([], m), out)
  {
    hide Run, Meaning, Reference, Ruled;
    var s: Machine<Sound> := Machine([], w);
    SingleLinesRun(env, s, lines, 1);
    GroupRuns(Ruled(env), s, g);
  }
}
