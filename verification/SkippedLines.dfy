/** Comments on skipped lines: src/C99/Preprocess.hs passes over a line of a dead group without looking for comments on it,
    where section 5.1.1.2 of ISO/IEC 9899:1999 replaces comments before directives are executed. When that shows. */
module SkippedLines {
  import opened Options
  import opened MacroText
  import opened Macros
  import opened ExpandProof
  import opened IfStack
  import opened Lines
  import opened PreprocessorState
  import opened Painting
  import opened ArgumentCases

  predicate Skipped(stack: seq<int>, lines: seq<string>, inComment: bool)
    requires lines != []
  {
    Dead(stack) && (inComment || !StartsHash(lines[0]))
  }

  /** The next logical line, with the comments of a skipped line taken into account. */
  function NextSeen(stack: seq<int>, lines: seq<string>, line: nat, inComment: bool)
    : (r: (Event<Plain, Cond>, nat, bool, seq<string>))
    requires lines != []
    ensures Took(lines, r.1, r.3)
  {
    var (e, merged, after, rest) := Next(stack, lines, line, inComment);
    (e, merged, if Skipped(stack, lines, inComment) then ParenDepth(lines[0], 0, 0, inComment).1 else after, rest)
  }

  /** What a file's lines become when every comment counts. */
  function ReferenceSeen(env: Env, s: Machine<Sound>, lines: seq<string>, line: nat, inComment: bool)
    : (r: (Machine<Sound>, seq<string>))
    ensures |r.1| == |lines|
    decreases |lines|
  {
    if lines == [] then (s, [])
    else
      var (e, merged, inComment', rest) := NextSeen(s.stack, lines, line, inComment);
      var (s1, o) := Step(Ruled(env), s, e);
      var (s2, out) := ReferenceSeen(env, s1, rest, line + merged + 1, inComment');
      (s2, [o] + Blanks(merged) + out)
  }

  /** The comment a line leaves open is the one it began in: it opens and closes none that lasts. */
  predicate LeavesComment(text: string, inComment: bool) {
    if inComment then InsideAtEnd(text) else !EndsInComment(text)
  }

  /** Passing a skipped line over is right for the comment state exactly when the line leaves that as it was. */
  lemma PassedOverIff(stack: seq<int>, lines: seq<string>, line: nat, inComment: bool)
    requires lines != [] && Skipped(stack, lines, inComment)
    ensures Next(stack, lines, line, inComment) == NextSeen(stack, lines, line, inComment) <==> LeavesComment(lines[0], inComment)
  {
    hide EndsInComment, InsideAtEnd, Dead, StartsHash;
    CommentsAgree(lines[0], 0, 0, inComment);
    EmptyEnds();
    EmptyInside();
    assert lines[0][0..] == lines[0];
  }

  /** Every line of the file that is skipped leaves the comment state as it was. */
  predicate AllLeave(env: Env, s: Machine<Sound>, lines: seq<string>, line: nat, inComment: bool)
    decreases |lines|
  {
    lines == [] ||
    var (e, merged, inComment', rest) := Next(s.stack, lines, line, inComment);
    && (Skipped(s.stack, lines, inComment) ==> LeavesComment(lines[0], inComment))
    && AllLeave(env, Step(Ruled(env), s, e).0, rest, line + merged + 1, inComment')
  }

  lemma ReferenceOnce(env: Env, s: Machine<Sound>, lines: seq<string>, line: nat, inComment: bool)
    requires lines != []
    ensures
      var (e, merged, after, rest) := Next(s.stack, lines, line, inComment);
      var (s1, o) := Step(Ruled(env), s, e);
      var (s2, out) := Reference(env, s1, rest, line + merged + 1, after);
      Reference(env, s, lines, line, inComment) == (s2, [o] + Blanks(merged) + out)
  {
    hide Next, Step, Ruled, Took, Blanks;
  }

  lemma SeenOnce(env: Env, s: Machine<Sound>, lines: seq<string>, line: nat, inComment: bool)
    requires lines != []
    ensures
      var (e, merged, after, rest) := NextSeen(s.stack, lines, line, inComment);
      var (s1, o) := Step(Ruled(env), s, e);
      var (s2, out) := ReferenceSeen(env, s1, rest, line + merged + 1, after);
      ReferenceSeen(env, s, lines, line, inComment) == (s2, [o] + Blanks(merged) + out)
  {
    hide NextSeen, Step, Ruled, Took, Blanks;
  }

  /** Then the whole file comes out as when every comment counts. */
  lemma {:induction false} SkippedAgree(env: Env, s: Machine<Sound>, lines: seq<string>, line: nat, inComment: bool)
    requires AllLeave(env, s, lines, line, inComment)
    ensures Reference(env, s, lines, line, inComment) == ReferenceSeen(env, s, lines, line, inComment)
    decreases |lines|
  {
    hide Next, Step, Ruled, LeavesComment, Dead, Took, Reference, ReferenceSeen, Blanks, StartsHash, ParenDepth;
    if lines == [] {
      NoMore(env, s, line, inComment);
    } else {
      ReferenceOnce(env, s, lines, line, inComment);
      SeenOnce(env, s, lines, line, inComment);
      if Skipped(s.stack, lines, inComment) { PassedOverIff(s.stack, lines, line, inComment); }
      var (e, merged, inComment', rest) := Next(s.stack, lines, line, inComment);
      assert Took(lines, merged, rest);
      TookLess(lines, merged, rest);
      SkippedAgree(env, Step(Ruled(env), s, e).0, rest, line + merged + 1, inComment');
    }
  }

  lemma TookLess(lines: seq<string>, merged: nat, rest: seq<string>)
    requires Took(lines, merged, rest)
    ensures |rest| < |lines|
  {}

  /** A comment opened on a skipped line hides the directive below it; the program closes the group there. */
  lemma HiddenEndif(env: Env, w: Sound)
    requires !env.holds(w.table, 1, "0")
    ensures Reference(env, Machine([], w), ["#if 0", "/*", "#endif"], 1, false).0.stack == []
    ensures ReferenceSeen(env, Machine([], w), ["#if 0", "/*", "#endif"], 1, false).0.stack == [0]
  {
    hide Reference, ReferenceSeen, Step, Ruled, Classify, StartsHash, EndsInComment;
    var s: Machine<Sound> := Machine([], w);
    var lines := ["#if 0", "/*", "#endif"];
    assert lines[1..] == ["/*", "#endif"];
    IfIs();
    IfSteps(env, w);
    DirectiveNext(env, s, lines, 1);
    AfterIf(env, w);
  }

  lemma AfterIf(env: Env, w: Sound)
    ensures Reference(env, Machine([0], w), ["/*", "#endif"], 2, false).0 == Machine([], w)
    ensures ReferenceSeen(env, Machine([0], w), ["/*", "#endif"], 2, false).0 == Machine([0], w)
  {
    hide Reference, ReferenceSeen, Step, Ruled, Classify, StartsHash, EndsInComment, Dead;
    var dead: Machine<Sound> := Machine([0], w);
    var lines := ["/*", "#endif"];
    assert lines[1..] == ["#endif"];
    OpenIs();
    ZeroIsDead();
    DeadNext(env, dead, lines, 2, false);
    AtEndif(env, w);
  }

  lemma AtEndif(env: Env, w: Sound)
    ensures Reference(env, Machine([0], w), ["#endif"], 3, false).0 == Machine([], w)
    ensures ReferenceSeen(env, Machine([0], w), ["#endif"], 3, true).0 == Machine([0], w)
  {
    hide Reference, ReferenceSeen, Step, Ruled, Classify, StartsHash, EndsInComment, Dead, ParenDepth;
    var dead: Machine<Sound> := Machine([0], w);
    var lines := ["#endif"];
    assert lines[1..] == [];
    EndifIs();
    EndifSteps(env, w);
    ZeroIsDead();
    DirectiveNext(env, dead, lines, 3);
    DeadNext(env, dead, lines, 3, true);
    NoMore(env, Machine([], w), 4, false);
    NoMore(env, dead, 4, ParenDepth("#endif", 0, 0, true).1);
  }

  /** A directive complete on its line. */
  lemma DirectiveNext(env: Env, s: Machine<Sound>, lines: seq<string>, line: nat)
    requires lines != [] && StartsHash(lines[0]) && !EndsInComment(lines[0])
    ensures var s1 := Step(Ruled(env), s, Classify(lines[0], line)).0;
      && Reference(env, s, lines, line, false).0 == Reference(env, s1, lines[1..], line + 1, false).0
      && ReferenceSeen(env, s, lines, line, false).0 == ReferenceSeen(env, s1, lines[1..], line + 1, false).0
  {
    hide Step, Ruled, Classify, StartsHash, EndsInComment, Took, Reference, ReferenceSeen, Blanks;
    ReferenceOnce(env, s, lines, line, false);
    SeenOnce(env, s, lines, line, false);
    assert Next(s.stack, lines, line, false) == (Classify(lines[0], line), 0, false, lines[1..]);
  }

  lemma DeadNext(env: Env, s: Machine<Sound>, lines: seq<string>, line: nat, inComment: bool)
    requires lines != [] && Skipped(s.stack, lines, inComment)
    ensures Reference(env, s, lines, line, inComment).0 == Reference(env, s, lines[1..], line + 1, inComment).0
    ensures ReferenceSeen(env, s, lines, line, inComment).0 ==
      ReferenceSeen(env, s, lines[1..], line + 1, ParenDepth(lines[0], 0, 0, inComment).1).0
  {
    hide Step, Ruled, StartsHash, ParenDepth, Took, Reference, ReferenceSeen, Blanks;
    ReferenceOnce(env, s, lines, line, inComment);
    SeenOnce(env, s, lines, line, inComment);
    NextIsDead(env, s, lines, line, inComment);
  }

  lemma NoMore(env: Env, s: Machine<Sound>, line: nat, inComment: bool)
    ensures Reference(env, s, [], line, inComment) == (s, []) && ReferenceSeen(env, s, [], line, inComment) == (s, [])
  {}

  lemma ZeroIsDead()
    ensures Dead([0]) && !Dead([])
  {
    assert [0][0] != 1;
  }

  lemma WordIs(text: string, word: string, tail: string)
    requires text == ['#'] + (word + tail) && IsName(word) && (tail == "" || !IsIdentCont(tail[0]))
    ensures StartsHash(text) && WordOf(text) == (Some(word), DropSpaces(tail))
  {
    hide SpanIdent, DropSpaces;
    NoSpaces(text);
    SpanNameBlank(word, tail);
    NoSpaces(word + tail);
    assert text[1..] == word + tail;
  }

  lemma IfIs()
    ensures StartsHash("#if 0") && !EndsInComment("#if 0") && Classify("#if 0", 1) == If(Cond(1, "if", "0"))
  {
    hide EndsInComment, StartsHash, Classify;
    IfEnds();
    IfWord();
    ClassifiedIf("#if 0", 1, "0");
  }

  lemma ClassifiedIf(text: string, line: nat, rest: string)
    requires WordOf(text) == (Some("if"), rest)
    ensures Classify(text, line) == If(Cond(line, "if", rest))
  {
    hide WordOf;
    assert "if"[0] != "endif"[0] && "if"[0] != "else"[0];
    assert |"if"| == 2 && |"elif"| == 4;
  }

  lemma IfWord()
    ensures StartsHash("#if 0") && WordOf("#if 0") == (Some("if"), "0")
  {
    hide StartsHash, WordOf, IsName;
    assert "#if 0" == ['#'] + ("if" + " 0");
    NamesOfConditionals();
    WordIs("#if 0", "if", " 0");
    assert DropSpaces(" 0") == "0" by { assert " 0"[1..] == "0"; }
  }

  lemma IfEnds()
    ensures !EndsInComment("#if 0")
  {
    hide EndsInComment;
    assert ['#'] + (['i'] + (['f'] + ([' '] + (['0'] + "")))) == "#if 0";
    EmptyEnds();
    EndsStep('0', "");
    EndsStep(' ', ['0'] + "");
    EndsStep('f', [' '] + (['0'] + ""));
    EndsStep('i', ['f'] + ([' '] + (['0'] + "")));
    EndsStep('#', ['i'] + (['f'] + ([' '] + (['0'] + ""))));
  }

  lemma NamesOfConditionals()
    ensures IsName("if") && IsName("endif")
  {
    hide SpanIdent;
    SpanNameBlank("if", "");
    SpanNameBlank("endif", "");
    assert "if" + "" == "if" && "endif" + "" == "endif";
  }

  lemma EndifIs()
    ensures StartsHash("#endif") && !EndsInComment("#endif") && Classify("#endif", 3) == Endif(Cond(3, "endif", ""))
  {
    hide EndsInComment, StartsHash, WordOf, IsName;
    var r := ['f'] + "";
    assert "#endif" == ['#'] + ("endif" + "") && ['#'] + (['e'] + (['n'] + (['d'] + (['i'] + r)))) == "#endif";
    NamesOfConditionals();
    WordIs("#endif", "endif", "");
    EmptyEnds();
    EndsStep('f', "");
    EndsStep('i', r);
    EndsStep('d', ['i'] + r);
    EndsStep('n', ['d'] + (['i'] + r));
    EndsStep('e', ['n'] + (['d'] + (['i'] + r)));
    EndsStep('#', ['e'] + (['n'] + (['d'] + (['i'] + r))));
  }

  lemma OpenIs()
    ensures !StartsHash("/*") && ParenDepth("/*", 0, 0, false).1
  {}

  lemma IfSteps(env: Env, w: Sound)
    requires !env.holds(w.table, 1, "0")
    ensures Step(Ruled(env), Machine([], w), If(Cond(1, "if", "0"))).0 == Machine([0], w)
  {
    ZeroIsDead();
    assert [0] + [] == [0];
  }

  lemma EndifSteps(env: Env, w: Sound)
    ensures Step(Ruled(env), Machine([0], w), Endif(Cond(3, "endif", ""))).0 == Machine([], w)
  {
    assert [0][1..] == [];
  }
}
