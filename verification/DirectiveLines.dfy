/** Directives as they are spelled, in src/C99/Preprocess.hs: which lines they let through and what they make of the table. */
module DirectiveLines {
  import opened Options
  import opened MacroText
  import opened Macros
  import opened ExpandProof
  import opened IfStack
  import opened Lines
  import opened PreprocessorState
  import opened Substitution
  import Painting

  /** A directive's line, with blanks wherever they are allowed. */
  datatype Spacing = Spacing(first: string, second: string, third: string)

  predicate Blanked(b: Spacing) { Blank(b.first) && Blank(b.second) && Blank(b.third) }

  function DirectiveText(b: Spacing, word: string, rest: string): string {
    b.first + ("#" + (b.second + (word + (b.third + rest))))
  }

  /** The word ends before the rest, and the rest begins with no blank. */
  predicate Divided(b: Spacing, rest: string) { Ends(b.third + rest) && (rest == "" || !IsSpaceTab(rest[0])) }

  lemma WordRead(b: Spacing, word: string, rest: string)
    requires Blanked(b) && IsIdent(word) && Divided(b, rest)
    ensures StartsHash(DirectiveText(b, word, rest)) && WordOf(DirectiveText(b, word, rest)) == (Some(word), rest)
  {
    hide DropSpaces;
    var tail := b.third + rest;
    var hash := "#" + (b.second + (word + tail));
    BlankDropped(b.first, hash);
    assert hash[1..] == b.second + (word + tail);
    assert (word + tail)[0] == word[0];
    BlankDropped(b.second, word + tail);
    Painting.SpanNameBlank(word, tail);
    BlankDropped(b.third, rest);
  }

  // ---- #ifdef, #ifndef, #else ----

  /** Lines of text as a group. */
  function LinesOf(texts: seq<string>, line: nat): Group<Plain, Cond>
    decreases |texts|
  {
    if texts == [] then Empty else Line(Text(line, texts[0], false), LinesOf(texts[1..], line + 1))
  }

  /** Each text expanded by itself. */
  function Expanded(env: Env, t: Table, texts: seq<string>, line: nat): seq<string>
    requires t.WellKeyed()
    decreases |texts|
  {
    if texts == [] then []
    else [Expand({}, t, Place(env.file, line), texts[0], false)] + Expanded(env, t, texts[1..], line + 1)
  }

  predicate NoDirective(texts: seq<string>) { forall i :: 0 <= i < |texts| ==> !StartsHash(texts[i]) }

  lemma {:induction false} TextEvents(texts: seq<string>, line: nat)
    requires NoDirective(texts)
    ensures EventsOf(texts, line) == Flat(LinesOf(texts, line))
    decreases |texts|
  {
    if texts != [] { TextEvents(texts[1..], line + 1); }
  }

  lemma {:induction false} TextMeaning(env: Env, w: Sound, texts: seq<string>, line: nat)
    ensures Meaning(Ruled(env), w, LinesOf(texts, line)) == (w, Expanded(env, w.table, texts, line))
    ensures Skipped(Ruled(env), LinesOf(texts, line)) == Blanks(|texts|)
    decreases |texts|
  {
    hide Expand;
    if texts != [] { TextMeaning(env, w, texts[1..], line + 1); }
  }

  lemma {:induction false} EventsConcat(a: seq<string>, b: seq<string>, line: nat)
    ensures EventsOf(a + b, line) == EventsOf(a, line) + EventsOf(b, line + |a|)
    decreases |a|
  {
    hide EventOf;
    if a == [] {
      assert a + b == b;
    } else {
      assert (a + b)[1..] == a[1..] + b;
      EventsConcat(a[1..], b, line + 1);
    }
  }

  lemma OneEvent(s: string, line: nat)
    ensures EventsOf([s], line) == [EventOf(s, line)]
  {}

  /** A directive of each of these words. */
  lemma CondEvent(b: Spacing, word: string, rest: string, line: nat)
    requires Blanked(b) && Divided(b, rest)
    requires word == "ifdef" || word == "ifndef" || word == "else" || word == "endif"
    ensures EventOf(DirectiveText(b, word, rest), line) ==
      if word == "else" then Else(Cond(line, word, rest))
      else if word == "endif" then Endif(Cond(line, word, rest))
      else If(Cond(line, word, rest))
  {
    hide WordOf, StartsHash, DirectiveText;
    WordsApart();
    assert IsIdent(word) by { WordsAreIdents(word); }
    WordRead(b, word, rest);
  }

  lemma WordsApart()
    ensures "ifdef" != "endif" && "ifndef" != "endif" && "else" != "endif" && "ifdef" != "else" && "ifndef" != "else"
    ensures "ifdef" != "elif" && "ifndef" != "elif" && "ifdef" != "if" && "ifndef" != "if" && "ifdef" != "ifndef"
  {
    assert "ifdef"[0] == 'i' && "ifndef"[0] == 'i' && "else"[0] == 'e' && "endif"[0] == 'e' && "elif"[0] == 'e';
    assert |"ifdef"| == 5 && |"ifndef"| == 6 && |"else"| == 4 && |"endif"| == 5 && |"if"| == 2;
  }

  lemma WordsAreIdents(word: string)
    requires word in ["ifdef", "ifndef", "else", "endif", "define", "undef", "error"]
    ensures IsIdent(word)
  {
    assert forall i :: 0 <= i < |word| ==> 'a' <= word[i] <= 'z';
  }

  /** One conditional on whether x is defined, with an #else: the lines of exactly one of its arms come out expanded, and the
      other's blank. The first arm's do when x is a key of the table, with #ifdef, and when it is none, with #ifndef. */
  lemma DefinedDecides(env: Env, w: Sound, b: seq<Spacing>, word: string, x: string, tail: string, rest: seq<string>,
      texts: seq<string>, others: seq<string>)
    requires |b| == 3 && Blanked(b[0]) && Blanked(b[1]) && Blanked(b[2]) && |rest| == 2
    requires (word == "ifdef" || word == "ifndef") && IsIdent(x) && Ends(tail) && Divided(b[0], x + tail)
    requires Divided(b[1], rest[0]) && Divided(b[2], rest[1]) && NoDirective(texts) && NoDirective(others)
    requires forall l :: l in GroupLines(b, word, x + tail, rest, texts, others) ==> Single(l)
    ensures
      var first := (x in w.table.user.Keys + w.table.pre.Keys) == (word == "ifdef");
      var a, z := Expanded(env, w.table, texts, 2), Expanded(env, w.table, others, 3 + |texts|);
      Reference(env, Machine([], w), GroupLines(b, word, x + tail, rest, texts, others), 1, false) ==
        (Machine([], w),
          [""] + (if first then a else Blanks(|texts|)) + [""] + (if first then Blanks(|others|) else z) + [""])
  {
    hide Expand, Reference, Single, EventOf, Flat, FlatArms, Meaning, Choose, Skipped, SkippedArms;
    var lines := GroupLines(b, word, x + tail, rest, texts, others);
    var n := |texts|;
    var c0, c1, c2 := Cond(1, word, x + tail), Cond(2 + n, "else", rest[0]), Cond(3 + n + |others|, "endif", rest[1]);
    var arms := ElseArm(c1, LinesOf(others, 3 + n), Close(c2));
    var g := Nested(c0, LinesOf(texts, 2), arms, Empty);
    GroupEvents(b, word, x + tail, rest, texts, others);
    NestedLinesMean(env, w, lines, g);
    GroupMeans(env, w, x, tail, c0, c1, c2, texts, others);
  }

  function GroupLines(b: seq<Spacing>, word: string, cond: string, rest: seq<string>, texts: seq<string>, others: seq<string>)
    : seq<string>
    requires |b| == 3 && |rest| == 2
  {
    [DirectiveText(b[0], word, cond)] + (texts + ([DirectiveText(b[1], "else", rest[0])] +
      (others + [DirectiveText(b[2], "endif", rest[1])])))
  }

  lemma GroupEvents(b: seq<Spacing>, word: string, cond: string, rest: seq<string>, texts: seq<string>, others: seq<string>)
    requires |b| == 3 && Blanked(b[0]) && Blanked(b[1]) && Blanked(b[2]) && |rest| == 2
    requires (word == "ifdef" || word == "ifndef") && Divided(b[0], cond)
    requires Divided(b[1], rest[0]) && Divided(b[2], rest[1]) && NoDirective(texts) && NoDirective(others)
    ensures
      var n := |texts|;
      var c0, c1, c2 := Cond(1, word, cond), Cond(2 + n, "else", rest[0]), Cond(3 + n + |others|, "endif", rest[1]);
      EventsOf(GroupLines(b, word, cond, rest, texts, others), 1) ==
        Flat(Nested(c0, LinesOf(texts, 2), ElseArm(c1, LinesOf(others, 3 + n), Close(c2)), Empty))
  {
    hide *;
    var n := |texts|;
    var c0, c1, c2 := Cond(1, word, cond), Cond(2 + n, "else", rest[0]), Cond(3 + n + |others|, "endif", rest[1]);
    var d0, d1, d2 := DirectiveText(b[0], word, cond), DirectiveText(b[1], "else", rest[0]), DirectiveText(b[2], "endif", rest[1]);
    LinesAre(b, word, cond, rest, texts, others);
    CondEvents(b, word, cond, rest, n, |others|);
    TextEvents(texts, 2);
    TextEvents(others, 3 + n);
    OneEvent(d2, 3 + n + |others|);
    FrontEvents(d1, others, [d2], 2 + n, [Endif(c2)]);
    FrontEvents(d0, texts, [d1] + (others + [d2]), 1, [Else(c1)] + (EventsOf(others, 3 + n) + [Endif(c2)]));
    FlatElse(c0, c1, c2, LinesOf(texts, 2), LinesOf(others, 3 + n));
  }

  lemma LinesAre(b: seq<Spacing>, word: string, cond: string, rest: seq<string>, texts: seq<string>, others: seq<string>)
    requires |b| == 3 && |rest| == 2
    ensures GroupLines(b, word, cond, rest, texts, others) ==
      [DirectiveText(b[0], word, cond)] + (texts + ([DirectiveText(b[1], "else", rest[0])] +
        (others + [DirectiveText(b[2], "endif", rest[1])])))
  {
  }

  lemma CondEvents(b: seq<Spacing>, word: string, cond: string, rest: seq<string>, n: nat, o: nat)
    requires |b| == 3 && Blanked(b[0]) && Blanked(b[1]) && Blanked(b[2]) && |rest| == 2
    requires (word == "ifdef" || word == "ifndef") && Divided(b[0], cond) && Divided(b[1], rest[0]) && Divided(b[2], rest[1])
    ensures EventOf(DirectiveText(b[0], word, cond), 1) == If(Cond(1, word, cond))
    ensures EventOf(DirectiveText(b[1], "else", rest[0]), 2 + n) == Else(Cond(2 + n, "else", rest[0]))
    ensures EventOf(DirectiveText(b[2], "endif", rest[1]), 3 + n + o) == Endif(Cond(3 + n + o, "endif", rest[1]))
  {
    hide EventOf, DirectiveText, Blanked, Divided;
    WordsApart();
    CondEvent(b[0], word, cond, 1);
    CondEvent(b[1], "else", rest[0], 2 + n);
    CondEvent(b[2], "endif", rest[1], 3 + n + o);
  }

  lemma HeadEvent(d: string, ls: seq<string>, line: nat)
    ensures EventsOf([d] + ls, line) == [EventOf(d, line)] + EventsOf(ls, line + 1)
  {
    hide EventOf;
    assert ([d] + ls)[1..] == ls;
  }

  lemma FrontEvents(d: string, texts: seq<string>, rest: seq<string>, line: nat, es: seq<Event<Plain, Cond>>)
    requires es == EventsOf(rest, line + 1 + |texts|)
    ensures EventsOf([d] + (texts + rest), line) == [EventOf(d, line)] + (EventsOf(texts, line + 1) + es)
  {
    hide *;
    HeadEvent(d, texts + rest, line);
    EventsConcat(texts, rest, line + 1);
  }

  lemma FlatElse(c0: Cond, c1: Cond, c2: Cond, p: Group<Plain, Cond>, q: Group<Plain, Cond>)
    ensures Flat(Nested(c0, p, ElseArm(c1, q, Close(c2)), Empty)) ==
      [If(c0)] + (Flat(p) + ([Else(c1)] + (Flat(q) + [Endif(c2)])))
  {
    var arms: Arms<Plain, Cond> := ElseArm(c1, q, Close(c2));
    assert FlatArms(arms) == [Else(c1)] + Flat(q) + [Endif(c2)];
  }

  lemma GroupMeans(env: Env, w: Sound, x: string, tail: string, c0: Cond, c1: Cond, c2: Cond, texts: seq<string>,
      others: seq<string>)
    requires IsIdent(x) && Ends(tail) && c0 == Cond(1, c0.word, x + tail) && (c0.word == "ifdef" || c0.word == "ifndef")
    ensures
      var n := |texts|;
      var first := (x in w.table.user.Keys + w.table.pre.Keys) == (c0.word == "ifdef");
      var a, z := Expanded(env, w.table, texts, 2), Expanded(env, w.table, others, 3 + n);
      Meaning(Ruled(env), w, Nested(c0, LinesOf(texts, 2), ElseArm(c1, LinesOf(others, 3 + n), Close(c2)), Empty)) ==
        (w, [""] + (if first then a else Blanks(n)) + [""] + (if first then Blanks(|others|) else z) + [""])
  {
    hide Expand, Expanded, LinesOf, Acted, Ordered, Holds, Blanks;
    TextMeaning(env, w, texts, 2);
    TextMeaning(env, w, others, 3 + |texts|);
    HoldsWhenDefined(env, w, c0, x, tail);
    ElseMeans(Ruled(env), w, c0, c1, c2, LinesOf(texts, 2), LinesOf(others, 3 + |texts|));
  }

  lemma HoldsWhenDefined(env: Env, w: Sound, c: Cond, x: string, tail: string)
    requires IsIdent(x) && Ends(tail) && c.rest == x + tail && (c.word == "ifdef" || c.word == "ifndef")
    ensures Ruled(env).holds(w, c) == ((x in w.table.user.Keys + w.table.pre.Keys) == (c.word == "ifdef"))
  {
    hide Acted, Ordered, SpanIdent;
    Painting.SpanNameBlank(x, tail);
    assert (x + tail)[0] == x[0];
    WordsApart();
  }

  /** Two arms: the first when the condition holds, otherwise the second. */
  lemma ElseMeans<M, A, C, O>(k: Rules<M, A, C, O>, m: M, c0: C, c1: C, c2: C, p: Group<A, C>, q: Group<A, C>)
    ensures Meaning(k, m, Nested(c0, p, ElseArm(c1, q, Close(c2)), Empty)) ==
      if k.holds(m, c0) then
        var (m1, os) := Meaning(k, m, p); (m1, [k.note] + os + [k.note] + Skipped(k, q) + [k.note])
      else
        var (m1, os) := Meaning(k, m, q); (m1, [k.note] + Skipped(k, p) + [k.note] + os + [k.note])
  {
    var close: Arms<A, C> := Close(c2);
    var e: Group<A, C> := Empty;
    assert SkippedArms(k, close) == [k.note];
    var note, chosen := [k.note], if k.holds(m, c0) then Meaning(k, m, p) else Meaning(k, m, q);
    assert Meaning(k, chosen.0, e) == (chosen.0, []);
    if k.holds(m, c0) {
      assert SkippedArms(k, ElseArm(c1, q, close)) == note + Skipped(k, q) + note;
      AllFive(note, chosen.1, Skipped(k, q));
    } else {
      assert Choose(k, m, ElseArm(c1, q, close)) == (chosen.0, note + chosen.1 + note);
      AllFive(note, Skipped(k, p), chosen.1);
    }
  }

  lemma AllFive<O>(note: seq<O>, a: seq<O>, b: seq<O>)
    ensures note + (a + (note + b + note)) + [] == note + a + note + b + note
  {}

  // ---- #define, #undef, #error and the rest ----

  lemma OrderRuns(env: Env, w: Sound, b: Spacing, word: string, rest: string, line: nat)
    requires Blanked(b) && IsIdent(word) && Divided(b, rest) && Single(DirectiveText(b, word, rest))
    requires word !in ["if", "ifdef", "ifndef", "elif", "else", "endif"]
    ensures Reference(env, Machine([], w), [DirectiveText(b, word, rest)], line, false) ==
      (Machine([], Ordered(env, w, line, Some(word), rest)), [""])
  {
    hide Single, WordOf, StartsHash, DirectiveText, Ordered, Reference, Holds;
    var d := DirectiveText(b, word, rest);
    WordRead(b, word, rest);
    SingleLinesRun(env, Machine([], w), [d], line);
    OneEvent(d, line);
    assert EventOf(d, line) == Act(Order(line, Some(word), rest));
    OneOrder(env, w, Order(line, Some(word), rest));
  }

  lemma OneOrder(env: Env, w: Sound, a: Plain)
    requires a.Order?
    ensures Run(Ruled(env), Machine([], w), [Act(a)]) == (Machine([], Ordered(env, w, a.line, a.word, a.rest)), [""])
  {
    hide Ordered, Holds, Run;
    var s: Machine<Sound> := Machine([], w);
    var e: Event<Plain, Cond> := Act(a);
    RunCons(Ruled(env), s, e, []);
    RunNone(Ruled(env), Step(Ruled(env), s, e).0);
    assert [e] + [] == [e] && [""] + [] == [""];
  }

  /** After #define a name stands for what its line says, or the line is an error; every other name stands for what it did. */
  lemma DefineMeans(env: Env, w: Sound, b: Spacing, rest: string, line: nat)
    requires Blanked(b) && Divided(b, rest) && Single(DirectiveText(b, "define", rest))
    ensures
      var (s, out) := Reference(env, Machine([], w), [DirectiveText(b, "define", rest)], line, false);
      && out == [""] && s.stack == []
      && match env.parse(rest)
         case None => s.m.table == w.table && s.m.errors == w.errors + [line]
         case Some(m) =>
           s.m.errors == w.errors && (!m.predef ==>
             forall n :: s.m.table.Find(n) == if n == m.name then Some(m) else w.table.Find(n))
  {
    hide Reference, Single, DirectiveText;
    OrderWords();
    OrderRuns(env, w, b, "define", rest, line);
  }

  /** After #undef a name is what it was predefined as, or nothing. */
  lemma UndefMeans(env: Env, w: Sound, b: Spacing, x: string, tail: string, line: nat)
    requires Blanked(b) && IsIdent(x) && Ends(tail) && Divided(b, x + tail) && Single(DirectiveText(b, "undef", x + tail))
    ensures
      var (s, out) := Reference(env, Machine([], w), [DirectiveText(b, "undef", x + tail)], line, false);
      && out == [""] && s.stack == [] && s.m.errors == w.errors
      && forall n :: s.m.table.Find(n) ==
           if n != x then w.table.Find(n) else if x in w.table.pre then Some(w.table.pre[x]) else None
  {
    hide Reference, Single, DirectiveText, SpanIdent;
    OrderWords();
    OrderRuns(env, w, b, "undef", x + tail, line);
    Painting.SpanNameBlank(x, tail);
    assert (x + tail)[0] == x[0];
  }

  /** #error is an error; a word the program does not know does nothing. */
  lemma ErrorMeans(env: Env, w: Sound, b: Spacing, word: string, rest: string, line: nat)
    requires Blanked(b) && IsIdent(word) && Divided(b, rest) && Single(DirectiveText(b, word, rest))
    requires word !in ["if", "ifdef", "ifndef", "elif", "else", "endif", "define", "undef", "include", "line"]
    ensures Reference(env, Machine([], w), [DirectiveText(b, word, rest)], line, false) ==
      (Machine([], w.(errors := w.errors + if word == "error" then [line] else [])), [""])
  {
    hide Reference, Single, DirectiveText;
    OrderRuns(env, w, b, word, rest, line);
    assert w.errors + [] == w.errors;
  }

  lemma OrderWords()
    ensures IsIdent("define") && IsIdent("undef") && "undef" != "define"
    ensures "define" !in ["if", "ifdef", "ifndef", "elif", "else", "endif"]
    ensures "undef" !in ["if", "ifdef", "ifndef", "elif", "else", "endif"]
  {
    WordsAreIdents("define");
    WordsAreIdents("undef");
    assert "define"[0] == 'd' && "undef"[0] == 'u';
    assert forall s :: s in ["if", "ifdef", "ifndef", "elif", "else", "endif"] ==> s[0] == 'i' || s[0] == 'e';
  }
}
