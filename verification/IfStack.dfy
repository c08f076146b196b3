/** The conditional stack of src/C99/Preprocess.hs and the nested groups it stands for. */
module IfStack {
  // ---- the stack: innermost first, 0 dead so far, 1 taking, 2 taken before ----

  predicate Dead(stack: seq<int>) { exists i :: 0 <= i < |stack| && stack[i] != 1 }

  /** A conditional opened in dead code can never become live. */
  function Opened(stack: seq<int>, holds: bool): seq<int> {
    [if Dead(stack) then 2 else if holds then 1 else 0] + stack
  }

  function ElseTop(t: int): int { if t == 1 then 2 else if t == 0 then 1 else t }

  function ElifTop(t: int, holds: bool): int { if t == 1 then 2 else if t == 0 then (if holds then 1 else 0) else t }

  lemma DeadCons(t: int, stack: seq<int>)
    ensures Dead([t] + stack) <==> t != 1 || Dead(stack)
  {
    if t != 1 {
      assert ([t] + stack)[0] != 1;
    } else if Dead(stack) {
      var i :| 0 <= i < |stack| && stack[i] != 1;
      assert ([t] + stack)[i + 1] != 1;
    }
  }

  // ---- runs of directives and other lines ----

  /** A line: one that acts on the state m when it is live, or a conditional directive with its condition. */
  datatype Event<A, C> = Act(a: A) | If(c: C) | Elif(c: C) | Else(c: C) | Endif(c: C)

  /**
   * What lines do: a live one changes the state and says something, a dead one says something else, and a
   * conditional directive outside every conditional is an orphan.
   */
  datatype Rules<!M, !A, !C, O> = Rules(live: (M, A) -> (M, O), dead: A -> O, note: O, holds: (M, C) -> bool,
    orphan: (M, C) -> M)

  datatype Machine<+M> = Machine(stack: seq<int>, m: M)

  function OrTop<M, A, C, O>(k: Rules<M, A, C, O>, s: Machine<M>, c: C, t: int): Machine<M> {
    if s.stack == [] then s.(m := k.orphan(s.m, c)) else s.(stack := [t] + s.stack[1..])
  }

  /** One line. */
  function Step<M, A, C, O>(k: Rules<M, A, C, O>, s: Machine<M>, e: Event<A, C>): (Machine<M>, O) {
    match e
    case Act(a) => if Dead(s.stack) then (s, k.dead(a)) else var (m, o) := k.live(s.m, a); (s.(m := m), o)
    case If(c) => (s.(stack := Opened(s.stack, k.holds(s.m, c))), k.note)
    case Elif(c) => (OrTop(k, s, c, if s.stack == [] then 0 else ElifTop(s.stack[0], k.holds(s.m, c))), k.note)
    case Else(c) => (OrTop(k, s, c, if s.stack == [] then 0 else ElseTop(s.stack[0])), k.note)
    case Endif(c) =>
      (if s.stack == [] then s.(m := k.orphan(s.m, c)) else s.(stack := s.stack[1..]), k.note)
  }

  function Run<M, A, C, O>(k: Rules<M, A, C, O>, s: Machine<M>, es: seq<Event<A, C>>): (Machine<M>, seq<O>)
    decreases |es|
  {
    if es == [] then (s, [])
    else var (s1, o) := Step(k, s, es[0]); var (s2, os) := Run(k, s1, es[1..]); (s2, [o] + os)
  }

  lemma {:induction false} RunSplit<M, A, C, O>(k: Rules<M, A, C, O>, s: Machine<M>, a: seq<Event<A, C>>,
      b: seq<Event<A, C>>)
    ensures Run(k, s, a + b) ==
      (Run(k, Run(k, s, a).0, b).0, Run(k, s, a).1 + Run(k, Run(k, s, a).0, b).1)
    decreases |a|
  {
    if a == [] {
      assert a + b == b;
      assert [] + Run(k, s, b).1 == Run(k, s, b).1;
    } else {
      assert (a + b)[1..] == a[1..] + b;
      var (s1, o) := Step(k, s, a[0]);
      RunSplit(k, s1, a[1..], b);
      var x, y := Run(k, s1, a[1..]).1, Run(k, Run(k, s, a).0, b).1;
      assert [o] + (x + y) == [o] + x + y;
    }
  }

  // ---- the groups of section 6.10.1 of ISO/IEC 9899:1999 ----

  /** A group: lines and nested conditionals. Arms may come in any order, as the program accepts them. */
  datatype Group<A, C> =
    | Empty
    | Line(a: A, rest: Group<A, C>)
    | Nested(c: C, body: Group<A, C>, arms: Arms<A, C>, rest: Group<A, C>)
  datatype Arms<A, C> =
    | Close(c: C)
    | ElifArm(c: C, body: Group<A, C>, more: Arms<A, C>)
    | ElseArm(c: C, body: Group<A, C>, more: Arms<A, C>)

  function Flat<A, C>(g: Group<A, C>): seq<Event<A, C>> {
    match g
    case Empty => []
    case Line(a, rest) => [Act(a)] + Flat(rest)
    case Nested(c, body, arms, rest) => [If(c)] + Flat(body) + FlatArms(arms) + Flat(rest)
  }

  function FlatArms<A, C>(arms: Arms<A, C>): seq<Event<A, C>> {
    match arms
    case Close(c) => [Endif(c)]
    case ElifArm(c, body, more) => [Elif(c)] + Flat(body) + FlatArms(more)
    case ElseArm(c, body, more) => [Else(c)] + Flat(body) + FlatArms(more)
  }

  /** What skipped lines say. */
  function Skipped<M, A, C, O>(k: Rules<M, A, C, O>, g: Group<A, C>): seq<O> {
    match g
    case Empty => []
    case Line(a, rest) => [k.dead(a)] + Skipped(k, rest)
    case Nested(c, body, arms, rest) => [k.note] + Skipped(k, body) + SkippedArms(k, arms) + Skipped(k, rest)
  }

  function SkippedArms<M, A, C, O>(k: Rules<M, A, C, O>, arms: Arms<A, C>): seq<O> {
    match arms
    case Close(c) => [k.note]
    case ElifArm(c, body, more) => [k.note] + Skipped(k, body) + SkippedArms(k, more)
    case ElseArm(c, body, more) => [k.note] + Skipped(k, body) + SkippedArms(k, more)
  }

  /** The meaning of a live group: its lines in order, and of each conditional the first arm that is chosen. */
  function Meaning<M, A, C, O>(k: Rules<M, A, C, O>, m: M, g: Group<A, C>): (M, seq<O>) {
    match g
    case Empty => (m, [])
    case Line(a, rest) =>
      var (m1, o) := k.live(m, a); var (m2, os) := Meaning(k, m1, rest); (m2, [o] + os)
    case Nested(c, body, arms, rest) =>
      var (m1, os1) :=
        if k.holds(m, c) then var (m1, os) := Meaning(k, m, body); (m1, os + SkippedArms(k, arms))
        else var (m1, os) := Choose(k, m, arms); (m1, Skipped(k, body) + os);
      var (m2, os2) := Meaning(k, m1, rest);
      (m2, [k.note] + os1 + os2)
  }

  /** The first #elif whose condition holds, or the first #else, and no arm after it. */
  function Choose<M, A, C, O>(k: Rules<M, A, C, O>, m: M, arms: Arms<A, C>): (M, seq<O>) {
    match arms
    case Close(c) => (m, [k.note])
    case ElifArm(c, body, more) =>
      if k.holds(m, c) then var (m1, os) := Meaning(k, m, body); (m1, [k.note] + os + SkippedArms(k, more))
      else var (m1, os) := Choose(k, m, more); (m1, [k.note] + Skipped(k, body) + os)
    case ElseArm(c, body, more) =>
      var (m1, os) := Meaning(k, m, body); (m1, [k.note] + os + SkippedArms(k, more))
  }

  // ---- the stack machine computes that meaning ----

  /** Running a line and then others. */
  lemma RunCons<M, A, C, O>(k: Rules<M, A, C, O>, s: Machine<M>, e: Event<A, C>, es: seq<Event<A, C>>)
    ensures Run(k, s, [e] + es) ==
      (Run(k, Step(k, s, e).0, es).0, [Step(k, s, e).1] + Run(k, Step(k, s, e).0, es).1)
  {
    assert ([e] + es)[1..] == es;
  }

  lemma RunNone<M, A, C, O>(k: Rules<M, A, C, O>, s: Machine<M>)
    ensures Run(k, s, []) == (s, [])
  {}

  /** A nested conditional: its #if, its body, its arms, and what follows. */
  lemma NestedRuns<M, A, C, O>(k: Rules<M, A, C, O>, s: Machine<M>, c: C, body: Group<A, C>, arms: Arms<A, C>,
      rest: Group<A, C>)
    ensures
      var s0 := Step(k, s, If(c)).0;
      var (s1, o1) := Run(k, s0, Flat(body));
      var (s2, o2) := Run(k, s1, FlatArms(arms));
      var (s3, o3) := Run(k, s2, Flat(rest));
      Run(k, s, Flat(Nested(c, body, arms, rest))) == (s3, [k.note] + (o1 + o2) + o3)
  {
    hide Run, Dead;
    var f, a, r := Flat(body), FlatArms(arms), Flat(rest);
    assert [If(c)] + f + a + r == [If(c)] + (f + (a + r));
    RunCons(k, s, If(c), f + (a + r));
    var s0 := Step(k, s, If(c)).0;
    RunSplit(k, s0, f, a + r);
    var (s1, o1) := Run(k, s0, f);
    RunSplit(k, s1, a, r);
    var (s2, o2) := Run(k, s1, a);
    var o3 := Run(k, s2, r).1;
    assert [k.note] + (o1 + (o2 + o3)) == [k.note] + (o1 + o2) + o3;
  }

  /** One arm: its directive, its body, the arms after it. */
  lemma ArmRuns<M, A, C, O>(k: Rules<M, A, C, O>, s: Machine<M>, e: Event<A, C>, body: Group<A, C>, more: Arms<A, C>)
    ensures
      var (s0, o0) := Step(k, s, e);
      var (s1, o1) := Run(k, s0, Flat(body));
      var (s2, o2) := Run(k, s1, FlatArms(more));
      Run(k, s, [e] + Flat(body) + FlatArms(more)) == (s2, [o0] + o1 + o2)
  {
    hide Run, Dead;
    var f, a := Flat(body), FlatArms(more);
    assert [e] + f + a == [e] + (f + a);
    RunCons(k, s, e, f + a);
    var (s0, o0) := Step(k, s, e);
    RunSplit(k, s0, f, a);
    var (s1, o1) := Run(k, s0, f);
    var o2 := Run(k, s1, a).1;
    assert [o0] + (o1 + o2) == [o0] + o1 + o2;
  }

  lemma DeadIf<M, A, C, O>(k: Rules<M, A, C, O>, s: Machine<M>, c: C)
    requires Dead(s.stack)
    ensures Step(k, s, If(c)) == (s.(stack := [2] + s.stack), k.note) && Dead([2] + s.stack)
  {
    DeadCons(2, s.stack);
  }

  /** In dead code nothing acts, whatever is nested there. */
  lemma {:induction false} DeadGroup<M, A, C, O>(k: Rules<M, A, C, O>, s: Machine<M>, g: Group<A, C>)
    requires Dead(s.stack)
    ensures Run(k, s, Flat(g)) == (s, Skipped(k, g))
    decreases g
  {
    hide Run, Dead;
    match g
    case Empty => RunNone(k, s);
    case Line(a, rest) =>
      RunCons(k, s, Act(a), Flat(rest));
      DeadGroup(k, s, rest);
    case Nested(c, body, arms, rest) =>
      hide Flat, Step;
      DeadIf(k, s, c);
      NestedRuns(k, s, c, body, arms, rest);
      DeadGroup(k, s.(stack := [2] + s.stack), body);
      TakenArms(k, 2, s, arms);
      DeadGroup(k, s, rest);
      var x, y, z := Skipped(k, body), SkippedArms(k, arms), Skipped(k, rest);
      assert [k.note] + (x + y) + z == [k.note] + x + y + z;
  }

  /** Once an arm has been taken no later one is. */
  lemma {:induction false} TakenArms<M, A, C, O>(k: Rules<M, A, C, O>, t: int, s: Machine<M>, arms: Arms<A, C>)
    requires t == 1 || t == 2
    ensures Run(k, s.(stack := [t] + s.stack), FlatArms(arms)) == (s, SkippedArms(k, arms))
    decreases arms
  {
    hide Run, Dead;
    var at := s.(stack := [t] + s.stack);
    var next := s.(stack := [2] + s.stack);
    assert at.stack[1..] == s.stack;
    DeadCons(2, s.stack);
    match arms
    case Close(c) =>
      RunCons(k, at, Endif(c), []);
      RunNone(k, s);
      assert [Event<A, C>.Endif(c)] + [] == FlatArms(arms);
      assert [k.note] + [] == SkippedArms(k, arms);
    case ElifArm(c, body, more) =>
      ArmRuns(k, at, Elif(c), body, more);
      DeadGroup(k, next, body);
      TakenArms(k, 2, s, more);
    case ElseArm(c, body, more) =>
      ArmRuns(k, at, Else(c), body, more);
      DeadGroup(k, next, body);
      TakenArms(k, 2, s, more);
  }

  /** While none has been taken the next that applies is. */
  lemma {:induction false} ArmsChoose<M, A, C, O>(k: Rules<M, A, C, O>, s: Machine<M>, arms: Arms<A, C>)
    requires !Dead(s.stack)
    ensures Run(k, s.(stack := [0] + s.stack), FlatArms(arms)) ==
      (s.(m := Choose(k, s.m, arms).0), Choose(k, s.m, arms).1)
    decreases arms
  {
    hide Run, Dead;
    var at := s.(stack := [0] + s.stack);
    var taking := s.(stack := [1] + s.stack);
    assert at.stack[1..] == s.stack;
    DeadCons(0, s.stack);
    DeadCons(1, s.stack);
    match arms
    case Close(c) =>
      RunCons(k, at, Endif(c), []);
      RunNone(k, s);
      assert [Event<A, C>.Endif(c)] + [] == FlatArms(arms);
      assert [k.note] + [] == SkippedArms(k, arms);
    case ElifArm(c, body, more) =>
      ArmRuns(k, at, Elif(c), body, more);
      if k.holds(s.m, c) {
        GroupRuns(k, taking, body);
        TakenArms(k, 1, s.(m := Meaning(k, s.m, body).0), more);
      } else {
        DeadGroup(k, at, body);
        ArmsChoose(k, s, more);
      }
    case ElseArm(c, body, more) =>
      ArmRuns(k, at, Else(c), body, more);
      GroupRuns(k, taking, body);
      TakenArms(k, 1, s.(m := Meaning(k, s.m, body).0), more);
  }

  /** Over every well-nested run of lines the machine does what the groups mean, and its stack comes back. */
  lemma {:induction false} GroupRuns<M, A, C, O>(k: Rules<M, A, C, O>, s: Machine<M>, g: Group<A, C>)
    requires !Dead(s.stack)
    ensures Run(k, s, Flat(g)) == (s.(m := Meaning(k, s.m, g).0), Meaning(k, s.m, g).1)
    decreases g
  {
    hide Run, Dead;
    match g
    case Empty => RunNone(k, s);
    case Line(a, rest) =>
      RunCons(k, s, Act(a), Flat(rest));
      GroupRuns(k, s.(m := k.live(s.m, a).0), rest);
    case Nested(c, body, arms, rest) =>
      NestedRuns(k, s, c, body, arms, rest);
      DeadCons(0, s.stack);
      DeadCons(1, s.stack);
      if k.holds(s.m, c) {
        var s1 := s.(m := Meaning(k, s.m, body).0);
        GroupRuns(k, s.(stack := [1] + s.stack), body);
        TakenArms(k, 1, s1, arms);
        GroupRuns(k, s1, rest);
      } else {
        DeadGroup(k, s.(stack := [0] + s.stack), body);
        ArmsChoose(k, s, arms);
        GroupRuns(k, s.(m := Choose(k, s.m, arms).0), rest);
      }
  }
}
