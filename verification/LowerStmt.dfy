/** Emitted statement code follows the statement: every step of the C machine is a run of the code. */
module LowerStmt {
  import opened Options
  import opened CLang
  import opened IR
  import opened Lowering
  import opened LowerLabels
  import opened LowerExpr

  // ---- where the code of what is left stands ----

  /** For each thing left to do: where its loop stands, its first label, its counters, the context around. */
  datatype Places = End | Here(pos: nat, lab: nat, n: Ctr, x: Ctx, rest: Places)

  /** Where the body of a do loop ends. */
  function DoBody(b: Stmt, n: Ctr, x: Ctx): Code {
    CStmt(b, n.(lab := n.lab + 3), Enter(x, L(n.lab + 2), L(n.lab + 1))).0
  }

  /** A for loop up to the end of its body. */
  function LoopHead(c: Option<Expr>, b: Stmt, lab: nat, n: Ctr, x: Ctx): Code {
    var body, incL, end := L(lab + 1), L(lab + 2), L(lab + 3);
    var (cc, n1) := if c.Some? then CBool(c.value, body, end, n) else ([Jump(body)], n);
    [ILabel(L(lab))] + cc + [ILabel(body)] + CStmt(b, n1, Enter(x, end, incL)).0
  }

  /** From q on, inside context x, the code does k. */
  ghost predicate Follows(code: Code, k: Kont, w: Places, q: nat, x: Ctx, epi: Code)
    decreases k
  {
    match k
    case Stop => x == EMPTY && At(code, q, epi) && q + |epi| == |code|
    case KItems(items, k') =>
      && w.Here? && At(code, q, CItems(items, w.n, x).0)
      && Follows(code, k', w.rest, q + |CItems(items, w.n, x).0|, x, epi)
    case KWhile(c, b, k') =>
      && w.Here?
      && var m := CStmt(While(c, b), w.n, w.x).0;
         && At(code, w.pos, m) && q + 2 == w.pos + |m|
         && x == Enter(w.x, L(w.n.lab + 2), L(w.n.lab))
         && Follows(code, k', w.rest, w.pos + |m|, w.x, epi)
    case KDo(b, c, k') =>
      && w.Here?
      && var m := CStmt(Do(b, c), w.n, w.x).0;
         && At(code, w.pos, m) && q == w.pos + 1 + |DoBody(b, w.n, w.x)|
         && x == Enter(w.x, L(w.n.lab + 2), L(w.n.lab + 1))
         && Follows(code, k', w.rest, w.pos + |m|, w.x, epi)
    case KForTest(c, inc, b, k') =>
      && w.Here?
      && var m := CLoop(c, inc, b, w.lab, w.n, x).0;
         At(code, q, m) && Follows(code, k', w.rest, q + |m|, x, epi)
    case KForStep(c, inc, b, k') =>
      && w.Here?
      && var m := CLoop(c, inc, b, w.lab, w.n, w.x).0;
         && At(code, w.pos, m) && q == w.pos + |LoopHead(c, b, w.lab, w.n, w.x)|
         && x == Enter(w.x, L(w.lab + 3), L(w.lab + 2))
         && Follows(code, k', w.rest, w.pos + |m|, w.x, epi)
    case KSwitch(k') =>
      && w.Here? && q < |code| && code[q] == ILabel(L(w.lab))
      && x.loops == [(L(w.lab), ContOf(w.x))] + w.x.loops
      && Follows(code, k', w.rest, q + 1, w.x, epi)
    case KIf(k') =>
      && w.Here? && q < |code| && w.pos < |code| && code[w.pos] == ILabel(L(w.lab))
      && (q == w.pos || code[q] == Jump(L(w.lab)))
      && Follows(code, k', w.rest, w.pos + 1, x, epi)
  }

  /** What a function body leaves for its caller. */
  function ExitValue(exit: Exit, void: bool): Option<int> {
    match exit
    case Fell => if void then None else Some(0)
    case Returned(v) => v
  }

  /** The code stands where the configuration is. */
  ghost predicate Matches(code: Code, c: Config, s: State, n: Ctr, x: Ctx, w: Places, epi: Code, void: bool) {
    match c
    case Exec(st, k, store) =>
      && s.Running? && s.vars == store && At(code, s.pc, CStmt(st, n, x).0)
      && Follows(code, k, w, s.pc + |CStmt(st, n, x).0|, x, epi)
    case Next(k, store) => s.Running? && s.vars == store && Follows(code, k, w, s.pc, x, epi)
    case Done(exit, store) => s == Halted(ExitValue(exit, void), store)
    case Stuck => false
  }

  // ---- well-formed configurations ----

  /** Expressions without unsequenced conflicts, whichever operands run. */
  predicate Unconflicted(s: Stmt)
    decreases s
  {
    match s
    case ExprStmt(e) => NoConflict(e)
    case Decl(_, i) => UnconflictedMaybe(i)
    case Block(items) => UnconflictedItems(items)
    case If(c, a, b) => NoConflict(c) && Unconflicted(a) && (b.Some? ==> Unconflicted(b.value))
    case While(c, b) => NoConflict(c) && Unconflicted(b)
    case Do(b, c) => NoConflict(c) && Unconflicted(b)
    case For(i, c, n, b) => UnconflictedItems(i) && UnconflictedMaybe(c) && UnconflictedMaybe(n) && Unconflicted(b)
    case Return(e) => UnconflictedMaybe(e)
    case Switch(c, b) => NoConflict(c) && Unconflicted(b)
    case Case(_, b) => Unconflicted(b)
    case Default(b) => Unconflicted(b)
    case _ => true
  }

  predicate UnconflictedMaybe(e: Option<Expr>) { e.Some? ==> NoConflict(e.value) }

  predicate UnconflictedItems(items: Items)
    decreases items
  {
    match items
    case Nil => true
    case Cons(h, t) => Unconflicted(h) && UnconflictedItems(t)
  }

  /** The expressions of a statement. */
  function Exprs(s: Stmt): set<Expr>
    decreases s
  {
    match s
    case ExprStmt(e) => {e}
    case Decl(_, i) => Perhaps(i)
    case Block(items) => ItemExprs(items)
    case If(c, a, b) => {c} + Exprs(a) + if b.Some? then Exprs(b.value) else {}
    case While(c, b) => {c} + Exprs(b)
    case Do(b, c) => {c} + Exprs(b)
    case For(i, c, n, b) => ItemExprs(i) + Perhaps(c) + Perhaps(n) + Exprs(b)
    case Return(e) => Perhaps(e)
    case Switch(c, b) => {c} + Exprs(b)
    case Case(_, b) => Exprs(b)
    case Default(b) => Exprs(b)
    case _ => {}
  }

  function Perhaps(e: Option<Expr>): set<Expr> { if e.Some? then {e.value} else {} }

  function ItemExprs(items: Items): set<Expr>
    decreases items
  {
    match items
    case Nil => {}
    case Cons(h, t) => Exprs(h) + ItemExprs(t)
  }

  ghost predicate NoneConflicts(es: set<Expr>) { forall e :: e in es ==> NoConflict(e) }

  lemma NoneOfBoth(a: set<Expr>, b: set<Expr>)
    ensures NoneConflicts(a + b) <==> NoneConflicts(a) && NoneConflicts(b)
  {
    if NoneConflicts(a + b) {
      forall e | e in a
        ensures NoConflict(e)
      {
        assert e in a + b;
      }
      forall e | e in b
        ensures NoConflict(e)
      {
        assert e in a + b;
      }
    }
  }

  lemma NoneOfOne(e: Expr)
    ensures NoneConflicts({e}) <==> NoConflict(e)
  {
    assert e in {e};
  }

  lemma NoneOfPerhaps(e: Option<Expr>)
    ensures NoneConflicts(Perhaps(e)) <==> UnconflictedMaybe(e)
  {
    if e.Some? { NoneOfOne(e.value); }
  }

  /** A statement is without conflicts exactly when each of its expressions is. */
  lemma {:induction false} UnconflictedIff(s: Stmt)
    ensures Unconflicted(s) <==> NoneConflicts(Exprs(s))
    decreases s, 0
  {
    hide NoConflict, NoneConflicts, UnconflictedMaybe, Perhaps;
    assert NoneConflicts({}) by { NoneOfPerhaps(None); NothingPerhaps(); }
    match s
    case ExprStmt(e) => NoneOfOne(e);
    case Decl(_, i) => NoneOfPerhaps(i);
    case Block(items) => ItemsIff(items);
    case If(c, a, b) =>
      UnconflictedIff(a);
      NoneOfOne(c);
      NoneOfBoth({c}, Exprs(a));
      if b.Some? { UnconflictedIff(b.value); }
      NoneOfBoth({c} + Exprs(a), if b.Some? then Exprs(b.value) else {});
    case While(c, b) => WithCondition(c, b);
    case Do(b, c) => WithCondition(c, b);
    case For(i, c, n, b) =>
      UnconflictedIff(b);
      ItemsIff(i);
      NoneOfPerhaps(c);
      NoneOfPerhaps(n);
      NoneOfBoth(ItemExprs(i), Perhaps(c));
      NoneOfBoth(ItemExprs(i) + Perhaps(c), Perhaps(n));
      NoneOfBoth(ItemExprs(i) + Perhaps(c) + Perhaps(n), Exprs(b));
    case Return(e) => NoneOfPerhaps(e);
    case Switch(c, b) => WithCondition(c, b);
    case Case(_, b) => UnconflictedIff(b);
    case Default(b) => UnconflictedIff(b);
    case _ =>
  }

  lemma NothingPerhaps()
    ensures Perhaps(None) == {} && UnconflictedMaybe(None)
  {}

  lemma {:induction false} WithCondition(c: Expr, b: Stmt)
    ensures NoConflict(c) && Unconflicted(b) <==> NoneConflicts({c} + Exprs(b))
    decreases b, 1
  {
    hide NoConflict, NoneConflicts;
    UnconflictedIff(b);
    NoneOfOne(c);
    NoneOfBoth({c}, Exprs(b));
  }

  lemma {:induction false} ItemsIff(items: Items)
    ensures UnconflictedItems(items) <==> NoneConflicts(ItemExprs(items))
    decreases items, 0
  {
    hide NoConflict;
    if items.Cons? {
      UnconflictedIff(items.head);
      ItemsIff(items.tail);
      NoneOfBoth(Exprs(items.head), ItemExprs(items.tail));
    }
  }

  /** Well formed where it stands: the targets it may use are the ones k has. With u also without conflicts. */
  predicate Fine(s: Stmt, k: Kont, u: bool) { (u ==> Unconflicted(s)) && Wf(s, BreakTo(k).Some?, ContinueTo(k).Some?) }

  predicate FineK(k: Kont, u: bool)
    decreases k
  {
    match k
    case Stop => true
    case KItems(items, k') =>
      (u ==> UnconflictedItems(items)) && WfItems(items, BreakTo(k').Some?, ContinueTo(k').Some?) && FineK(k', u)
    case KWhile(c, b, k') => (u ==> NoConflict(c) && Unconflicted(b)) && Wf(b, true, true) && FineK(k', u)
    case KDo(b, c, k') => (u ==> NoConflict(c) && Unconflicted(b)) && Wf(b, true, true) && FineK(k', u)
    case KForTest(c, n, b, k') => (u ==> FineLoop(c, n, b)) && Wf(b, true, true) && FineK(k', u)
    case KForStep(c, n, b, k') => (u ==> FineLoop(c, n, b)) && Wf(b, true, true) && FineK(k', u)
    case KSwitch(k') => FineK(k', u)
    case KIf(k') => FineK(k', u)
  }

  predicate FineLoop(c: Option<Expr>, n: Option<Expr>, b: Stmt) {
    UnconflictedMaybe(c) && UnconflictedMaybe(n) && Unconflicted(b)
  }

  predicate FineConfig(c: Config, u: bool) {
    match c
    case Exec(s, k, _) => Fine(s, k, u) && FineK(k, u)
    case Next(k, _) => FineK(k, u)
    case Done(_, _) => true
    case Stuck => false
  }

  lemma {:induction false} BreakFine(k: Kont, u: bool)
    requires FineK(k, u) && BreakTo(k).Some?
    ensures FineK(BreakTo(k).value, u)
    decreases k
  {
    match k
    case KItems(_, k') => BreakFine(k', u);
    case KForTest(_, _, _, k') => BreakFine(k', u);
    case KIf(k') => BreakFine(k', u);
    case _ =>
  }

  lemma {:induction false} ContinueFine(k: Kont, u: bool)
    requires FineK(k, u) && ContinueTo(k).Some?
    ensures FineK(ContinueTo(k).value, u)
    decreases k
  {
    match k
    case KItems(_, k') => ContinueFine(k', u);
    case KForTest(_, _, _, k') => ContinueFine(k', u);
    case KSwitch(k') => ContinueFine(k', u);
    case KIf(k') => ContinueFine(k', u);
    case _ =>
  }

  lemma {:induction false} WfPlain(items: Items, brk: bool, cont: bool)
    requires Plain(items)
    ensures WfItems(items, brk, cont)
    decreases items
  {
    match items
    case Nil =>
    case Cons(_, t) => WfPlain(t, brk, cont);
  }

  lemma {:induction false} FindFine(s: Stmt, t: Tag, k: Kont, u: bool)
    requires Fine(s, k, u) && FineK(k, u) && Find(s, t, k).Some?
    ensures var (s', k') := Find(s, t, k).value; Fine(s', k', u) && FineK(k', u)
    decreases s
  {
    hide NoConflict, NoDup, Cases, Defaults, Plain;
    match s
    case Case(v, b) => if t != TCase(v) { FindFine(b, t, k, u); }
    case Default(b) => if t != TDefault { FindFine(b, t, k, u); }
    case Block(items) => FindItemsFine(items, t, k, u);
    case If(_, a, b) => if Find(a, t, KIf(k)).Some? { FindFine(a, t, KIf(k), u); } else { FindFine(b.value, t, KIf(k), u); }
    case While(c, b) => FindFine(b, t, KWhile(c, b, k), u);
    case Do(b, c) => FindFine(b, t, KDo(b, c, k), u);
    case For(_, c, i, b) => FindFine(b, t, KForStep(c, i, b, k), u);
  }

  lemma {:induction false} FindItemsFine(items: Items, t: Tag, k: Kont, u: bool)
    requires (u ==> UnconflictedItems(items)) && WfItems(items, BreakTo(k).Some?, ContinueTo(k).Some?) && FineK(k, u)
    requires FindItems(items, t, k).Some?
    ensures var (s', k') := FindItems(items, t, k).value; Fine(s', k', u) && FineK(k', u)
    decreases items
  {
    var Cons(h, rest) := items;
    if Find(h, t, KItems(rest, k)).Some? {
      FindFine(h, t, KItems(rest, k), u);
    } else {
      FindItemsFine(rest, t, k, u);
    }
  }

  /** A well-formed configuration steps to a well-formed one: never stuck. */
  lemma StepFine(c: Config, u: bool)
    requires FineConfig(c, u)
    ensures FineConfig(Step(c), u)
  {
    hide Eval, NoConflict;
    match c
    case Exec(s, k, st) => ExecFine(s, k, st, u);
    case Next(k, st) =>
    case Done(_, _) =>
  }

  lemma ExecFine(s: Stmt, k: Kont, st: Store, u: bool)
    requires Fine(s, k, u) && FineK(k, u)
    ensures FineConfig(Step(Exec(s, k, st)), u)
  {
    hide Eval, NoConflict, Find, NoDup, Cases, Defaults;
    match s
    case For(_, _, _, _) => ForFine(s, k, st, u);
    case Break => BreakFine(k, u);
    case Continue => ContinueFine(k, u);
    case Switch(_, _) => SwitchFine(s, k, st, u);
    case _ =>
  }

  lemma ForFine(s: Stmt, k: Kont, st: Store, u: bool)
    requires s.For? && Fine(s, k, u) && FineK(k, u)
    ensures FineConfig(Step(Exec(s, k, st)), u)
  {
    hide Eval, NoConflict;
    WfPlain(s.init, BreakTo(k).Some?, ContinueTo(k).Some?);
    var k' := KForTest(s.cond, s.inc, s.body, k);
    assert FineK(k', u) && BreakTo(k') == BreakTo(k) && ContinueTo(k') == ContinueTo(k);
  }

  lemma SwitchFine(s: Stmt, k: Kont, st: Store, u: bool)
    requires s.Switch? && Fine(s, k, u) && FineK(k, u)
    ensures FineConfig(Step(Exec(s, k, st)), u)
  {
    hide Eval, NoConflict, Find, NoDup, Cases, Defaults;
    var v, k', b := Eval(s.c, st).0, KSwitch(k), s.body;
    assert Fine(b, k', u) && FineK(k', u);
    if Find(b, TCase(v), k').Some? {
      FindFine(b, TCase(v), k', u);
    } else if Find(b, TDefault, k').Some? {
      FindFine(b, TDefault, k', u);
    }
  }

  lemma {:induction false} RunFine(c: Config, n: nat, u: bool)
    requires FineConfig(c, u)
    ensures FineConfig(Run(c, n), u)
    decreases n
  {
    if n > 0 {
      StepFine(c, u);
      RunFine(Step(c), n - 1, u);
    }
  }

  // ---- the expressions of a run ----

  /** The expression whose evaluation is part of the next step. */
  function Evaluated(c: Config): (e: Option<Expr>)
    ensures e.Some? ==> c.Exec? || c.Next?
  {
    match c
    case Exec(ExprStmt(e), _, _) => Some(e)
    case Exec(Decl(_, i), _, _) => i
    case Exec(If(e, _, _), _, _) => Some(e)
    case Exec(While(e, _), _, _) => Some(e)
    case Exec(Return(e), _, _) => e
    case Exec(Switch(e, _), _, _) => Some(e)
    case Next(KDo(_, e, _), _) => Some(e)
    case Next(KForTest(e, _, _, _), _) => e
    case Next(KForStep(_, e, _, _), _) => e
    case _ => None
  }

  /** No handle is read too late in this step. */
  predicate SafeStep(c: Config) { Evaluated(c).Some? ==> SafeAt(Evaluated(c).value, c.store) }

  /** Nor in any step of the run from c. */
  ghost predicate SafeRun(c: Config) { forall n: nat :: SafeStep(Run(c, n)) }

  /** The run meets no unsequenced conflict: C defines what it does. */
  ghost predicate DefinedRun(c: Config) {
    forall n: nat :: Evaluated(Run(c, n)).Some? ==> NoConflictIn(Evaluated(Run(c, n)).value, Run(c, n).store)
  }

  lemma SafeGoesOn(c: Config)
    requires SafeRun(c)
    ensures SafeStep(c) && SafeRun(Step(c))
  {
    hide Step, SafeStep;
    assert SafeStep(Run(c, 0));
    forall n: nat
      ensures SafeStep(Run(Step(c), n))
    {
      assert SafeStep(Run(c, n + 1));
    }
  }

  /** A run C defines never has a handle read too late. */
  lemma DefinedIsSafe(c: Config)
    requires DefinedRun(c)
    ensures SafeRun(c)
  {
    hide Run, NoConflictIn, SafeAt, Evaluated;
    forall n: nat
      ensures SafeStep(Run(c, n))
    {
      if Evaluated(Run(c, n)).Some? { NoConflictIsSafe(Evaluated(Run(c, n)).value, Run(c, n).store); }
    }
  }

  /** A body without unsequenced conflicts, whichever operands run, has no other runs. */
  lemma UnconflictedIsDefined(body: Stmt, vars: Store)
    requires WfBody(body) && Unconflicted(body)
    ensures DefinedRun(Exec(body, Stop, vars))
  {
    hide Run, Unconflicted, Wf, NoConflict, NoConflictIn, Evaluated, FineConfig;
    var c := Exec(body, Stop, vars);
    assert FineConfig(c, true) by { BodyFine(body, vars); }
    forall n: nat | Evaluated(Run(c, n)).Some?
      ensures NoConflictIn(Evaluated(Run(c, n)).value, Run(c, n).store)
    {
      RunFine(c, n, true);
      EvaluatedFine(Run(c, n));
      StaticCovers(Evaluated(Run(c, n)).value, Run(c, n).store);
    }
  }

  lemma BodyFine(body: Stmt, vars: Store)
    requires WfBody(body)
    ensures FineConfig(Exec(body, Stop, vars), false)
    ensures Unconflicted(body) ==> FineConfig(Exec(body, Stop, vars), true)
  {
    hide Wf, Unconflicted;
  }

  lemma EvaluatedFine(c: Config)
    requires FineConfig(c, true) && Evaluated(c).Some?
    ensures NoConflict(Evaluated(c).value)
  {
    hide NoConflict, Wf;
  }

  // ---- a body closed by a return ----

  /** lsEmittedReturn at the end, if it is b on coming to k: any loop or switch in between clears it. */
  predicate Closing(k: Kont, b: bool)
    decreases k
  {
    match k
    case Stop => b
    case KItems(items, k') => Closing(k', EmittedItems(items, b))
    case KWhile(_, _, k') => Closing(k', false)
    case KDo(_, _, k') => Closing(k', false)
    case KForTest(_, _, _, k') => Closing(k', false)
    case KForStep(_, _, _, k') => Closing(k', false)
    case KSwitch(k') => Closing(k', false)
    case KIf(k') => Closing(k', false)
  }

  /** Control cannot come to the end from here. */
  predicate Closed(c: Config) {
    match c
    case Exec(s, k, _) => Closing(k, Emitted(s, false))
    case Next(k, _) => Closing(k, false)
    case Done(exit, _) => exit.Returned?
    case Stuck => true
  }

  lemma {:induction false} LeavingCloses(k: Kont, b: bool)
    ensures BreakTo(k).Some? ==> (Closing(k, b) ==> Closing(BreakTo(k).value, false))
    ensures ContinueTo(k).Some? ==> (Closing(k, b) ==> Closing(ContinueTo(k).value, false))
    decreases k
  {
    match k
    case KItems(items, k') => LeavingCloses(k', EmittedItems(items, b));
    case KForTest(_, _, _, k') => LeavingCloses(k', false);
    case KSwitch(k') => LeavingCloses(k', false);
    case KIf(k') => LeavingCloses(k', false);
    case _ =>
  }

  lemma {:induction false} FindCloses(s: Stmt, t: Tag, k: Kont)
    requires Find(s, t, k).Some? && Closing(k, false) && Closing(k, true)
    ensures var k' := Find(s, t, k).value.1; Closing(k', false) && Closing(k', true)
    decreases s
  {
    match s
    case Case(v, r) => if t != TCase(v) { FindCloses(r, t, k); }
    case Default(r) => if t != TDefault { FindCloses(r, t, k); }
    case Block(items) => FindItemsCloses(items, t, k);
    case If(_, x, y) => if Find(x, t, KIf(k)).Some? { FindCloses(x, t, KIf(k)); } else { FindCloses(y.value, t, KIf(k)); }
    case While(c, r) => FindCloses(r, t, KWhile(c, r, k));
    case Do(r, c) => FindCloses(r, t, KDo(r, c, k));
    case For(_, c, i, r) => FindCloses(r, t, KForStep(c, i, r, k));
  }

  lemma {:induction false} FindItemsCloses(items: Items, t: Tag, k: Kont)
    requires FindItems(items, t, k).Some? && Closing(k, false) && Closing(k, true)
    ensures var k' := FindItems(items, t, k).value.1; Closing(k', false) && Closing(k', true)
    decreases items
  {
    var Cons(h, rest) := items;
    if Find(h, t, KItems(rest, k)).Some? {
      FindCloses(h, t, KItems(rest, k));
    } else {
      FindItemsCloses(rest, t, k);
    }
  }

  lemma ResumeCloses(k: Kont, st: Store)
    requires Closing(k, false)
    ensures Closed(Resume(k, st))
  {}

  lemma StepClosed(c: Config)
    requires Closed(c)
    ensures Closed(Step(c))
  {
    hide Eval;
    match c
    case Exec(s, k, st) =>
      match s {
        case For(i, e, n, b) => assert Closing(KForTest(e, n, b, k), EmittedItems(i, false));
        case Break => LeavingCloses(k, false);
        case Continue =>
          LeavingCloses(k, false);
          if ContinueTo(k).Some? { ResumeCloses(ContinueTo(k).value, st); }
        case Switch(e, b) =>
          var v := Eval(e, st).0;
          if Find(b, TCase(v), KSwitch(k)).Some? {
            FindCloses(b, TCase(v), KSwitch(k));
          } else if Find(b, TDefault, KSwitch(k)).Some? {
            FindCloses(b, TDefault, KSwitch(k));
          }
        case _ =>
      }
    case Next(k, st) =>
    case Done(_, _) =>
    case Stuck =>
  }

  lemma {:induction false} RunClosed(c: Config, n: nat)
    requires Closed(c)
    ensures Closed(Run(c, n))
    decreases n
  {
    if n > 0 {
      StepClosed(c);
      RunClosed(Step(c), n - 1);
    }
  }
}
