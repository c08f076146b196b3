/** Lowering preserves meaning: a body and its emitted code end in the same way, with the same store, or
    neither ends; and control never leaves the code. */
module LowerCorrect {
  import opened Options
  import opened CLang
  import opened IR
  import opened Lowering
  import opened LowerLabels
  import opened LowerExpr
  import opened LowerStmt
  import opened LowerRun
  import opened LowerSteps

  // ---- switch ----

  /** The comparison chain jumps to the label of the first case that is v, or runs to its end. */
  lemma {:induction false} DispatchRuns(code: Code, p: nat, cv: Operand, named: seq<(int, Label)>, n: Ctr, vars: Store,
                                        tmps: Tmps, v: int)
    returns (j: nat, tmps': Tmps, i: nat)
    requires Distinct(code) && At(code, p, CDispatch(cv, named, n).0)
    requires ValueOf(cv, vars, tmps) == v && (cv.TmpOp? ==> cv.k < n.tmp)
    requires forall m :: 0 <= m < |named| && named[m].0 == v ==> Has(code, named[m].1)
    ensures i <= |named| && (forall m :: 0 <= m < i ==> named[m].0 != v) && (i < |named| ==> named[i].0 == v)
    ensures RunIR(code, Running(p, vars, tmps), j)
         == Running(if i < |named| then Where(code, named[i].1) else p + |CDispatch(cv, named, n).0|, vars, tmps')
    decreases |named|
  {
    hide RunIR, At, Where, Distinct, Has;
    var s := Running(p, vars, tmps);
    Stay(code, s);
    if named == [] {
      j, tmps', i := 0, tmps, 0;
    } else {
      var m := Ctr(n.lab + 1, n.tmp + 1);
      var next, rest := L(n.lab), CDispatch(cv, named[1..], m).0;
      var h := [IBin(n.tmp, Eq, cv, Imm(named[0].0)), BranchZ(TmpOp(n.tmp), next), Jump(named[0].1), ILabel(next)];
      AtSplit(code, p, h, rest);
      AtIndex(code, p, h, 0);
      AtIndex(code, p, h, 1);
      AtIndex(code, p, h, 2);
      AtIndex(code, p, h, 3);
      LabelAt(code, p + 3, next);
      Extend(code, s, 0, p, vars, tmps, h[0]);
      var tmps1 := tmps[n.tmp := Truth(v == named[0].0)];
      ExtendBranch(code, s, 1, p + 1, vars, tmps1, TmpOp(n.tmp), next);
      if v == named[0].0 {
        ExtendJump(code, s, 2, p + 2, vars, tmps1, named[0].1);
        j, tmps', i := 3, tmps1, 0;
      } else {
        Extend(code, s, 2, p + 3, vars, tmps1, ILabel(next));
        var j1, i1;
        j1, tmps', i1 := DispatchRuns(code, p + 4, cv, named[1..], m, vars, tmps1, v);
        Then(code, s, 3, Running(p + 4, vars, tmps1), j1);
        j, i := 3 + j1, 1 + i1;
      }
    }
  }

  /** The end of a switch is where its body comes out. */
  lemma IntoSwitch(code: Code, k: Kont, w: Places, q: nat, b: Stmt, lo: nat, n: Ctr, x: Ctx, epi: Code)
    requires q < |code| && code[q] == ILabel(L(lo)) && Follows(code, k, w, q + 1, x, epi)
    ensures Follows(code, KSwitch(k), Here(0, lo, n, x, w), q, EnterSwitch(b, lo, x), epi)
  {}

  /** The label the table of a switch has for a case value, and for default. */
  lemma SwitchTagAt(b: Stmt, lo: nat, x: Ctx, m: nat)
    requires NoDup(Cases(b)) && m < |Cases(b)|
    ensures |NamedOf(b, lo)| == |Cases(b)| && NamedOf(b, lo)[m] == (Cases(b)[m], L(lo + 1 + m))
    ensures TagAt(EnterSwitch(b, lo, x), TCase(Cases(b)[m])) == Some(L(lo + 1 + m))
  {
    TableFinds(Cases(b), lo + 1, m);
    NamedAt(Cases(b), lo + 1);
  }

  lemma SwitchSteps(code: Code, c: Expr, b: Stmt, k: Kont, p: nat, vars: Store, tmps: Tmps, z: Spot, epi: Code, void: bool)
    returns (j: nat, s': State, z': Spot)
    requires Distinct(code) && SafeAt(c, vars) && NoDup(Cases(b))
    requires Tracked(code, Exec(Switch(c, b), k, vars), Running(p, vars, tmps), z, epi, void)
    ensures Simulates(code, Exec(Switch(c, b), k, vars), Running(p, vars, tmps), j, s', z', epi, void)
  {
    hide RunIR, At, Distinct, Where, Has, CExpr, CDispatch, CStmt, Eval, SafeAt, Follows, NamedOf, DefaultOf, AfterLabels,
         EnterSwitch, Find, TagAt, Cases, Defaults, NoDup;
    var Spot(n, x, w) := z;
    SwitchAt(code, p, c, b, n, x);
    var (cc, cv, n0) := CExpr(c, n);
    var lo, m, y, named := n0.lab, AfterLabels(b, n0), EnterSwitch(b, n0.lab, x), NamedOf(b, n0.lab);
    var (cd, n1) := CDispatch(cv, named, m);
    var cb := CStmt(b, n1, y).0;
    var q, s := p + |cc| + |cd|, Running(p, vars, tmps);
    var e := q + 1 + |cb|;
    var w1 := Here(0, lo, n, x, w);
    IntoSwitch(code, k, w, e, b, lo, n, x, epi);
    var j0, tmps0 := ExprRuns(code, p, c, n, vars, tmps);
    var (v, vars') := Eval(c, vars);
    OperandIs(c, n);
    AfterLabelsTmp(b, n0);
    FindCases(b, v, KSwitch(k));
    if v in Cases(b) {
      j, s', z' := CaseSteps(code, b, k, q + 1, n1, y, w1, epi, p + |cc|, cv, lo, m, vars', tmps0, v);
      Then(code, s, j0, Running(p + |cc|, vars', tmps0), j);
      j := j0 + j;
    } else {
      var j1, tmps1, i := MissRuns(code, p + |cc|, cv, b, lo, m, vars', tmps0, v);
      Then(code, s, j0, Running(p + |cc|, vars', tmps0), j1);
      if Defaults(b) > 0 {
        DefaultTagAt(b, lo, x);
        var l := DefaultOf(b, lo).value;
        var r, n', x', w' := FindAt(code, b, TDefault, KSwitch(k), q + 1, n1, y, w1, epi, l);
        JumpPast(code, q, l, r, vars', tmps1);
        Then(code, s, j0 + j1, Running(q, vars', tmps1), 2);
        j, s', z' := j0 + j1 + 2, Running(r + 1, vars', tmps1), Spot(n', x', w');
      } else {
        NoDefault(b, lo);
        JumpPast(code, q, L(lo), e, vars', tmps1);
        Then(code, s, j0 + j1, Running(q, vars', tmps1), 2);
        j, s', z' := j0 + j1 + 2, Running(e + 1, vars', tmps1), z;
      }
    }
  }

  lemma AfterLabelsTmp(b: Stmt, n: Ctr)
    ensures AfterLabels(b, n).tmp == n.tmp
  {}

  lemma DefaultTagAt(b: Stmt, lo: nat, x: Ctx)
    requires Defaults(b) > 0
    ensures DefaultOf(b, lo).Some? && TagAt(EnterSwitch(b, lo, x), TDefault) == DefaultOf(b, lo)
  {}

  lemma NoDefault(b: Stmt, lo: nat)
    requires Defaults(b) == 0
    ensures DefaultOf(b, lo).None?
  {}

  /** The value is none of the cases: the chain runs to its end. */
  lemma MissRuns(code: Code, p: nat, cv: Operand, b: Stmt, lo: nat, n: Ctr, vars: Store, tmps: Tmps, v: int)
    returns (j: nat, tmps': Tmps, i: nat)
    requires Distinct(code) && At(code, p, CDispatch(cv, NamedOf(b, lo), n).0)
    requires ValueOf(cv, vars, tmps) == v && (cv.TmpOp? ==> cv.k < n.tmp) && v !in Cases(b)
    ensures RunIR(code, Running(p, vars, tmps), j) == Running(p + |CDispatch(cv, NamedOf(b, lo), n).0|, vars, tmps')
  {
    hide RunIR, At, Distinct, Where, CDispatch, Cases;
    NamedAt(Cases(b), lo + 1);
    j, tmps', i := DispatchRuns(code, p, cv, NamedOf(b, lo), n, vars, tmps, v);
  }

  /** The value is a case: the chain comes to its label, wherever that is in the body. */
  lemma CaseSteps(code: Code, b: Stmt, k: Kont, pb: nat, nb: Ctr, y: Ctx, w: Places, epi: Code,
                  p: nat, cv: Operand, lo: nat, n: Ctr, vars: Store, tmps: Tmps, v: int)
    returns (j: nat, s': State, z': Spot)
    requires Distinct(code) && NoDup(Cases(b)) && v in Cases(b) && Find(b, TCase(v), KSwitch(k)).Some?
    requires At(code, p, CDispatch(cv, NamedOf(b, lo), n).0)
    requires ValueOf(cv, vars, tmps) == v && (cv.TmpOp? ==> cv.k < n.tmp)
    requires exists x :: y == EnterSwitch(b, lo, x)
    requires At(code, pb, CStmt(b, nb, y).0) && Follows(code, KSwitch(k), w, pb + |CStmt(b, nb, y).0|, y, epi)
    ensures j > 0 && RunIR(code, Running(p, vars, tmps), j) == s'
    ensures var (t, k') := Find(b, TCase(v), KSwitch(k)).value;
            forall void :: Tracked(code, Exec(t, k', vars), s', z', epi, void)
  {
    hide RunIR, At, Distinct, Where, Has, CDispatch, CStmt, Follows, Find, TagAt, Cases, NamedOf, NoDup, EnterSwitch;
    var named := NamedOf(b, lo);
    var x :| y == EnterSwitch(b, lo, x);
    var m :| 0 <= m < |Cases(b)| && Cases(b)[m] == v;
    SwitchTagAt(b, lo, x, m);
    var l := L(lo + 1 + m);
    var r, n', x', w' := FindAt(code, b, TCase(v), KSwitch(k), pb, nb, y, w, epi, l);
    LabelAt(code, r, l);
    OneLabel(b, lo, v, m);
    var j1, tmps', i := DispatchRuns(code, p, cv, named, n, vars, tmps, v);
    Extend(code, Running(p, vars, tmps), j1, r, vars, tmps', ILabel(l));
    j, s', z' := j1 + 1, Running(r + 1, vars, tmps'), Spot(n', x', w');
  }

  /** The chain has one label for the value. */
  lemma OneLabel(b: Stmt, lo: nat, v: int, m: nat)
    requires NoDup(Cases(b)) && m < |Cases(b)| && Cases(b)[m] == v
    ensures |NamedOf(b, lo)| == |Cases(b)| && NamedOf(b, lo)[m].0 == v
    ensures forall i :: 0 <= i < |NamedOf(b, lo)| && NamedOf(b, lo)[i].0 == v ==> NamedOf(b, lo)[i].1 == L(lo + 1 + m)
  {
    NamedAt(Cases(b), lo + 1);
  }

  // ---- the other steps ----

  lemma BreakSteps(code: Code, k: Kont, p: nat, vars: Store, tmps: Tmps, z: Spot, epi: Code, void: bool)
    returns (j: nat, s': State, z': Spot)
    requires Distinct(code) && BreakTo(k).Some?
    requires Tracked(code, Exec(Break, k, vars), Running(p, vars, tmps), z, epi, void)
    ensures Simulates(code, Exec(Break, k, vars), Running(p, vars, tmps), j, s', z', epi, void)
  {
    hide RunIR, At, Distinct, Follows;
    var r, x', w' := BreakGoes(code, k, z.w, p + |CStmt(Break, z.n, z.x).0|, z.x, epi);
    var l := z.x.loops[0].0;
    AtIndex(code, p, [Jump(l)], 0);
    JumpPast(code, p, l, r, vars, tmps);
    j, s', z' := 2, Running(r + 1, vars, tmps), Spot(z.n, x', w');
  }

  lemma ContinueSteps(code: Code, k: Kont, p: nat, vars: Store, tmps: Tmps, z: Spot, epi: Code, void: bool)
    returns (j: nat, s': State, z': Spot)
    requires Distinct(code) && ContinueTo(k).Some?
    requires Tracked(code, Exec(Continue, k, vars), Running(p, vars, tmps), z, epi, void)
    ensures Simulates(code, Exec(Continue, k, vars), Running(p, vars, tmps), j, s', z', epi, void)
  {
    hide RunIR, At, Distinct, Follows;
    var q := p + |CStmt(Continue, z.n, z.x).0|;
    var r, n', x', w' := ContinueGoes(code, k, z.w, q, z.x, epi, void, vars, tmps);
    var l := z.x.loops[0].1;
    AtIndex(code, p, [Jump(l)], 0);
    JumpTo(code, p, l, r, vars, tmps);
    j, s', z' := 1, Running(r, vars, tmps), Spot(n', x', w');
  }

  lemma TagSteps(code: Code, s: Stmt, k: Kont, p: nat, vars: Store, tmps: Tmps, z: Spot, epi: Code, void: bool)
    returns (j: nat, s': State)
    requires s.Case? || s.Default?
    requires Tracked(code, Exec(s, k, vars), Running(p, vars, tmps), z, epi, void)
    ensures Simulates(code, Exec(s, k, vars), Running(p, vars, tmps), j, s', z, epi, void)
  {
    hide RunIR, At, Follows;
    var h, c := if s.Case? then CaseLabel(z.x, s.v) else DefaultLabel(z.x), CStmt(s.body, z.n, z.x).0;
    assert CStmt(s, z.n, z.x).0 == h + c;
    AtSplit(code, p, h, c);
    j, s' := |h|, Running(p + |h|, vars, tmps);
    if h == [] {
      Stay(code, Running(p, vars, tmps));
    } else {
      AtIndex(code, p, h, 0);
      PassLabel(code, p, h[0].l, vars, tmps);
    }
  }

  lemma ExecSteps(code: Code, s: Stmt, k: Kont, p: nat, vars: Store, tmps: Tmps, z: Spot, epi: Code, void: bool)
    returns (j: nat, s': State, z': Spot)
    requires Distinct(code) && Fine(s, k, false) && SafeStep(Exec(s, k, vars))
    requires Tracked(code, Exec(s, k, vars), Running(p, vars, tmps), z, epi, void)
    ensures Simulates(code, Exec(s, k, vars), Running(p, vars, tmps), j, s', z', epi, void)
  {
    hide RunIR, Distinct, At, Follows, Tracked, Simulates, SafeAt, Cases, Defaults;
    z' := z;
    match s
    case Null => j, s' := StillSteps(code, s, k, p, vars, tmps, z, epi, void);
    case ExprStmt(e) => j, s' := ExprSteps(code, e, k, p, vars, tmps, z, epi, void);
    case Decl(x, i) => j, s' := DeclSteps(code, x, i, k, p, vars, tmps, z, epi, void);
    case Block(items) =>
      j, s' := StillSteps(code, s, k, p, vars, tmps, z, epi, void);
      z' := Spot(z.n, z.x, Here(0, 0, z.n, z.x, z.w));
    case If(c, a, b) => j, s', z' := IfSteps(code, c, a, b, k, p, vars, tmps, z, epi, void);
    case While(c, b) => j, s', z' := WhileSteps(code, c, b, k, p, vars, tmps, z, epi, void);
    case Do(b, c) => j, s', z' := DoSteps(code, b, c, k, p, vars, tmps, z, epi, void);
    case For(_, _, _, _) =>
      z' := ForSteps(code, s, k, p, vars, tmps, z, epi, void);
      j, s' := 0, Running(p, vars, tmps);
    case Break => j, s', z' := BreakSteps(code, k, p, vars, tmps, z, epi, void);
    case Continue => j, s', z' := ContinueSteps(code, k, p, vars, tmps, z, epi, void);
    case Return(e) => j, s' := ReturnSteps(code, e, k, p, vars, tmps, z, epi, void);
    case Switch(c, b) => j, s', z' := SwitchSteps(code, c, b, k, p, vars, tmps, z, epi, void);
    case Case(_, _) => j, s' := TagSteps(code, s, k, p, vars, tmps, z, epi, void);
    case Default(_) => j, s' := TagSteps(code, s, k, p, vars, tmps, z, epi, void);
  }

  /** Steps that emit nothing. */
  lemma StillSteps(code: Code, s: Stmt, k: Kont, p: nat, vars: Store, tmps: Tmps, z: Spot, epi: Code, void: bool)
    returns (j: nat, s': State)
    requires s.Null? || s.Block?
    requires Tracked(code, Exec(s, k, vars), Running(p, vars, tmps), z, epi, void)
    ensures s.Null? ==> Simulates(code, Exec(s, k, vars), Running(p, vars, tmps), j, s', z, epi, void)
    ensures s.Block? ==> Simulates(code, Exec(s, k, vars), Running(p, vars, tmps), j, s',
                                   Spot(z.n, z.x, Here(0, 0, z.n, z.x, z.w)), epi, void)
  {
    hide RunIR, At;
    j, s' := 0, Running(p, vars, tmps);
    Stay(code, s');
  }

  lemma NextSteps(code: Code, k: Kont, q: nat, vars: Store, tmps: Tmps, z: Spot, epi: Code, void: bool)
    returns (j: nat, s': State, z': Spot)
    requires Distinct(code) && FineK(k, false) && SafeStep(Next(k, vars)) && (k.Stop? ==> epi == Epilogue(false, void))
    requires Tracked(code, Next(k, vars), Running(q, vars, tmps), z, epi, void)
    ensures Simulates(code, Next(k, vars), Running(q, vars, tmps), j, s', z', epi, void)
  {
    hide RunIR, Distinct, At, SafeAt, Tracked, Simulates;
    match k
    case Stop => j, s', z' := StopSteps(code, q, vars, tmps, z, epi, void);
    case KItems(items, k') => j, s', z' := ItemsSteps(code, items, k', q, vars, tmps, z, epi, void);
    case KWhile(c, b, k') => j, s', z' := GoRound(code, c, b, k', q, vars, tmps, z, epi, void);
    case KDo(b, c, k') => j, s', z' := DoTestSteps(code, b, c, k', q, vars, tmps, z, epi, void);
    case KForTest(c, i, b, k') => j, s', z' := ForTestSteps(code, c, i, b, k', q, vars, tmps, z, epi, void);
    case KForStep(c, i, b, k') => j, s', z' := ForStepSteps(code, c, i, b, k', q, vars, tmps, z, epi, void);
    case KSwitch(k') => j, s', z' := EndSteps(code, k, k', q, vars, tmps, z, epi, void);
    case KIf(k') => j, s', z' := EndSteps(code, k, k', q, vars, tmps, z, epi, void);
  }

  lemma StopSteps(code: Code, q: nat, vars: Store, tmps: Tmps, z: Spot, epi: Code, void: bool)
    returns (j: nat, s': State, z': Spot)
    requires epi == Epilogue(false, void) && Tracked(code, Next(Stop, vars), Running(q, vars, tmps), z, epi, void)
    ensures Simulates(code, Next(Stop, vars), Running(q, vars, tmps), j, s', z', epi, void)
  {
    hide RunIR, At;
    var s := Running(q, vars, tmps);
    AtIndex(code, q, epi, 0);
    Stay(code, s);
    Extend1(code, s, 0);
    j, s', z' := 1, RunIR(code, s, 1), z;
  }

  lemma ItemsSteps(code: Code, items: Items, k: Kont, q: nat, vars: Store, tmps: Tmps, z: Spot, epi: Code, void: bool)
    returns (j: nat, s': State, z': Spot)
    requires Tracked(code, Next(KItems(items, k), vars), Running(q, vars, tmps), z, epi, void)
    ensures Simulates(code, Next(KItems(items, k), vars), Running(q, vars, tmps), j, s', z', epi, void)
  {
    hide RunIR, At, CStmt;
    var w := z.w;
    j, s' := 0, Running(q, vars, tmps);
    Stay(code, s');
    match items
    case Nil => z' := Spot(z.n, z.x, w.rest);
    case Cons(h, t) =>
      var (ch, n1) := CStmt(h, w.n, z.x);
      AtSplit(code, q, ch, CItems(t, n1, z.x).0);
      z' := Spot(w.n, z.x, Here(0, 0, n1, z.x, w.rest));
  }

  lemma GoRound(code: Code, c: Expr, b: Stmt, k: Kont, q: nat, vars: Store, tmps: Tmps, z: Spot, epi: Code, void: bool)
    returns (j: nat, s': State, z': Spot)
    requires Distinct(code) && Tracked(code, Next(KWhile(c, b, k), vars), Running(q, vars, tmps), z, epi, void)
    ensures Simulates(code, Next(KWhile(c, b, k), vars), Running(q, vars, tmps), j, s', z', epi, void)
  {
    hide RunIR, Distinct, At, CStmt, CBool;
    var w := z.w;
    WhileAt(code, w.pos, c, b, w.n, w.x);
    JumpTo(code, q, L(w.n.lab), w.pos, vars, tmps);
    j, s', z' := 1, Running(w.pos, vars, tmps), Spot(w.n, w.x, w.rest);
  }

  lemma EndSteps(code: Code, k: Kont, k': Kont, q: nat, vars: Store, tmps: Tmps, z: Spot, epi: Code, void: bool)
    returns (j: nat, s': State, z': Spot)
    requires k == KSwitch(k') || k == KIf(k')
    requires Distinct(code) && Tracked(code, Next(k, vars), Running(q, vars, tmps), z, epi, void)
    ensures Simulates(code, Next(k, vars), Running(q, vars, tmps), j, s', z', epi, void)
  {
    hide RunIR, Distinct, At, CStmt, CBool, CExpr;
    var w, l := z.w, L(z.w.lab);
    if k.KIf? && q != w.pos {
      JumpPast(code, q, l, w.pos, vars, tmps);
      j, s', z' := 2, Running(w.pos + 1, vars, tmps), Spot(z.n, z.x, w.rest);
    } else {
      PassLabel(code, q, l, vars, tmps);
      j, s', z' := 1, Running(q + 1, vars, tmps), Spot(z.n, if k.KIf? then z.x else w.x, w.rest);
    }
  }

  // ---- whole runs ----

  /** The end of the code is closed, or control cannot come to it. */
  predicate EndClosed(c: Config, epi: Code, void: bool) { epi == Epilogue(false, void) || Closed(c) }

  /** Everything the simulation keeps. */
  ghost predicate Abreast(code: Code, c: Config, s: State, z: Spot, epi: Code, void: bool) {
    Distinct(code) && FineConfig(c, false) && EndClosed(c, epi, void) && Tracked(code, c, s, z, epi, void)
  }

  lemma Simulate(code: Code, c: Config, s: State, z: Spot, epi: Code, void: bool) returns (j: nat, s': State, z': Spot)
    requires Abreast(code, c, s, z, epi, void) && !c.Done? && SafeStep(c)
    ensures Simulates(code, c, s, j, s', z', epi, void) && Abreast(code, Step(c), s', z', epi, void)
  {
    hide RunIR, Distinct, At, Follows, SafeAt, Step, FineK, Fine, Closing;
    StepFine(c, false);
    if Closed(c) {
      StepClosed(c);
    }
    match c
    case Exec(st, k, _) => j, s', z' := ExecSteps(code, st, k, s.pc, s.vars, s.tmps, z, epi, void);
    case Next(k, _) =>
      NotAtEnd(c, epi, void);
      j, s', z' := NextSteps(code, k, s.pc, s.vars, s.tmps, z, epi, void);
  }

  lemma NotAtEnd(c: Config, epi: Code, void: bool)
    requires c.Next? && EndClosed(c, epi, void)
    ensures c.k.Stop? ==> epi == Epilogue(false, void)
  {}

  /** A body that ends: its code halts the same way. */
  lemma {:induction false} Forward(code: Code, c: Config, s: State, z: Spot, epi: Code, void: bool, m: nat)
    returns (j: nat)
    requires Abreast(code, c, s, z, epi, void) && SafeRun(c) && Run(c, m).Done?
    ensures RunIR(code, s, j) == Halted(ExitValue(Run(c, m).exit, void), Run(c, m).store)
    decreases m
  {
    hide RunIR, Distinct, At, Follows, FineConfig, Closed, Step, SafeStep, SafeRun, Epilogue;
    if c.Done? {
      DoneStays(c, m);
      Stay(code, s);
      j := 0;
    } else {
      SafeGoesOn(c);
      var j0, s', z' := Simulate(code, c, s, z, epi, void);
      var j1 := Forward(code, Step(c), s', z', epi, void, m - 1);
      Then(code, s, j0, s', j1);
      j := j0 + j1;
    }
  }

  lemma {:induction false} DoneStays(c: Config, m: nat)
    requires c.Done?
    ensures Run(c, m) == c
    decreases m
  {
    if m > 0 {
      DoneStays(c, m - 1);
    }
  }

  /** A body that never ends: its code runs on and on. */
  lemma {:induction false} RunsOn(code: Code, c: Config, s: State, z: Spot, epi: Code, void: bool, n: nat) returns (j: nat)
    requires Abreast(code, c, s, z, epi, void) && SafeRun(c) && forall m: nat :: !Run(c, m).Done?
    ensures j >= n && RunIR(code, s, j).Running?
    decreases n, Work(c)
  {
    hide RunIR, Distinct, At, Follows, FineConfig, Closed, Step, SafeStep, SafeRun, Epilogue, Work;
    assert !Run(c, 0).Done?;
    if n == 0 {
      Stay(code, s);
      j := 0;
    } else {
      SafeGoesOn(c);
      var j0, s', z' := Simulate(code, c, s, z, epi, void);
      forall m: nat
        ensures !Run(Step(c), m).Done?
      {
        assert !Run(c, m + 1).Done?;
      }
      var j1 := RunsOn(code, Step(c), s', z', epi, void, if j0 < n then n - j0 else 0);
      Then(code, s, j0, s', j1);
      j := j0 + j1;
    }
  }

  /** A state that is not running stays as it is. */
  lemma {:induction false} Settled(code: Code, s: State, j: nat, m: nat)
    requires j <= m && !RunIR(code, s, j).Running?
    ensures RunIR(code, s, m) == RunIR(code, s, j)
    decreases m - j
  {
    if j < m {
      Extend1(code, s, j);
      Settled(code, s, j + 1, m);
    }
  }

  /** The code of the function halts with this result and store. */
  ghost predicate Halts(code: Code, vars: Store, tmps: Tmps, r: Option<int>, vars': Store) {
    exists j: nat :: RunIR(code, Running(0, vars, tmps), j) == Halted(r, vars')
  }

  /** The body ends, by the rules of C, with this result and store. */
  ghost predicate Ends(body: Stmt, void: bool, vars: Store, r: Option<int>, vars': Store) {
    exists m: nat :: var c := Run(Exec(body, Stop, vars), m); c.Done? && ExitValue(c.exit, void) == r && c.store == vars'
  }

  lemma AtStart(body: Stmt, void: bool, n: Ctr, vars: Store, tmps: Tmps) returns (epi: Code, z: Spot)
    requires WfBody(body)
    ensures Abreast(CFunction(body, void, n).0, Exec(body, Stop, vars), Running(0, vars, tmps), z, epi, void)
  {
    hide Distinct, Wf, Unconflicted, CStmt, LabelsOf, TargetsOf, Emitted;
    FunctionLabels(body, void, n);
    epi, z := Epilogue(Emitted(body, false), void), Spot(n, EMPTY, End);
    var code, c := CFunction(body, void, n).0, CStmt(body, n, EMPTY).0;
    assert code == c + epi;
    AtSplit(code, 0, c, epi) by { assert At(code, 0, c + epi); }
  }

  /** The code of a function halts with a result and a store exactly when the body ends with them by the rules
      of C, and control never runs past the end of the code or jumps to a label that is not there: for every run in which
      no handle is read after another operand has changed the variable, so for every run C defines (DefinedIsSafe). */
  lemma LoweringPreservesMeaning(body: Stmt, void: bool, n: Ctr, vars: Store, tmps: Tmps)
    requires WfBody(body) && SafeRun(Exec(body, Stop, vars))
    ensures var code := CFunction(body, void, n).0;
            && (forall r, vars' :: Halts(code, vars, tmps, r, vars') <==> Ends(body, void, vars, r, vars'))
            && (forall j :: !RunIR(code, Running(0, vars, tmps), j).Lost?)
  {
    hide RunIR, CFunction, Run, Abreast, ExitValue, WfBody, SafeRun;
    var code, c, s := CFunction(body, void, n).0, Exec(body, Stop, vars), Running(0, vars, tmps);
    var epi, z := AtStart(body, void, n, vars, tmps);
    if m :| Run(c, m).Done? {
      var d := Run(c, m);
      var j := Forward(code, c, s, z, epi, void, m);
      var r0 := ExitValue(d.exit, void);
      forall i: nat
        ensures RunIR(code, s, i).Running? || RunIR(code, s, i) == Halted(r0, d.store)
      {
        SameEnd(code, s, i, j);
      }
      forall i: nat | Run(c, i).Done?
        ensures Run(c, i) == d
      {
        SameDone(c, i, m);
      }
      assert Halts(code, vars, tmps, r0, d.store) && Ends(body, void, vars, r0, d.store);
    } else {
      forall i: nat
        ensures RunIR(code, s, i).Running?
      {
        var j := RunsOn(code, c, s, z, epi, void, i);
        if !RunIR(code, s, i).Running? {
          Settled(code, s, i, j);
        }
      }
    }
  }

  lemma SameEnd(code: Code, s: State, i: nat, j: nat)
    requires RunIR(code, s, j).Halted?
    ensures RunIR(code, s, i).Running? || RunIR(code, s, i) == RunIR(code, s, j)
  {
    if !RunIR(code, s, i).Running? {
      if i <= j { Settled(code, s, i, j); } else { Settled(code, s, j, i); }
    }
  }

  lemma {:induction false} RunTrans(c: Config, i: nat, j: nat)
    ensures Run(c, i + j) == Run(Run(c, i), j)
    decreases i
  {
    if i > 0 {
      RunTrans(Step(c), i - 1, j);
    }
  }

  lemma SameDone(c: Config, i: nat, j: nat)
    requires Run(c, i).Done? && Run(c, j).Done?
    ensures Run(c, i) == Run(c, j)
  {
    var a, b := if i <= j then i else j, if i <= j then j else i;
    RunTrans(c, a, b - a);
    DoneStays(Run(c, a), b - a);
  }

  /** When lsEmittedReturn is set at the end of a body, no run of the body comes to its end. */
  lemma EmittedMeansUnreachable(body: Stmt, vars: Store, m: nat)
    requires Emitted(body, false)
    ensures Run(Exec(body, Stop, vars), m).Done? ==> Run(Exec(body, Stop, vars), m).exit.Returned?
  {
    RunClosed(Exec(body, Stop, vars), m);
  }

  /** With no unsequenced conflict in the body the code means the same from every store. */
  lemma UnconflictedIsSafe(body: Stmt, vars: Store)
    requires WfBody(body) && Unconflicted(body)
    ensures SafeRun(Exec(body, Stop, vars))
  {
    hide Run, WfBody, Unconflicted, DefinedRun, SafeRun;
    UnconflictedIsDefined(body, vars);
    DefinedIsSafe(Exec(body, Stop, vars));
  }
}
