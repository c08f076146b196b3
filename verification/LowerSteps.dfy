/** Each step of the C machine as a run of the emitted code. */
module LowerSteps {
  import opened Options
  import opened CLang
  import opened IR
  import opened Lowering
  import opened LowerLabels
  import opened LowerExpr
  import opened LowerStmt
  import opened LowerRun

  /** Counters and context of the code at hand, and where what is left to do stands. */
  datatype Spot = Spot(n: Ctr, x: Ctx, w: Places)

  ghost predicate Tracked(code: Code, c: Config, s: State, z: Spot, epi: Code, void: bool) {
    Matches(code, c, s, z.n, z.x, z.w, epi, void)
  }

  // ---- a measure for the steps that emit nothing ----

  function Size(s: Stmt): nat
    decreases s
  {
    match s
    case Block(items) => 1 + SizeItems(items)
    case For(i, _, _, _) => 2 + SizeItems(i)
    case Case(_, b) => 1 + Size(b)
    case Default(b) => 1 + Size(b)
    case _ => 1
  }

  function SizeItems(items: Items): nat
    decreases items
  {
    match items
    case Nil => 1
    case Cons(h, t) => 1 + Size(h) + SizeItems(t)
  }

  function SizeK(k: Kont): nat
    decreases k
  {
    match k
    case Stop => 1
    case KItems(items, k') => SizeItems(items) + SizeK(k')
    case KWhile(_, _, k') => 1 + SizeK(k')
    case KDo(_, _, k') => 1 + SizeK(k')
    case KForTest(_, _, _, k') => 1 + SizeK(k')
    case KForStep(_, _, _, k') => 1 + SizeK(k')
    case KSwitch(k') => 1 + SizeK(k')
    case KIf(k') => 1 + SizeK(k')
  }

  function Work(c: Config): nat {
    match c
    case Exec(s, k, _) => Size(s) + SizeK(k)
    case Next(k, _) => SizeK(k)
    case Done(_, _) => 0
    case Stuck => 0
  }

  /** The code runs j steps from s and stands where c's successor is; it may not run only if less is left. */
  ghost predicate Simulates(code: Code, c: Config, s: State, j: nat, s': State, z: Spot, epi: Code, void: bool) {
    && RunIR(code, s, j) == s'
    && Tracked(code, Step(c), s', z, epi, void)
    && (j > 0 || Work(Step(c)) < Work(c))
  }

  // ---- tests ----

  /** A test ends just past one of its two labels. */
  lemma TestGoes(code: Code, p: nat, e: Expr, t: Label, f: Label, n: Ctr, vars: Store, tmps: Tmps, pt: nat, pf: nat)
    returns (j: nat, tmps': Tmps)
    requires Distinct(code) && At(code, p, CBool(e, t, f, n).0) && SafeAt(e, vars)
    requires pt < |code| && code[pt] == ILabel(t) && pf < |code| && code[pf] == ILabel(f)
    ensures j > 0
    ensures RunIR(code, Running(p, vars, tmps), j)
         == Running((if Eval(e, vars).0 != 0 then pt else pf) + 1, Eval(e, vars).1, tmps')
  {
    hide RunIR, At, Where, Distinct, CBool, Eval, SafeAt, Has;
    LabelAt(code, pt, t);
    LabelAt(code, pf, f);
    j, tmps' := BoolRuns(code, p, e, t, f, n, vars, tmps);
    var (v, vars') := Eval(e, vars);
    var q := if v != 0 then pt else pf;
    Extend(code, Running(p, vars, tmps), j, q, vars', tmps', code[q]);
    j := j + 1;
  }

  lemma PassLabel(code: Code, p: nat, l: Label, vars: Store, tmps: Tmps)
    requires p < |code| && code[p] == ILabel(l)
    ensures RunIR(code, Running(p, vars, tmps), 1) == Running(p + 1, vars, tmps)
  {
    hide RunIR;
    Stay(code, Running(p, vars, tmps));
    Extend(code, Running(p, vars, tmps), 0, p, vars, tmps, ILabel(l));
  }

  /** A jump to the label at q. */
  lemma JumpTo(code: Code, p: nat, l: Label, q: nat, vars: Store, tmps: Tmps)
    requires Distinct(code) && p < |code| && code[p] == Jump(l) && q < |code| && code[q] == ILabel(l)
    ensures RunIR(code, Running(p, vars, tmps), 1) == Running(q, vars, tmps)
  {
    hide RunIR;
    LabelAt(code, q, l);
    Stay(code, Running(p, vars, tmps));
    ExtendJump(code, Running(p, vars, tmps), 0, p, vars, tmps, l);
  }

  /** A jump to the label at q and past it. */
  lemma JumpPast(code: Code, p: nat, l: Label, q: nat, vars: Store, tmps: Tmps)
    requires Distinct(code) && p < |code| && code[p] == Jump(l) && q < |code| && code[q] == ILabel(l)
    ensures RunIR(code, Running(p, vars, tmps), 2) == Running(q + 1, vars, tmps)
  {
    hide RunIR;
    JumpTo(code, p, l, q, vars, tmps);
    Extend(code, Running(p, vars, tmps), 1, q, vars, tmps, ILabel(l));
  }

  // ---- statements ----

  lemma ExprSteps(code: Code, e: Expr, k: Kont, p: nat, vars: Store, tmps: Tmps, z: Spot, epi: Code, void: bool)
    returns (j: nat, s': State)
    requires Distinct(code) && SafeAt(e, vars)
    requires Tracked(code, Exec(ExprStmt(e), k, vars), Running(p, vars, tmps), z, epi, void)
    ensures Simulates(code, Exec(ExprStmt(e), k, vars), Running(p, vars, tmps), j, s', z, epi, void)
  {
    hide RunIR, At, Distinct, CExpr, Eval, SafeAt, Follows;
    var tmps';
    j, tmps' := ExprRuns(code, p, e, z.n, vars, tmps);
    s' := RunIR(code, Running(p, vars, tmps), j);
  }

  lemma DeclSteps(code: Code, x: Name, i: Option<Expr>, k: Kont, p: nat, vars: Store, tmps: Tmps, z: Spot, epi: Code,
                  void: bool)
    returns (j: nat, s': State)
    requires Distinct(code) && (i.Some? ==> SafeAt(i.value, vars))
    requires Tracked(code, Exec(Decl(x, i), k, vars), Running(p, vars, tmps), z, epi, void)
    ensures Simulates(code, Exec(Decl(x, i), k, vars), Running(p, vars, tmps), j, s', z, epi, void)
  {
    hide RunIR, At, Distinct, CExpr, Eval, SafeAt, Follows;
    var s := Running(p, vars, tmps);
    if i.None? {
      j, s' := 0, s;
      Stay(code, s);
    } else {
      var (c, a, _) := CExpr(i.value, z.n);
      AtSplit(code, p, c, [SetVar(x, a)]);
      AtIndex(code, p + |c|, [SetVar(x, a)], 0);
      var tmps';
      j, tmps' := ExprRuns(code, p, i.value, z.n, vars, tmps);
      Extend(code, s, j, p + |c|, Eval(i.value, vars).1, tmps', SetVar(x, a));
      j := j + 1;
      s' := RunIR(code, s, j);
    }
  }

  lemma ReturnSteps(code: Code, e: Option<Expr>, k: Kont, p: nat, vars: Store, tmps: Tmps, z: Spot, epi: Code, void: bool)
    returns (j: nat, s': State)
    requires Distinct(code) && (e.Some? ==> SafeAt(e.value, vars))
    requires Tracked(code, Exec(Return(e), k, vars), Running(p, vars, tmps), z, epi, void)
    ensures Simulates(code, Exec(Return(e), k, vars), Running(p, vars, tmps), j, s', z, epi, void)
  {
    hide RunIR, At, Distinct, CExpr, Eval, SafeAt, Follows;
    var s := Running(p, vars, tmps);
    if e.None? {
      AtIndex(code, p, [RetVoid], 0);
      Stay(code, s);
      Extend1(code, s, 0);
      j := 1;
    } else {
      var (c, a, _) := CExpr(e.value, z.n);
      AtSplit(code, p, c, [Ret(a)]);
      AtIndex(code, p + |c|, [Ret(a)], 0);
      var tmps';
      j, tmps' := ExprRuns(code, p, e.value, z.n, vars, tmps);
      Extend1(code, s, j);
      j := j + 1;
    }
    s' := RunIR(code, s, j);
  }

  /** The arms of an if end at its end label or at a jump to it. */
  lemma JoinsAt(code: Code, k: Kont, w: Places, q: nat, pos: nat, lab: nat, n: Ctr, x: Ctx, epi: Code)
    requires pos < |code| && code[pos] == ILabel(L(lab)) && q < |code| && (q == pos || code[q] == Jump(L(lab)))
    requires Follows(code, k, w, pos + 1, x, epi)
    ensures Follows(code, KIf(k), Here(pos, lab, n, x, w), q, x, epi)
  {}

  lemma IfSteps(code: Code, c: Expr, a: Stmt, b: Option<Stmt>, k: Kont, p: nat, vars: Store, tmps: Tmps, z: Spot,
                epi: Code, void: bool)
    returns (j: nat, s': State, z': Spot)
    requires Distinct(code) && SafeAt(c, vars)
    requires Tracked(code, Exec(If(c, a, b), k, vars), Running(p, vars, tmps), z, epi, void)
    ensures Simulates(code, Exec(If(c, a, b), k, vars), Running(p, vars, tmps), j, s', z', epi, void)
  {
    hide RunIR, At, Distinct, CBool, CStmt, Eval, SafeAt, Follows;
    var Spot(n, x, w) := z;
    IfAt(code, p, c, a, b, n, x);
    var (cc, n1) := CBool(c, L(n.lab), L(n.lab + 1), n.(lab := n.lab + 3));
    var (ca, n2) := CStmt(a, n1, x);
    var q, s := p + |cc|, Running(p, vars, tmps);
    var tmps';
    j, tmps' := TestGoes(code, p, c, L(n.lab), L(n.lab + 1), n.(lab := n.lab + 3), vars, tmps, q, q + |ca| + 2);
    var (v, vars') := Eval(c, vars);
    var e := p + |CStmt(If(c, a, b), n, x).0| - 1;
    var w' := Here(e, n.lab + 2, n, x, w);
    JoinsAt(code, k, w, q + |ca| + 1, e, n.lab + 2, n, x, epi);
    JoinsAt(code, k, w, e, e, n.lab + 2, n, x, epi);
    if v != 0 {
      s', z' := Running(q + 1, vars', tmps'), Spot(n1, x, w');
    } else if b.Some? {
      s', z' := Running(q + |ca| + 3, vars', tmps'), Spot(n2, x, w');
    } else {
      PassLabel(code, q + |ca| + 3, L(n.lab + 2), vars', tmps');
      Then(code, s, j, Running(q + |ca| + 3, vars', tmps'), 1);
      j, s', z' := j + 1, Running(q + |ca| + 4, vars', tmps'), z;
    }
  }

  lemma WhileSteps(code: Code, c: Expr, b: Stmt, k: Kont, p: nat, vars: Store, tmps: Tmps, z: Spot, epi: Code, void: bool)
    returns (j: nat, s': State, z': Spot)
    requires Distinct(code) && SafeAt(c, vars)
    requires Tracked(code, Exec(While(c, b), k, vars), Running(p, vars, tmps), z, epi, void)
    ensures Simulates(code, Exec(While(c, b), k, vars), Running(p, vars, tmps), j, s', z', epi, void)
  {
    hide RunIR, At, Distinct, CBool, CStmt, Eval, SafeAt;
    var Spot(n, x, w) := z;
    WhileAt(code, p, c, b, n, x);
    var top, body, end, m := L(n.lab), L(n.lab + 1), L(n.lab + 2), n.(lab := n.lab + 3);
    var (cc, n1) := CBool(c, body, end, m);
    var q, r, s := p + 1 + |cc|, p + |CStmt(While(c, b), n, x).0| - 1, Running(p, vars, tmps);
    PassLabel(code, p, top, vars, tmps);
    var i, tmps' := TestGoes(code, p + 1, c, body, end, m, vars, tmps, q, r);
    Then(code, s, 1, Running(p + 1, vars, tmps), i);
    j := 1 + i;
    var (v, vars') := Eval(c, vars);
    if v != 0 {
      s', z' := Running(q + 1, vars', tmps'), Spot(n1, Enter(x, end, top), Here(p, 0, n, x, w));
    } else {
      s', z' := Running(r + 1, vars', tmps'), z;
    }
  }

  lemma DoSteps(code: Code, b: Stmt, c: Expr, k: Kont, p: nat, vars: Store, tmps: Tmps, z: Spot, epi: Code, void: bool)
    returns (j: nat, s': State, z': Spot)
    requires Tracked(code, Exec(Do(b, c), k, vars), Running(p, vars, tmps), z, epi, void)
    ensures Simulates(code, Exec(Do(b, c), k, vars), Running(p, vars, tmps), j, s', z', epi, void)
  {
    hide RunIR, At, CBool, CStmt, Eval;
    var Spot(n, x, w) := z;
    DoAt(code, p, b, c, n, x);
    PassLabel(code, p, L(n.lab), vars, tmps);
    j, s' := 1, Running(p + 1, vars, tmps);
    z' := Spot(n.(lab := n.lab + 3), Enter(x, L(n.lab + 2), L(n.lab + 1)), Here(p, 0, n, x, w));
  }

  lemma DoTestSteps(code: Code, b: Stmt, c: Expr, k: Kont, q: nat, vars: Store, tmps: Tmps, z: Spot, epi: Code, void: bool)
    returns (j: nat, s': State, z': Spot)
    requires Distinct(code) && SafeAt(c, vars)
    requires Tracked(code, Next(KDo(b, c, k), vars), Running(q, vars, tmps), z, epi, void)
    ensures Simulates(code, Next(KDo(b, c, k), vars), Running(q, vars, tmps), j, s', z', epi, void)
  {
    hide RunIR, At, Distinct, CBool, CStmt, Eval, SafeAt;
    var w := z.w;
    var n, x := w.n, w.x;
    DoAt(code, w.pos, b, c, n, x);
    var body, cond, end := L(n.lab), L(n.lab + 1), L(n.lab + 2);
    var (cb, n1) := CStmt(b, n.(lab := n.lab + 3), Enter(x, end, cond));
    var r, s := w.pos + |CStmt(Do(b, c), n, x).0| - 1, Running(q, vars, tmps);
    PassLabel(code, q, cond, vars, tmps);
    var i, tmps' := BranchTo(code, q + 1, c, body, end, n1, vars, tmps, w.pos, r);
    Then(code, s, 1, Running(q + 1, vars, tmps), i);
    var (v, vars') := Eval(c, vars);
    if v != 0 {
      j, s', z' := 1 + i, Running(w.pos, vars', tmps'), Spot(n, x, w.rest);
    } else {
      PassLabel(code, r, end, vars', tmps');
      Then(code, s, 1 + i, Running(r, vars', tmps'), 1);
      j, s', z' := 2 + i, Running(r + 1, vars', tmps'), Spot(n, x, w.rest);
    }
  }

  /** A test ends at one of its two labels. */
  lemma BranchTo(code: Code, p: nat, e: Expr, t: Label, f: Label, n: Ctr, vars: Store, tmps: Tmps, pt: nat, pf: nat)
    returns (j: nat, tmps': Tmps)
    requires Distinct(code) && At(code, p, CBool(e, t, f, n).0) && SafeAt(e, vars)
    requires pt < |code| && code[pt] == ILabel(t) && pf < |code| && code[pf] == ILabel(f)
    ensures RunIR(code, Running(p, vars, tmps), j)
         == Running(if Eval(e, vars).0 != 0 then pt else pf, Eval(e, vars).1, tmps')
  {
    hide RunIR, At, Where, Distinct, CBool, Eval, SafeAt, Has;
    LabelAt(code, pt, t);
    LabelAt(code, pf, f);
    j, tmps' := BoolRuns(code, p, e, t, f, n, vars, tmps);
  }

  lemma ForSteps(code: Code, s: Stmt, k: Kont, p: nat, vars: Store, tmps: Tmps, z: Spot, epi: Code, void: bool)
    returns (z': Spot)
    requires s.For?
    requires Tracked(code, Exec(s, k, vars), Running(p, vars, tmps), z, epi, void)
    ensures Simulates(code, Exec(s, k, vars), Running(p, vars, tmps), 0, Running(p, vars, tmps), z', epi, void)
  {
    hide RunIR, At, CLoop, CItems;
    var Spot(n, x, w) := z;
    var m := n.(lab := n.lab + 4);
    var (ci, n1) := CItems(s.init, m, x);
    AtSplit(code, p, ci, CLoop(s.cond, s.inc, s.body, n.lab, n1, x).0);
    Stay(code, Running(p, vars, tmps));
    z' := Spot(n, x, Here(0, 0, m, x, Here(0, n.lab, n1, x, w)));
    var k' := KForTest(s.cond, s.inc, s.body, k);
    assert SizeK(k') == 1 + SizeK(k) && Follows(code, k', z'.w.rest, p + |ci|, x, epi);
  }

  lemma ForTestSteps(code: Code, c: Option<Expr>, inc: Option<Expr>, b: Stmt, k: Kont, q: nat, vars: Store, tmps: Tmps,
                     z: Spot, epi: Code, void: bool)
    returns (j: nat, s': State, z': Spot)
    requires Distinct(code) && (c.Some? ==> SafeAt(c.value, vars))
    requires Tracked(code, Next(KForTest(c, inc, b, k), vars), Running(q, vars, tmps), z, epi, void)
    ensures Simulates(code, Next(KForTest(c, inc, b, k), vars), Running(q, vars, tmps), j, s', z', epi, void)
  {
    hide RunIR, At, Distinct, CBool, CStmt, CLoop, CStep, Eval, SafeAt, LoopHead;
    var Spot(_, x, w) := z;
    var lab, n := w.lab, w.n;
    LoopAt(code, q, c, inc, b, lab, n, x);
    var (cc, n1) := LoopTest(c, lab, n);
    var pb, pe, s := q + 1 + |cc|, q + |CLoop(c, inc, b, lab, n, x).0| - 1, Running(q, vars, tmps);
    PassLabel(code, q, L(lab), vars, tmps);
    var i, tmps', v, vars';
    if c.Some? {
      i, tmps' := TestGoes(code, q + 1, c.value, L(lab + 1), L(lab + 3), n, vars, tmps, pb, pe);
      v, vars' := Eval(c.value, vars).0, Eval(c.value, vars).1;
    } else {
      AtIndex(code, q + 1, cc, 0);
      JumpPast(code, q + 1, L(lab + 1), pb, vars, tmps);
      i, tmps', v, vars' := 2, tmps, 1, vars;
    }
    Then(code, s, 1, Running(q + 1, vars, tmps), i);
    j := 1 + i;
    if v != 0 {
      s', z' := Running(pb + 1, vars', tmps'), Spot(n1, Enter(x, L(lab + 3), L(lab + 2)), Here(q, lab, n, x, w.rest));
    } else {
      s', z' := Running(pe + 1, vars', tmps'), Spot(n, x, w.rest);
    }
  }

  lemma ForStepSteps(code: Code, c: Option<Expr>, inc: Option<Expr>, b: Stmt, k: Kont, q: nat, vars: Store, tmps: Tmps,
                     z: Spot, epi: Code, void: bool)
    returns (j: nat, s': State, z': Spot)
    requires Distinct(code) && (inc.Some? ==> SafeAt(inc.value, vars))
    requires Tracked(code, Next(KForStep(c, inc, b, k), vars), Running(q, vars, tmps), z, epi, void)
    ensures Simulates(code, Next(KForStep(c, inc, b, k), vars), Running(q, vars, tmps), j, s', z', epi, void)
  {
    hide RunIR, At, Distinct, CExpr, CStmt, CLoop, Eval, SafeAt, LoopHead, LoopTest;
    var w := z.w;
    var lab, n, x := w.lab, w.n, w.x;
    LoopAt(code, w.pos, c, inc, b, lab, n, x);
    var n2 := CStmt(b, LoopTest(c, lab, n).1, Enter(x, L(lab + 3), L(lab + 2))).1;
    var ci, s := CStep(inc, n2).0, Running(q, vars, tmps);
    PassLabel(code, q, L(lab + 2), vars, tmps);
    var i, tmps' := MaybeRuns(code, q + 1, inc, n2, vars, tmps);
    Then(code, s, 1, Running(q + 1, vars, tmps), i);
    var r, vars' := q + 1 + |ci|, Maybe(inc, vars);
    JumpTo(code, r, L(lab), w.pos, vars', tmps');
    Then(code, s, 1 + i, Running(r, vars', tmps'), 1);
    j, s', z' := i + 2, Running(w.pos, vars', tmps'), Spot(n, x, Here(0, lab, n, x, w.rest));
  }

  lemma MaybeRuns(code: Code, p: nat, e: Option<Expr>, n: Ctr, vars: Store, tmps: Tmps) returns (j: nat, tmps': Tmps)
    requires Distinct(code) && At(code, p, CStep(e, n).0) && (e.Some? ==> SafeAt(e.value, vars))
    ensures RunIR(code, Running(p, vars, tmps), j) == Running(p + |CStep(e, n).0|, Maybe(e, vars), tmps')
  {
    hide RunIR, At, Distinct, CExpr, Eval, SafeAt;
    if e.Some? {
      j, tmps' := ExprRuns(code, p, e.value, n, vars, tmps);
    } else {
      Stay(code, Running(p, vars, tmps));
      j, tmps' := 0, tmps;
    }
  }
}
