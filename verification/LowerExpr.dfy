/** Emitted expression code computes what the expression means, although a variable operand is its
    storage and is read only when the instruction that uses it runs. */
module LowerExpr {
  import opened Options
  import opened CLang
  import opened IR
  import opened Lowering

  // ---- places in code ----

  predicate At(code: Code, p: nat, c: Code) { p + |c| <= |code| && code[p..p + |c|] == c }

  lemma AtSplit(code: Code, p: nat, a: Code, b: Code)
    requires At(code, p, a + b)
    ensures At(code, p, a) && At(code, p + |a|, b)
  {
    assert code[p..p + |a|] == (a + b)[..|a|];
    assert code[p + |a|..p + |a + b|] == (a + b)[|a|..];
  }

  lemma AtIndex(code: Code, p: nat, c: Code, i: nat)
    requires At(code, p, c) && i < |c|
    ensures p + i < |code| && code[p + i] == c[i]
  {
    assert code[p..p + |c|][i] == c[i];
  }

  // ---- runs ----

  lemma Then(code: Code, s: State, k: nat, t: State, m: nat)
    requires RunIR(code, s, k) == t
    ensures RunIR(code, s, k + m) == RunIR(code, t, m)
  {
    RunIRTrans(code, s, k, m);
  }

  lemma Extend1(code: Code, s: State, k: nat)
    ensures RunIR(code, s, k + 1) == StepIR(code, RunIR(code, s, k))
  {
    Then(code, s, k, RunIR(code, s, k), 1);
    assert RunIR(code, StepIR(code, RunIR(code, s, k)), 0) == StepIR(code, RunIR(code, s, k));
  }

  predicate Has(code: Code, l: Label) { Where(code, l) < |code| }

  lemma LabelAt(code: Code, p: nat, l: Label)
    requires Distinct(code) && p < |code| && code[p] == ILabel(l)
    ensures Has(code, l) && Where(code, l) == p
  {
    WhereIs(code, p);
  }

  predicate Simple(i: Instr) { i.IBin? || i.IUn? || i.SetVar? || i.SetTmp? || i.ILabel? }

  /** What one instruction does before control passes to the next. */
  function After(i: Instr, vars: Store, tmps: Tmps): (Store, Tmps)
    requires Simple(i)
  {
    match i
    case IBin(dst, op, a, b) => (vars, tmps[dst := Apply(op, ValueOf(a, vars, tmps), ValueOf(b, vars, tmps))])
    case IUn(dst, op, a) => (vars, tmps[dst := ApplyUn(op, ValueOf(a, vars, tmps))])
    case SetVar(x, a) => (vars[x := ValueOf(a, vars, tmps)], tmps)
    case SetTmp(k, a) => (vars, tmps[k := ValueOf(a, vars, tmps)])
    case ILabel(_) => (vars, tmps)
  }

  /** A run that has come to p goes on past the instruction there. */
  lemma Extend(code: Code, s: State, k: nat, p: nat, vars: Store, tmps: Tmps, i: Instr)
    requires RunIR(code, s, k) == Running(p, vars, tmps)
    requires p < |code| && code[p] == i && Simple(i)
    ensures RunIR(code, s, k + 1) == Running(p + 1, After(i, vars, tmps).0, After(i, vars, tmps).1)
  {
    Extend1(code, s, k);
  }

  lemma ExtendJump(code: Code, s: State, k: nat, p: nat, vars: Store, tmps: Tmps, l: Label)
    requires RunIR(code, s, k) == Running(p, vars, tmps)
    requires p < |code| && code[p] == Jump(l) && Has(code, l)
    ensures RunIR(code, s, k + 1) == Running(Where(code, l), vars, tmps)
  {
    Extend1(code, s, k);
  }

  lemma ExtendBranch(code: Code, s: State, k: nat, p: nat, vars: Store, tmps: Tmps, a: Operand, f: Label)
    requires RunIR(code, s, k) == Running(p, vars, tmps)
    requires p < |code| && code[p] == BranchZ(a, f) && Has(code, f)
    ensures RunIR(code, s, k + 1) == Running(if ValueOf(a, vars, tmps) == 0 then Where(code, f) else p + 1, vars, tmps)
  {
    Extend1(code, s, k);
  }

  // ---- late reads ----

  /** The variable whose storage the value of e is handed over as, if it is. */
  function Handle(e: Expr): Option<Name> {
    match e
    case Var(x) => Some(x)
    case Assign(x, _) => Some(x)
    case Comma(_, r) => Handle(r)
    case _ => None
  }

  /** In the evaluation from s no handle is read after another operand has changed the variable. */
  predicate SafeAt(e: Expr, s: Store) {
    match e
    case Const(_) => true
    case Var(_) => true
    case Binary(_, l, r) =>
      var s1 := Eval(l, s).1;
      && SafeAt(l, s) && SafeAt(r, s1)
      && (Handle(l).Some? ==> Get(Eval(r, s1).1, Handle(l).value) == Get(s1, Handle(l).value))
    case Unary(_, x) => SafeAt(x, s)
    case LAnd(l, r) => SafeAt(l, s) && (Eval(l, s).0 != 0 ==> SafeAt(r, Eval(l, s).1))
    case LOr(l, r) => SafeAt(l, s) && (Eval(l, s).0 == 0 ==> SafeAt(r, Eval(l, s).1))
    case Cond(c, l, r) => SafeAt(c, s) && SafeAt(if Eval(c, s).0 != 0 then l else r, Eval(c, s).1)
    case Comma(l, r) => SafeAt(l, s) && SafeAt(r, Eval(l, s).1)
    case Assign(_, r) => SafeAt(r, s)
    case AssignOp(_, x, r) => SafeAt(r, s) && Get(Eval(r, s).1, x) == Get(s, x)
    case PreStep(_, _) => true
    case PostStep(_, _) => true
  }

  lemma {:induction false} HandleSeen(e: Expr, s: Store)
    ensures Handle(e).Some? ==> Handle(e).value in ReadsIn(e, s) + WritesIn(e, s)
  {
    match e
    case Comma(l, r) => HandleSeen(r, Eval(l, s).1);
    case _ =>
  }

  /** An evaluation that meets no unsequenced conflict is safe. */
  lemma {:induction false} NoConflictIsSafe(e: Expr, s: Store)
    requires NoConflictIn(e, s)
    ensures SafeAt(e, s)
  {
    match e
    case Binary(_, l, r) =>
      NoConflictIsSafe(l, s);
      NoConflictIsSafe(r, Eval(l, s).1);
      HandleSeen(l, s);
      if Handle(l).Some? { EvalKeeps(r, Eval(l, s).1, Handle(l).value); }
    case Unary(_, x) => NoConflictIsSafe(x, s);
    case LAnd(l, r) =>
      NoConflictIsSafe(l, s);
      if Eval(l, s).0 != 0 { NoConflictIsSafe(r, Eval(l, s).1); }
    case LOr(l, r) =>
      NoConflictIsSafe(l, s);
      if Eval(l, s).0 == 0 { NoConflictIsSafe(r, Eval(l, s).1); }
    case Cond(c, l, r) =>
      NoConflictIsSafe(c, s);
      NoConflictIsSafe(if Eval(c, s).0 != 0 then l else r, Eval(c, s).1);
    case Comma(l, r) =>
      NoConflictIsSafe(l, s);
      NoConflictIsSafe(r, Eval(l, s).1);
    case Assign(_, r) => NoConflictIsSafe(r, s);
    case AssignOp(_, x, r) =>
      NoConflictIsSafe(r, s);
      EvalKeeps(r, s, x);
    case _ =>
  }

  /** Evaluation leaves alone what it does not write. */
  lemma EvalKeeps(e: Expr, s: Store, x: Name)
    requires x !in WritesIn(e, s)
    ensures Get(Eval(e, s).1, x) == Get(s, x)
  {
    SelfAgree(ReadsIn(e, s), s);
    EvalFrame(e, s, s);
    EffectAt(s, Eval(e, s).1, s, Eval(e, s).1, WritesIn(e, s), x);
  }

  /** A conflict with an operand that does not run is none: x + (c && (x = 1)) where c is zero. */
  lemma UnreachedConflict(s: Store)
    requires Get(s, "c") == 0
    ensures var e := Binary(Add, Var("x"), LAnd(Var("c"), Assign("x", Const(1))));
      !NoConflict(e) && NoConflictIn(e, s)
  {
    var r := LAnd(Var("c"), Assign("x", Const(1)));
    assert "c"[0] != "x"[0];
    assert "x" in Writes(r) && "x" in Reads(Var("x"));
    assert WritesIn(r, s) == {} && ReadsIn(r, s) == {"c"};
  }

  // ---- temporaries ----

  /** Temporaries below lo are as they were. */
  ghost predicate Kept(t: Tmps, t': Tmps, lo: nat) {
    forall i :: 0 <= i < lo ==> (i in t <==> i in t') && (i in t ==> t[i] == t'[i])
  }

  lemma KeptTrans(t: Tmps, t1: Tmps, t2: Tmps, lo: nat, mid: nat)
    requires Kept(t, t1, lo) && Kept(t1, t2, mid) && lo <= mid
    ensures Kept(t, t2, lo)
  {}

  /** Where the value of e is found: a constant, the handle, or a temporary made for it. */
  lemma {:induction false} OperandIs(e: Expr, n: Ctr)
    ensures var (_, a, n1) := CExpr(e, n);
            && n.tmp <= n1.tmp
            && match a
               case Imm(_) => true
               case VarOp(x) => Handle(e) == Some(x)
               case TmpOp(k) => n.tmp <= k < n1.tmp
    decreases e, Short(e)
  {
    match e
    case Binary(_, l, r) =>
      OperandIs(l, n);
      OperandIs(r, CExpr(l, n).2);
    case Unary(_, x) => OperandIs(x, n);
    case LAnd(_, _) => BoolGrows(e, L(n.lab), L(n.lab + 1), Ctr(n.lab + 3, n.tmp + 1));
    case LOr(_, _) => BoolGrows(e, L(n.lab), L(n.lab + 1), Ctr(n.lab + 3, n.tmp + 1));
    case Cond(c, l, r) =>
      var tl, fl, m := L(n.lab), L(n.lab + 1), Ctr(n.lab + 3, n.tmp + 1);
      BoolGrows(c, tl, fl, m);
      OperandIs(l, CBool(c, tl, fl, m).1);
      OperandIs(r, CExpr(l, CBool(c, tl, fl, m).1).2);
    case Comma(l, r) =>
      OperandIs(l, n);
      OperandIs(r, CExpr(l, n).2);
    case Assign(_, r) => OperandIs(r, n);
    case AssignOp(_, _, r) => OperandIs(r, n);
    case _ =>
  }

  lemma {:induction false} BoolGrows(e: Expr, t: Label, f: Label, n: Ctr)
    ensures n.tmp <= CBool(e, t, f, n).1.tmp
    decreases e, 1 - Short(e)
  {
    match e
    case LAnd(l, r) =>
      BoolGrows(l, L(n.lab), f, n.(lab := n.lab + 1));
      BoolGrows(r, t, f, CBool(l, L(n.lab), f, n.(lab := n.lab + 1)).1);
    case LOr(l, r) =>
      BoolGrows(l, t, L(n.lab), n.(lab := n.lab + 1));
      BoolGrows(r, t, f, CBool(l, t, L(n.lab), n.(lab := n.lab + 1)).1);
    case Unary(Not, x) => BoolGrows(x, f, t, n);
    case _ => OperandIs(e, n);
  }

  /** The value found after l is still found after code that keeps its temporaries, if its handle is not
      changed. */
  lemma StillThere(l: Expr, r: Expr, n: Ctr, vars: Store, tmps: Tmps, tmps': Tmps)
    requires Handle(l).Some? ==> Get(Eval(r, vars).1, Handle(l).value) == Get(vars, Handle(l).value)
    requires Kept(tmps, tmps', CExpr(l, n).2.tmp)
    ensures ValueOf(CExpr(l, n).1, Eval(r, vars).1, tmps') == ValueOf(CExpr(l, n).1, vars, tmps)
  {
    OperandIs(l, n);
    hide CExpr, Eval;
  }

  // ---- correctness ----

  /** From p the code of e runs to its end with the store of the evaluation and the value in the operand. */
  ghost predicate Computes(code: Code, p: nat, e: Expr, n: Ctr, vars: Store, tmps: Tmps, k: nat, tmps': Tmps) {
    var (c, a, n1) := CExpr(e, n);
    var (v, vars') := Eval(e, vars);
    && RunIR(code, Running(p, vars, tmps), k) == Running(p + |c|, vars', tmps')
    && ValueOf(a, vars', tmps') == v
    && Kept(tmps, tmps', n.tmp)
  }

  /** From p the code of the test e ends at t or at f, as e is not zero or zero. */
  ghost predicate Decides(code: Code, p: nat, e: Expr, t: Label, f: Label, n: Ctr, vars: Store, tmps: Tmps, k: nat,
                          tmps': Tmps)
  {
    var (v, vars') := Eval(e, vars);
    && RunIR(code, Running(p, vars, tmps), k) == Running(Where(code, if v != 0 then t else f), vars', tmps')
    && Kept(tmps, tmps', n.tmp) && k > 0
  }

  lemma {:induction false} ExprRuns(code: Code, p: nat, e: Expr, n: Ctr, vars: Store, tmps: Tmps)
    returns (k: nat, tmps': Tmps)
    requires Distinct(code) && At(code, p, CExpr(e, n).0) && SafeAt(e, vars)
    ensures Computes(code, p, e, n, vars, tmps, k, tmps')
    decreases e, Short(e)
  {
    hide RunIR, At, Where, Distinct, Computes;
    match e
    case Const(_) => k, tmps' := LeafRuns(code, p, e, n, vars, tmps);
    case Var(_) => k, tmps' := LeafRuns(code, p, e, n, vars, tmps);
    case Binary(_, _, _) => k, tmps' := BinaryRuns(code, p, e, n, vars, tmps);
    case Unary(_, _) => k, tmps' := UnaryRuns(code, p, e, n, vars, tmps);
    case LAnd(_, _) => k, tmps' := TruthRuns(code, p, e, n, vars, tmps);
    case LOr(_, _) => k, tmps' := TruthRuns(code, p, e, n, vars, tmps);
    case Cond(_, _, _) => k, tmps' := CondRuns(code, p, e, n, vars, tmps);
    case Comma(_, _) => k, tmps' := CommaRuns(code, p, e, n, vars, tmps);
    case Assign(_, _) => k, tmps' := AssignRuns(code, p, e, n, vars, tmps);
    case AssignOp(_, _, _) => k, tmps' := UpdateRuns(code, p, e, n, vars, tmps);
    case PreStep(_, _) => k, tmps' := PreRuns(code, p, e, n, vars, tmps);
    case PostStep(_, _) => k, tmps' := PostRuns(code, p, e, n, vars, tmps);
  }

  lemma LeafRuns(code: Code, p: nat, e: Expr, n: Ctr, vars: Store, tmps: Tmps) returns (k: nat, tmps': Tmps)
    requires e.Const? || e.Var?
    ensures Computes(code, p, e, n, vars, tmps, k, tmps')
  {
    k, tmps' := 0, tmps;
    Stay(code, Running(p, vars, tmps));
  }

  lemma {:induction false} UnaryRuns(code: Code, p: nat, e: Expr, n: Ctr, vars: Store, tmps: Tmps)
    returns (k: nat, tmps': Tmps)
    requires e.Unary?
    requires Distinct(code) && At(code, p, CExpr(e, n).0) && SafeAt(e, vars)
    ensures Computes(code, p, e, n, vars, tmps, k, tmps')
    decreases e, 0, 0
  {
    hide RunIR, At, Where, Distinct;
    var (c, a, n1) := CExpr(e.e, n);
    var i := IUn(n1.tmp, e.uop, a);
    AtSplit(code, p, c, [i]);
    AtIndex(code, p + |c|, [i], 0);
    k, tmps' := ExprRuns(code, p, e.e, n, vars, tmps);
    OperandIs(e.e, n);
    var vars' := Eval(e.e, vars).1;
    Extend(code, Running(p, vars, tmps), k, p + |c|, vars', tmps', i);
    k, tmps' := k + 1, After(i, vars', tmps').1;
  }

  lemma {:induction false} CommaRuns(code: Code, p: nat, e: Expr, n: Ctr, vars: Store, tmps: Tmps)
    returns (k: nat, tmps': Tmps)
    requires e.Comma?
    requires Distinct(code) && At(code, p, CExpr(e, n).0) && SafeAt(e, vars)
    ensures Computes(code, p, e, n, vars, tmps, k, tmps')
    decreases e, 0, 0
  {
    hide RunIR, At, Where, Distinct;
    var (cl, _, n1) := CExpr(e.l, n);
    AtSplit(code, p, cl, CExpr(e.r, n1).0);
    var vars1 := Eval(e.l, vars).1;
    var tmps1, m;
    k, tmps1 := ExprRuns(code, p, e.l, n, vars, tmps);
    m, tmps' := ExprRuns(code, p + |cl|, e.r, n1, vars1, tmps1);
    OperandIs(e.l, n);
    KeptTrans(tmps, tmps1, tmps', n.tmp, n1.tmp);
    Then(code, Running(p, vars, tmps), k, Running(p + |cl|, vars1, tmps1), m);
    k := k + m;
  }

  lemma {:induction false} AssignRuns(code: Code, p: nat, e: Expr, n: Ctr, vars: Store, tmps: Tmps)
    returns (k: nat, tmps': Tmps)
    requires e.Assign?
    requires Distinct(code) && At(code, p, CExpr(e, n).0) && SafeAt(e, vars)
    ensures Computes(code, p, e, n, vars, tmps, k, tmps')
    decreases e, 0, 0
  {
    hide RunIR, At, Where, Distinct;
    var (c, a, _) := CExpr(e.e, n);
    var i := SetVar(e.x, a);
    AtSplit(code, p, c, [i]);
    AtIndex(code, p + |c|, [i], 0);
    k, tmps' := ExprRuns(code, p, e.e, n, vars, tmps);
    Extend(code, Running(p, vars, tmps), k, p + |c|, Eval(e.e, vars).1, tmps', i);
    k := k + 1;
  }

  lemma PreRuns(code: Code, p: nat, e: Expr, n: Ctr, vars: Store, tmps: Tmps) returns (k: nat, tmps': Tmps)
    requires e.PreStep? && At(code, p, CExpr(e, n).0)
    ensures Computes(code, p, e, n, vars, tmps, k, tmps')
  {
    hide RunIR, At;
    var s := Running(p, vars, tmps);
    var i, j := IBin(n.tmp, e.op, VarOp(e.x), Imm(1)), SetVar(e.x, TmpOp(n.tmp));
    AtIndex(code, p, [i, j], 0);
    AtIndex(code, p, [i, j], 1);
    Stay(code, s);
    Extend(code, s, 0, p, vars, tmps, i);
    tmps' := After(i, vars, tmps).1;
    Extend(code, s, 1, p + 1, vars, tmps', j);
    k := 2;
  }

  lemma Stay(code: Code, s: State)
    ensures RunIR(code, s, 0) == s
  {}

  lemma PostRuns(code: Code, p: nat, e: Expr, n: Ctr, vars: Store, tmps: Tmps) returns (k: nat, tmps': Tmps)
    requires e.PostStep? && At(code, p, CExpr(e, n).0)
    ensures Computes(code, p, e, n, vars, tmps, k, tmps')
  {
    hide RunIR, At;
    var s := Running(p, vars, tmps);
    var h, i, j := SetTmp(n.tmp, VarOp(e.x)), IBin(n.tmp + 1, e.op, VarOp(e.x), Imm(1)), SetVar(e.x, TmpOp(n.tmp + 1));
    AtIndex(code, p, [h, i, j], 0);
    AtIndex(code, p, [h, i, j], 1);
    AtIndex(code, p, [h, i, j], 2);
    Stay(code, s);
    Extend(code, s, 0, p, vars, tmps, h);
    var tmps1 := After(h, vars, tmps).1;
    Extend(code, s, 1, p + 1, vars, tmps1, i);
    tmps' := After(i, vars, tmps1).1;
    Extend(code, s, 2, p + 2, vars, tmps', j);
    k := 3;
  }

  lemma {:induction false} UpdateRuns(code: Code, p: nat, e: Expr, n: Ctr, vars: Store, tmps: Tmps)
    returns (k: nat, tmps': Tmps)
    requires e.AssignOp?
    requires Distinct(code) && At(code, p, CExpr(e, n).0) && SafeAt(e, vars)
    ensures Computes(code, p, e, n, vars, tmps, k, tmps')
    decreases e, 0, 0
  {
    hide RunIR, At, Where, Distinct;
    var AssignOp(op, x, r) := e;
    var s := Running(p, vars, tmps);
    var (c, b, n1) := CExpr(r, n);
    var i, j := IBin(n1.tmp, op, VarOp(x), b), SetVar(x, TmpOp(n1.tmp));
    AtSplit(code, p, c, [i, j]);
    AtIndex(code, p + |c|, [i, j], 0);
    AtIndex(code, p + |c|, [i, j], 1);
    k, tmps' := ExprRuns(code, p, r, n, vars, tmps);
    OperandIs(r, n);
    var vars1 := Eval(r, vars).1;
    Extend(code, s, k, p + |c|, vars1, tmps', i);
    var tmps1 := After(i, vars1, tmps').1;
    Extend(code, s, k + 1, p + |c| + 1, vars1, tmps1, j);
    KeptTrans(tmps, tmps', tmps1, n.tmp, n1.tmp);
    k, tmps' := k + 2, tmps1;
  }

  lemma BinaryParts(op: BinOp, l: Expr, r: Expr, n: Ctr, s: Store)
    requires SafeAt(Binary(op, l, r), s)
    ensures var (cl, a, n1) := CExpr(l, n);
            var (cr, b, n2) := CExpr(r, n1);
            CExpr(Binary(op, l, r), n) == (cl + cr + [IBin(n2.tmp, op, a, b)], TmpOp(n2.tmp), n2.(tmp := n2.tmp + 1))
    ensures var (v, s1) := Eval(l, s);
            var (w, s2) := Eval(r, s1);
            && Eval(Binary(op, l, r), s) == (Apply(op, v, w), s2) && SafeAt(l, s) && SafeAt(r, s1)
            && (Handle(l).Some? ==> Get(s2, Handle(l).value) == Get(s1, Handle(l).value))
  {}

  lemma {:induction false} BinaryRuns(code: Code, p: nat, e: Expr, n: Ctr, vars: Store, tmps: Tmps)
    returns (k: nat, tmps': Tmps)
    requires e.Binary?
    requires Distinct(code) && At(code, p, CExpr(e, n).0) && SafeAt(e, vars)
    ensures Computes(code, p, e, n, vars, tmps, k, tmps')
    decreases e, 0, 0
  {
    hide RunIR, At, Where, Distinct, SafeAt, CExpr, Eval;
    var Binary(op, l, r) := e;
    BinaryParts(op, l, r, n, vars);
    var s := Running(p, vars, tmps);
    var (cl, a, n1) := CExpr(l, n);
    var (cr, b, n2) := CExpr(r, n1);
    var i := IBin(n2.tmp, op, a, b);
    AtSplit(code, p, cl + cr, [i]);
    AtSplit(code, p, cl, cr);
    AtIndex(code, p + |cl + cr|, [i], 0);
    var vars1 := Eval(l, vars).1;
    var tmps1, m;
    k, tmps1 := ExprRuns(code, p, l, n, vars, tmps);
    var tmps2;
    m, tmps2 := ExprRuns(code, p + |cl|, r, n1, vars1, tmps1);
    Then(code, s, k, Running(p + |cl|, vars1, tmps1), m);
    OperandIs(l, n);
    OperandIs(r, n1);
    StillThere(l, r, n, vars1, tmps1, tmps2);
    var vars2 := Eval(r, vars1).1;
    Extend(code, s, k + m, p + |cl + cr|, vars2, tmps2, i);
    k, tmps' := k + m + 1, After(i, vars2, tmps2).1;
    KeptTrans(tmps, tmps1, tmps2, n.tmp, n1.tmp);
    KeptTrans(tmps, tmps2, tmps', n.tmp, n2.tmp);
  }

  lemma TruthParts(e: Expr, n: Ctr, k: nat, tl: Label, fl: Label, end: Label, m: Ctr, s: Store)
    requires e.LAnd? || e.LOr?
    requires k == n.tmp && tl == L(n.lab) && fl == L(n.lab + 1) && end == L(n.lab + 2)
    requires m == Ctr(n.lab + 3, n.tmp + 1)
    ensures CExpr(e, n).0 == CBool(e, tl, fl, m).0
                             + [ILabel(tl), SetTmp(k, Imm(1)), Jump(end), ILabel(fl), SetTmp(k, Imm(0)), ILabel(end)]
    ensures CExpr(e, n).1 == TmpOp(k)
    ensures Eval(e, s).0 == Truth(Eval(e, s).0 != 0)
  {}

  lemma {:induction false} TruthRuns(code: Code, p: nat, e: Expr, n: Ctr, vars: Store, tmps: Tmps)
    returns (k: nat, tmps': Tmps)
    requires e.LAnd? || e.LOr?
    requires Distinct(code) && At(code, p, CExpr(e, n).0) && SafeAt(e, vars)
    ensures Computes(code, p, e, n, vars, tmps, k, tmps')
    decreases e, 0, 2
  {
    hide RunIR, At, Where, Distinct, CBool, CExpr, Eval, SafeAt, Has;
    var s, j := Running(p, vars, tmps), n.tmp;
    var tl, fl, end, m := L(n.lab), L(n.lab + 1), L(n.lab + 2), Ctr(n.lab + 3, n.tmp + 1);
    TruthParts(e, n, j, tl, fl, end, m, vars);
    var (cc, n1) := CBool(e, tl, fl, m);
    var tail := [ILabel(tl), SetTmp(j, Imm(1)), Jump(end), ILabel(fl), SetTmp(j, Imm(0)), ILabel(end)];
    AtSplit(code, p, cc, tail);
    var q := p + |cc|;
    AtIndex(code, q, tail, 0);
    AtIndex(code, q, tail, 1);
    AtIndex(code, q, tail, 2);
    AtIndex(code, q, tail, 3);
    AtIndex(code, q, tail, 4);
    AtIndex(code, q, tail, 5);
    LabelAt(code, q, tl);
    LabelAt(code, q + 3, fl);
    LabelAt(code, q + 5, end);
    var tmps1;
    k, tmps1 := BoolRuns(code, p, e, tl, fl, m, vars, tmps);
    var (v, vars1) := Eval(e, vars);
    if v != 0 {
      Extend(code, s, k, q, vars1, tmps1, ILabel(tl));
      Extend(code, s, k + 1, q + 1, vars1, tmps1, SetTmp(j, Imm(1)));
      tmps' := tmps1[j := 1];
      ExtendJump(code, s, k + 2, q + 2, vars1, tmps', end);
      Extend(code, s, k + 3, q + 5, vars1, tmps', ILabel(end));
      k := k + 4;
    } else {
      Extend(code, s, k, q + 3, vars1, tmps1, ILabel(fl));
      Extend(code, s, k + 1, q + 4, vars1, tmps1, SetTmp(j, Imm(0)));
      tmps' := tmps1[j := 0];
      Extend(code, s, k + 2, q + 5, vars1, tmps', ILabel(end));
      k := k + 3;
    }
    BoolGrows(e, tl, fl, m);
  }

  /** The code of a conditional expression in its parts. */
  lemma CondParts(c: Expr, l: Expr, r: Expr, n: Ctr, k: nat, tl: Label, fl: Label, end: Label, m: Ctr)
    requires k == n.tmp && tl == L(n.lab) && fl == L(n.lab + 1) && end == L(n.lab + 2)
    requires m == Ctr(n.lab + 3, n.tmp + 1)
    ensures var (cc, n1) := CBool(c, tl, fl, m);
            var (cl, a, n2) := CExpr(l, n1);
            var (cr, b, n3) := CExpr(r, n2);
            CExpr(Cond(c, l, r), n) == (cc + ([ILabel(tl)] + cl + [SetTmp(k, a), Jump(end)])
                                           + ([ILabel(fl)] + cr + [SetTmp(k, b), ILabel(end)]), TmpOp(k), n3)
  {}

  lemma {:induction false} CondRuns(code: Code, p: nat, e: Expr, n: Ctr, vars: Store, tmps: Tmps)
    returns (k: nat, tmps': Tmps)
    requires e.Cond?
    requires Distinct(code) && At(code, p, CExpr(e, n).0) && SafeAt(e, vars)
    ensures Computes(code, p, e, n, vars, tmps, k, tmps')
    decreases e, 0, 2
  {
    hide RunIR, At, Where, Distinct, CBool, Kept, CExpr, Eval, Has;
    var Cond(c, l, r) := e;
    var s, j := Running(p, vars, tmps), n.tmp;
    var tl, fl, end, m := L(n.lab), L(n.lab + 1), L(n.lab + 2), Ctr(n.lab + 3, n.tmp + 1);
    var (cc, n1) := CBool(c, tl, fl, m);
    var (cl, a, n2) := CExpr(l, n1);
    var (cr, b, n3) := CExpr(r, n2);
    CondParts(c, l, r, n, j, tl, fl, end, m);
    var armT, armF := [ILabel(tl)] + cl + [SetTmp(j, a), Jump(end)], [ILabel(fl)] + cr + [SetTmp(j, b), ILabel(end)];
    AtSplit(code, p, cc + armT, armF);
    AtSplit(code, p, cc, armT);
    var q, w := p + |cc|, p + |cc + armT|;
    ArmAt(code, q, tl, cl, SetTmp(j, a), Jump(end));
    ArmAt(code, w, fl, cr, SetTmp(j, b), ILabel(end));
    LabelAt(code, q, tl);
    LabelAt(code, w, fl);
    LabelAt(code, w + |cr| + 2, end);
    BoolGrows(c, tl, fl, m);
    OperandIs(l, n1);
    var tmps1, i;
    k, tmps1 := BoolRuns(code, p, c, tl, fl, m, vars, tmps);
    var (v, vars1) := Eval(c, vars);
    if v != 0 {
      i, tmps' := ArmRuns(code, q, tl, l, j, n1, vars1, tmps1);
      Then(code, s, k, Running(q, vars1, tmps1), i);
      ExtendJump(code, s, k + i, q + |cl| + 2, Eval(l, vars1).1, tmps', end);
      Extend(code, s, k + i + 1, w + |cr| + 2, Eval(l, vars1).1, tmps', ILabel(end));
      k := k + i + 2;
    } else {
      i, tmps' := ArmRuns(code, w, fl, r, j, n2, vars1, tmps1);
      Then(code, s, k, Running(w, vars1, tmps1), i);
      Extend(code, s, k + i, w + |cr| + 2, Eval(r, vars1).1, tmps', ILabel(end));
      k := k + i + 1;
    }
    KeptLess(tmps, tmps1, tmps', n.tmp);
    EvalCond(c, l, r, vars);
  }

  lemma EvalCond(c: Expr, l: Expr, r: Expr, s: Store)
    ensures var (v, s1) := Eval(c, s); Eval(Cond(c, l, r), s) == Eval(if v != 0 then l else r, s1)
  {}

  /** One arm: past its label, through its expression, its value copied out. */
  lemma {:induction false} ArmRuns(code: Code, q: nat, lab: Label, e: Expr, j: nat, n: Ctr, vars: Store, tmps: Tmps)
    returns (k: nat, tmps': Tmps)
    requires j < n.tmp
    requires Distinct(code) && At(code, q + 1, CExpr(e, n).0) && SafeAt(e, vars)
    requires var (c, a, _) := CExpr(e, n);
             q + |c| + 1 < |code| && code[q] == ILabel(lab) && code[q + |c| + 1] == SetTmp(j, a)
    ensures RunIR(code, Running(q, vars, tmps), k) == Running(q + |CExpr(e, n).0| + 2, Eval(e, vars).1, tmps')
    ensures ValueOf(TmpOp(j), Eval(e, vars).1, tmps') == Eval(e, vars).0 && Kept(tmps, tmps', j)
    decreases e, 2
  {
    hide RunIR, At, Where, Distinct, CExpr, Eval;
    var s := Running(q, vars, tmps);
    var (c, a, _) := CExpr(e, n);
    var vars' := Eval(e, vars).1;
    Stay(code, s);
    Extend(code, s, 0, q, vars, tmps, ILabel(lab));
    var i, tmps1 := ExprRuns(code, q + 1, e, n, vars, tmps);
    Then(code, s, 1, Running(q + 1, vars, tmps), i);
    Extend(code, s, 1 + i, q + 1 + |c|, vars', tmps1, SetTmp(j, a));
    k, tmps' := i + 2, After(SetTmp(j, a), vars', tmps1).1;
  }

  lemma KeptLess(t: Tmps, t1: Tmps, t2: Tmps, lo: nat)
    requires Kept(t, t1, lo + 1) && Kept(t1, t2, lo)
    ensures Kept(t, t2, lo)
  {}

  lemma ArmAt(code: Code, q: nat, l: Label, c: Code, i: Instr, j: Instr)
    requires At(code, q, [ILabel(l)] + c + [i, j])
    ensures At(code, q + 1, c) && q + |c| + 2 < |code|
    ensures code[q] == ILabel(l) && code[q + 1 + |c|] == i && code[q + |c| + 2] == j
  {
    hide At;
    var h, t := [ILabel(l)], [i, j];
    AtSplit(code, q, h + c, t);
    AtSplit(code, q, h, c);
    AtIndex(code, q, h, 0);
    AtIndex(code, q + |h + c|, t, 0);
    AtIndex(code, q + |h + c|, t, 1);
  }

  lemma {:induction false} BoolRuns(code: Code, p: nat, e: Expr, t: Label, f: Label, n: Ctr, vars: Store, tmps: Tmps)
    returns (k: nat, tmps': Tmps)
    requires Distinct(code) && At(code, p, CBool(e, t, f, n).0) && SafeAt(e, vars) && Has(code, t) && Has(code, f)
    ensures Decides(code, p, e, t, f, n, vars, tmps, k, tmps')
    decreases e, 1 - Short(e), 1
  {
    hide RunIR, At, Where, Distinct, Has;
    match e
    case LAnd(_, _) => k, tmps' := ShortRuns(code, p, e, t, f, n, vars, tmps);
    case LOr(_, _) => k, tmps' := ShortRuns(code, p, e, t, f, n, vars, tmps);
    case Unary(Not, x) => k, tmps' := BoolRuns(code, p, x, f, t, n, vars, tmps);
    case _ =>
      assert CBool(e, t, f, n).0 == CExpr(e, n).0 + [BranchZ(CExpr(e, n).1, f), Jump(t)];
      k, tmps' := TestRuns(code, p, e, t, f, n, vars, tmps);
  }

  /** A test with nothing to short-circuit. */
  lemma {:induction false} TestRuns(code: Code, p: nat, e: Expr, t: Label, f: Label, n: Ctr, vars: Store, tmps: Tmps)
    returns (k: nat, tmps': Tmps)
    requires Short(e) == 0
    requires Distinct(code) && At(code, p, CExpr(e, n).0 + [BranchZ(CExpr(e, n).1, f), Jump(t)])
    requires SafeAt(e, vars) && Has(code, t) && Has(code, f)
    ensures Decides(code, p, e, t, f, n, vars, tmps, k, tmps')
    decreases e, 1, 0
  {
    hide RunIR, At, Where, Distinct, Has, CExpr, Eval, SafeAt;
    var (c, a, n1) := CExpr(e, n);
    var d := [BranchZ(a, f), Jump(t)];
    AtSplit(code, p, c, d);
    k, tmps' := ExprRuns(code, p, e, n, vars, tmps);
    var (v, vars') := Eval(e, vars);
    var s, q := Running(p, vars, tmps), p + |c|;
    AtIndex(code, q, d, 0);
    AtIndex(code, q, d, 1);
    ExtendBranch(code, s, k, q, vars', tmps', a, f);
    k := k + 1;
    if v != 0 {
      ExtendJump(code, s, k, q + 1, vars', tmps', t);
      k := k + 1;
    }
  }

  /** && and ||: the left half decides, or control comes to the middle label and the right half does. */
  lemma {:induction false} ShortRuns(code: Code, p: nat, e: Expr, t: Label, f: Label, n: Ctr, vars: Store, tmps: Tmps)
    returns (k: nat, tmps': Tmps)
    requires e.LAnd? || e.LOr?
    requires Distinct(code) && At(code, p, CBool(e, t, f, n).0) && SafeAt(e, vars) && Has(code, t) && Has(code, f)
    ensures Decides(code, p, e, t, f, n, vars, tmps, k, tmps')
    decreases e, 0, 0
  {
    hide RunIR, At, Where, Distinct, Has;
    var s, mid, m := Running(p, vars, tmps), L(n.lab), n.(lab := n.lab + 1);
    var t', f' := if e.LAnd? then mid else t, if e.LAnd? then f else mid;
    var (cl, n1) := CBool(e.l, t', f', m);
    var (cr, n2) := CBool(e.r, t, f, n1);
    AtSplit(code, p, cl + [ILabel(mid)], cr);
    AtSplit(code, p, cl, [ILabel(mid)]);
    var q := p + |cl|;
    AtIndex(code, q, [ILabel(mid)], 0);
    LabelAt(code, q, mid);
    k, tmps' := BoolRuns(code, p, e.l, t', f', m, vars, tmps);
    var (v, vars1) := Eval(e.l, vars);
    if (v != 0) == e.LAnd? {
      Extend(code, s, k, q, vars1, tmps', ILabel(mid));
      var i, tmps2 := BoolRuns(code, q + 1, e.r, t, f, n1, vars1, tmps');
      Then(code, s, k + 1, Running(q + 1, vars1, tmps'), i);
      BoolGrows(e.l, t', f', m);
      KeptTrans(tmps, tmps', tmps2, n.tmp, n1.tmp);
      k, tmps' := k + 1 + i, tmps2;
    }
  }

  lemma AssignsConst(x: Name, v: int, n: Ctr, s: Store)
    ensures CExpr(Assign(x, Const(v)), n) == ([SetVar(x, Imm(v))], VarOp(x), n)
    ensures Eval(Assign(x, Const(v)), s) == (v, s[x := v])
  {
    assert CExpr(Const(v), n) == ([], Imm(v), n);
    assert [] + [SetVar(x, Imm(v))] == [SetVar(x, Imm(v))];
  }

  /** Without the condition the late read shows: (x = 1) + (x = 2) comes to 4, and left to right it is 3. */
  lemma LateReadShows(vars: Store, tmps: Tmps)
    ensures var e := Binary(Add, Assign("x", Const(1)), Assign("x", Const(2)));
            var (c, a, _) := CExpr(e, Ctr(0, 0));
            var s := RunIR(c, Running(0, vars, tmps), 3);
            && Eval(e, vars).0 == 3
            && s.Running? && s.pc == |c| && ValueOf(a, s.vars, s.tmps) == 4
  {
    var l, r := Assign("x", Const(1)), Assign("x", Const(2));
    var c := [SetVar("x", Imm(1)), SetVar("x", Imm(2)), IBin(0, Add, VarOp("x"), VarOp("x"))];
    AssignsConst("x", 1, Ctr(0, 0), vars);
    AssignsConst("x", 2, Ctr(0, 0), vars["x" := 1]);
    SumOf(l, r, Ctr(0, 0), vars);
    hide CExpr, Eval;
    assert [SetVar("x", Imm(1))] + [SetVar("x", Imm(2))] + [IBin(0, Add, VarOp("x"), VarOp("x"))] == c;
    RunsThree(c, vars, tmps);
  }

  lemma SumOf(l: Expr, r: Expr, n: Ctr, s: Store)
    ensures var (cl, a, n1) := CExpr(l, n);
            var (cr, b, n2) := CExpr(r, n1);
            CExpr(Binary(Add, l, r), n) == (cl + cr + [IBin(n2.tmp, Add, a, b)], TmpOp(n2.tmp), n2.(tmp := n2.tmp + 1))
    ensures Eval(Binary(Add, l, r), s).0 == Wrap(Eval(l, s).0 + Eval(r, Eval(l, s).1).0)
  {}

  lemma RunsThree(c: Code, vars: Store, tmps: Tmps)
    requires |c| == 3 && Simple(c[0]) && Simple(c[1]) && Simple(c[2])
    ensures var (v1, t1) := After(c[0], vars, tmps);
            var (v2, t2) := After(c[1], v1, t1);
            var (v3, t3) := After(c[2], v2, t2);
            RunIR(c, Running(0, vars, tmps), 3) == Running(3, v3, t3)
  {
    hide RunIR, After;
    var s := Running(0, vars, tmps);
    var (v1, t1) := After(c[0], vars, tmps);
    var (v2, t2) := After(c[1], v1, t1);
    Stay(c, s);
    Extend(c, s, 0, 0, vars, tmps, c[0]);
    Extend(c, s, 1, 1, v1, t1, c[1]);
    Extend(c, s, 2, 2, v2, t2, c[2]);
  }
}
