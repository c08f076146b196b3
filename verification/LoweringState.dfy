/** The lowering state: a builder that instructions are appended to, the two counters, the open loops and
    switches, and whether a return closed the path. */
module LoweringState {
  import opened Options
  import opened CLang
  import opened IR
  import opened Lowering
  import LowerExpr
  import opened LowerCorrect
  import opened LowerStmt
  import opened LowerLabels

  /** More code after what has been appended so far. */
  lemma Grow(was: Code, acc: Code, c: Code) returns (acc': Code)
    ensures acc' == acc + c && was + acc + c == was + acc'
  {
    acc' := acc + c;
  }

  class Lowerer {
    var code: Code
    var labelId: nat
    var tmpId: nat
    var loops: seq<(Label, Label)>
    var switches: seq<(Table, Option<Label>)>
    var emittedReturn: bool

    constructor ()
      ensures code == [] && Counters() == Ctr(0, 0) && Context() == EMPTY && !emittedReturn
    {
      code, labelId, tmpId, loops, switches, emittedReturn := [], 0, 0, [], [], false;
    }

    function Counters(): Ctr reads this { Ctr(labelId, tmpId) }

    function Context(): Ctx reads this { Ctx(loops, switches) }

    method FreshLabel() returns (l: Label)
      modifies this`labelId
      ensures l == L(old(labelId)) && labelId == old(labelId) + 1
    {
      l := L(labelId);
      labelId := labelId + 1;
    }

    method FreshTmp() returns (k: nat)
      modifies this`tmpId
      ensures k == old(tmpId) && tmpId == old(tmpId) + 1
    {
      k := tmpId;
      tmpId := tmpId + 1;
    }

    method Emit(i: Instr)
      modifies this`code
      ensures code == old(code) + [i]
    {
      code := code + [i];
    }

    method EmitBinary(op: BinOp, a: Operand, b: Operand) returns (r: Operand)
      modifies this`code, this`tmpId
      ensures r == TmpOp(old(tmpId)) && tmpId == old(tmpId) + 1
      ensures code == old(code) + [IBin(old(tmpId), op, a, b)]
    {
      var k := FreshTmp();
      Emit(IBin(k, op, a, b));
      r := TmpOp(k);
    }

    // ---- expressions ----

    method GenExpr(e: Expr) returns (a: Operand)
      modifies this`code, this`labelId, this`tmpId
      ensures code == old(code) + CExpr(e, old(Counters())).0
      ensures a == CExpr(e, old(Counters())).1 && Counters() == CExpr(e, old(Counters())).2
      decreases e, Short(e), 1
    {
      match e
      case Const(v) => a := Imm(v);
      case Var(x) => a := VarOp(x);
      case Binary(_, _, _) => a := GenBinary(e);
      case Unary(_, _) => a := GenUnary(e);
      case LAnd(_, _) => a := GenTruth(e);
      case LOr(_, _) => a := GenTruth(e);
      case Cond(_, _, _) => a := GenCond(e);
      case Comma(_, _) => a := GenComma(e);
      case Assign(_, _) => a := GenAssign(e);
      case AssignOp(_, _, _) => a := GenAssignOp(e);
      case PreStep(op, x) =>
        a := EmitBinary(op, VarOp(x), Imm(1));
        Emit(SetVar(x, a));
      case PostStep(_, _) => a := GenPostfix(e);
    }

    method GenBinary(e: Expr) returns (a: Operand)
      requires e.Binary?
      modifies this`code, this`labelId, this`tmpId
      ensures code == old(code) + CExpr(e, old(Counters())).0
      ensures a == CExpr(e, old(Counters())).1 && Counters() == CExpr(e, old(Counters())).2
      decreases e, 0, 0
    {
      ghost var n, was := Counters(), code;
      var lv := GenExpr(e.l);
      ghost var n1, cl := Counters(), CExpr(e.l, n).0;
      var rv := GenExpr(e.r);
      ghost var n2, acc := Counters(), cl + CExpr(e.r, n1).0;
      assert code == was + acc;
      a := EmitBinary(e.op, lv, rv);
      acc := Grow(was, acc, [IBin(n2.tmp, e.op, lv, rv)]);
    }

    method GenUnary(e: Expr) returns (a: Operand)
      requires e.Unary?
      modifies this`code, this`labelId, this`tmpId
      ensures code == old(code) + CExpr(e, old(Counters())).0
      ensures a == CExpr(e, old(Counters())).1 && Counters() == CExpr(e, old(Counters())).2
      decreases e, 0, 0
    {
      ghost var was, c := code, CExpr(e.e, Counters()).0;
      var v := GenExpr(e.e);
      var k := FreshTmp();
      Emit(IUn(k, e.uop, v));
      ghost var acc := Grow(was, c, [IUn(k, e.uop, v)]);
      a := TmpOp(k);
    }

    method GenComma(e: Expr) returns (a: Operand)
      requires e.Comma?
      modifies this`code, this`labelId, this`tmpId
      ensures code == old(code) + CExpr(e, old(Counters())).0
      ensures a == CExpr(e, old(Counters())).1 && Counters() == CExpr(e, old(Counters())).2
      decreases e, 0, 0
    {
      ghost var was, cl := code, CExpr(e.l, Counters()).0;
      var _ := GenExpr(e.l);
      ghost var cr := CExpr(e.r, Counters()).0;
      a := GenExpr(e.r);
      ghost var acc := Grow(was, cl, cr);
    }

    /** The value of an assignment is the variable's storage itself. */
    method GenAssign(e: Expr) returns (a: Operand)
      requires e.Assign?
      modifies this`code, this`labelId, this`tmpId
      ensures code == old(code) + CExpr(e, old(Counters())).0
      ensures a == CExpr(e, old(Counters())).1 && Counters() == CExpr(e, old(Counters())).2
      decreases e, 0, 0
    {
      ghost var was, c := code, CExpr(e.e, Counters()).0;
      var v := GenExpr(e.e);
      Emit(SetVar(e.x, v));
      ghost var acc := Grow(was, c, [SetVar(e.x, v)]);
      a := VarOp(e.x);
    }

    method GenAssignOp(e: Expr) returns (a: Operand)
      requires e.AssignOp?
      modifies this`code, this`labelId, this`tmpId
      ensures code == old(code) + CExpr(e, old(Counters())).0
      ensures a == CExpr(e, old(Counters())).1 && Counters() == CExpr(e, old(Counters())).2
      decreases e, 0, 0
    {
      ghost var was, c := code, CExpr(e.e, Counters()).0;
      var v := GenExpr(e.e);
      ghost var i := IBin(tmpId, e.op, VarOp(e.x), v);
      a := EmitBinary(e.op, VarOp(e.x), v);
      Emit(SetVar(e.x, a));
      assert was + c + [i] + [SetVar(e.x, a)] == was + (c + [i, SetVar(e.x, a)]);
    }

    /** The old value is copied out before the write. */
    method GenPostfix(e: Expr) returns (a: Operand)
      requires e.PostStep?
      modifies this`code, this`labelId, this`tmpId
      ensures code == old(code) + CExpr(e, old(Counters())).0
      ensures a == CExpr(e, old(Counters())).1 && Counters() == CExpr(e, old(Counters())).2
    {
      var k := Materialize(VarOp(e.x));
      var nv := EmitBinary(e.op, VarOp(e.x), Imm(1));
      Emit(SetVar(e.x, nv));
      a := TmpOp(k);
    }

    /** Copy a value, which may be storage, into a fresh temporary. */
    method Materialize(v: Operand) returns (k: nat)
      modifies this`code, this`tmpId
      ensures k == old(tmpId) && tmpId == old(tmpId) + 1 && code == old(code) + [SetTmp(k, v)]
    {
      k := FreshTmp();
      Emit(SetTmp(k, v));
    }

    static lemma TruthIs(e: Expr, n: Ctr, m: Ctr)
      requires (e.LAnd? || e.LOr?) && m == Ctr(n.lab + 3, n.tmp + 1)
      ensures var k, tl, fl, end := n.tmp, L(n.lab), L(n.lab + 1), L(n.lab + 2);
              var (cc, n1) := CBool(e, tl, fl, m);
              CExpr(e, n) == (cc + [ILabel(tl), SetTmp(k, Imm(1)), Jump(end), ILabel(fl), SetTmp(k, Imm(0)), ILabel(end)],
                              TmpOp(k), n1)
    {}

    method GenTruth(e: Expr) returns (a: Operand)
      requires e.LAnd? || e.LOr?
      modifies this`code, this`labelId, this`tmpId
      ensures code == old(code) + CExpr(e, old(Counters())).0
      ensures a == CExpr(e, old(Counters())).1 && Counters() == CExpr(e, old(Counters())).2
      decreases e, 1, 0
    {
      hide CBool, CExpr;
      ghost var n, was := Counters(), code;
      var k := FreshTmp();
      var tl := FreshLabel();
      var fl := FreshLabel();
      var end := FreshLabel();
      TruthIs(e, n, Counters());
      GenBool(e, tl, fl);
      ghost var cc := CBool(e, tl, fl, Ctr(n.lab + 3, n.tmp + 1)).0;
      Emit(ILabel(tl));
      ghost var acc := Grow(was, cc, [ILabel(tl)]);
      Emit(SetTmp(k, Imm(1)));
      acc := Grow(was, acc, [SetTmp(k, Imm(1))]);
      Emit(Jump(end));
      acc := Grow(was, acc, [Jump(end)]);
      Emit(ILabel(fl));
      acc := Grow(was, acc, [ILabel(fl)]);
      Emit(SetTmp(k, Imm(0)));
      acc := Grow(was, acc, [SetTmp(k, Imm(0))]);
      Emit(ILabel(end));
      acc := Grow(was, acc, [ILabel(end)]);
      a := TmpOp(k);
      assert acc == cc + [ILabel(tl), SetTmp(k, Imm(1)), Jump(end), ILabel(fl), SetTmp(k, Imm(0)), ILabel(end)];
    }

    method GenCond(e: Expr) returns (a: Operand)
      requires e.Cond?
      modifies this`code, this`labelId, this`tmpId
      ensures code == old(code) + CExpr(e, old(Counters())).0
      ensures a == CExpr(e, old(Counters())).1 && Counters() == CExpr(e, old(Counters())).2
      decreases e, 0, 0
    {
      hide CExpr, CBool;
      ghost var n, was := Counters(), code;
      var k := FreshTmp();
      var tl := FreshLabel();
      var fl := FreshLabel();
      var end := FreshLabel();
      ghost var m := Counters();
      GenBool(e.c, tl, fl);
      ghost var n1, cc := Counters(), CBool(e.c, tl, fl, m).0;
      Emit(ILabel(tl));
      ghost var acc := Grow(was, cc, [ILabel(tl)]);
      var lv := GenExpr(e.l);
      ghost var n2, cl := Counters(), CExpr(e.l, n1).0;
      acc := Grow(was, acc, cl);
      Emit(SetTmp(k, lv));
      acc := Grow(was, acc, [SetTmp(k, lv)]);
      Emit(Jump(end));
      acc := Grow(was, acc, [Jump(end)]);
      Emit(ILabel(fl));
      acc := Grow(was, acc, [ILabel(fl)]);
      var rv := GenExpr(e.r);
      ghost var cr := CExpr(e.r, n2).0;
      acc := Grow(was, acc, cr);
      Emit(SetTmp(k, rv));
      acc := Grow(was, acc, [SetTmp(k, rv)]);
      Emit(ILabel(end));
      acc := Grow(was, acc, [ILabel(end)]);
      a := TmpOp(k);
      LowerExpr.CondParts(e.c, e.l, e.r, n, k, tl, fl, end, m);
      Arms(cc, ILabel(tl), cl, SetTmp(k, lv), Jump(end), ILabel(fl), cr, SetTmp(k, rv), ILabel(end));
    }

    static lemma Arms(cc: Code, a: Instr, cl: Code, b: Instr, c: Instr, d: Instr, cr: Code, e: Instr, f: Instr)
      ensures cc + [a] + cl + [b] + [c] + [d] + cr + [e] + [f] == cc + ([a] + cl + [b, c]) + ([d] + cr + [e, f])
    {}

    method GenBool(e: Expr, t: Label, f: Label)
      modifies this`code, this`labelId, this`tmpId
      ensures code == old(code) + CBool(e, t, f, old(Counters())).0
      ensures Counters() == CBool(e, t, f, old(Counters())).1
      decreases e, 1 - Short(e), 2
    {
      ghost var n, was := Counters(), code;
      match e
      case LAnd(l, r) =>
        var mid := FreshLabel();
        GenHalves(l, mid, f, mid, r, t, f);
      case LOr(l, r) =>
        var mid := FreshLabel();
        GenHalves(l, t, mid, mid, r, t, f);
      case Unary(Not, x) => GenBool(x, f, t);
      case _ => GenTest(e, t, f);
    }

    /** Both halves of && or ||, with the middle label between them. */
    method GenHalves(l: Expr, tl: Label, fl: Label, mid: Label, r: Expr, t: Label, f: Label)
      modifies this`code, this`labelId, this`tmpId
      ensures var (cl, n1) := CBool(l, tl, fl, old(Counters()));
              var (cr, n2) := CBool(r, t, f, n1);
              code == old(code) + (cl + [ILabel(mid)] + cr) && Counters() == n2
      decreases if l < r then r else l, 3
    {
      hide CBool;
      ghost var n, was := Counters(), code;
      GenBool(l, tl, fl);
      ghost var cl, n1 := CBool(l, tl, fl, n).0, Counters();
      Emit(ILabel(mid));
      ghost var acc := Grow(was, cl, [ILabel(mid)]);
      GenBool(r, t, f);
      acc := Grow(was, acc, CBool(r, t, f, n1).0);
    }

    method GenTest(e: Expr, t: Label, f: Label)
      modifies this`code, this`labelId, this`tmpId
      ensures code == old(code) + (CExpr(e, old(Counters())).0 + [BranchZ(CExpr(e, old(Counters())).1, f), Jump(t)])
      ensures Counters() == CExpr(e, old(Counters())).2
      decreases e, Short(e), 2
    {
      hide CExpr;
      ghost var was, c := code, CExpr(e, Counters()).0;
      var v := GenExpr(e);
      Emit(BranchZ(v, f));
      ghost var acc := Grow(was, c, [BranchZ(v, f)]);
      Emit(Jump(t));
      acc := Grow(was, acc, [Jump(t)]);
      assert acc == c + [BranchZ(v, f), Jump(t)];
    }

    // ---- statements ----

    /** Any statement but a return, a block, a label or a declaration reopens the path to the end; so does the
        end of an if, a loop or a switch. */
    method GenStmt(s: Stmt)
      modifies this
      ensures code == old(code) + CStmt(s, old(Counters()), old(Context())).0
      ensures Counters() == CStmt(s, old(Counters()), old(Context())).1
      ensures Context() == old(Context()) && emittedReturn == Emitted(s, old(emittedReturn))
      decreases s, 3
    {
      hide CExpr, CBool, CLoop, CSwitch;
      if !(s.Return? || s.Block? || s.Case? || s.Default? || s.Decl?) {
        emittedReturn := false;
      }
      match s
      case Null =>
      case ExprStmt(e) =>
        var _ := GenExpr(e);
      case Decl(x, i) => GenVarDecl(x, i);
      case Block(items) => GenItems(items);
      case If(_, _, _) => GenIf(s);
      case While(_, _) => GenWhile(s);
      case Do(_, _) => GenDo(s);
      case For(_, _, _, _) => GenFor(s);
      case Break =>
        if |loops| > 0 {
          Emit(Jump(loops[0].0));
        }
      case Continue =>
        if |loops| > 0 {
          Emit(Jump(loops[0].1));
        }
      case Return(e) =>
        if e.None? {
          Emit(RetVoid);
        } else {
          ghost var was, c := code, CExpr(e.value, Counters()).0;
          var v := GenExpr(e.value);
          Emit(Ret(v));
          ghost var acc := Grow(was, c, [Ret(v)]);
        }
        emittedReturn := true;
      case Switch(c, b) => GenSwitch(c, b);
      case Case(v, b) => GenCase(v, b);
      case Default(b) => GenDefault(b);
    }

    method GenCase(v: int, b: Stmt)
      modifies this
      ensures code == old(code) + CStmt(Case(v, b), old(Counters()), old(Context())).0
      ensures Counters() == CStmt(Case(v, b), old(Counters()), old(Context())).1
      ensures Context() == old(Context()) && emittedReturn == Emitted(b, old(emittedReturn))
      decreases b, 4
    {
      ghost var n, x, was := Counters(), Context(), code;
      EmitCaseLabel(v);
      GenStmt(b);
      ghost var acc := Grow(was, CaseLabel(x, v), CStmt(b, n, x).0);
    }

    method GenDefault(b: Stmt)
      modifies this
      ensures code == old(code) + CStmt(Default(b), old(Counters()), old(Context())).0
      ensures Counters() == CStmt(Default(b), old(Counters()), old(Context())).1
      ensures Context() == old(Context()) && emittedReturn == Emitted(b, old(emittedReturn))
      decreases b, 4
    {
      ghost var n, x, was := Counters(), Context(), code;
      EmitDefaultLabel();
      GenStmt(b);
      ghost var acc := Grow(was, DefaultLabel(x), CStmt(b, n, x).0);
    }

    /** The label of a case value, from the innermost open switch. */
    method EmitCaseLabel(v: int)
      modifies this`code
      ensures code == old(code) + CaseLabel(Context(), v)
    {
      if |switches| > 0 && v in switches[0].0 {
        Emit(ILabel(switches[0].0[v]));
      }
    }

    method EmitDefaultLabel()
      modifies this`code
      ensures code == old(code) + DefaultLabel(Context())
    {
      if |switches| > 0 && switches[0].1.Some? {
        Emit(ILabel(switches[0].1.value));
      }
    }

    method GenVarDecl(x: Name, init: Option<Expr>)
      modifies this`code, this`labelId, this`tmpId
      ensures code == old(code) + CStmt(Decl(x, init), old(Counters()), old(Context())).0
      ensures Counters() == CStmt(Decl(x, init), old(Counters()), old(Context())).1
    {
      hide CExpr;
      if init.Some? {
        ghost var was, c := code, CExpr(init.value, Counters()).0;
        var v := GenExpr(init.value);
        Emit(SetVar(x, v));
        ghost var acc := Grow(was, c, [SetVar(x, v)]);
      }
    }

    method GenItems(items: Items)
      modifies this
      ensures code == old(code) + CItems(items, old(Counters()), old(Context())).0
      ensures Counters() == CItems(items, old(Counters()), old(Context())).1
      ensures Context() == old(Context()) && emittedReturn == EmittedItems(items, old(emittedReturn))
      decreases items
    {
      hide CStmt;
      match items
      case Nil =>
      case Cons(h, t) =>
        ghost var n, x, was := Counters(), Context(), code;
        GenStmt(h);
        ghost var n1, ch := Counters(), CStmt(h, n, x).0;
        GenItems(t);
        ghost var acc := Grow(was, ch, CItems(t, n1, x).0);
    }

    method GenIf(s: Stmt)
      requires s.If?
      modifies this
      ensures code == old(code) + CStmt(s, old(Counters()), old(Context())).0
      ensures Counters() == CStmt(s, old(Counters()), old(Context())).1
      ensures Context() == old(Context()) && !emittedReturn
      decreases s, 1
    {
      hide CBool, CStmt;
      ghost var n, x, was := Counters(), Context(), code;
      var tl := FreshLabel();
      var fl := FreshLabel();
      var end := FreshLabel();
      ghost var m := Counters();
      GenBool(s.c, tl, fl);
      ghost var n1, cc := Counters(), CBool(s.c, tl, fl, m).0;
      GenThen(tl, s.thn, end, fl);
      ghost var n2, ca := Counters(), CStmt(s.thn, n1, x).0;
      ghost var arm := [ILabel(tl)] + ca + [Jump(end), ILabel(fl)];
      ghost var acc := Grow(was, cc, arm);
      GenElse(s.els);
      ghost var cb := if s.els.Some? then CStmt(s.els.value, n2, x).0 else [];
      acc := Grow(was, acc, cb);
      Emit(ILabel(end));
      acc := Grow(was, acc, [ILabel(end)]);
      emittedReturn := false;
      IfParts(s.c, s.thn, s.els, n, x, tl, fl, end, m);
      EndCode(cc + arm, cb, ILabel(end));
    }

    /** The first arm, the jump over the second, and the label of the second. */
    method GenThen(tl: Label, s: Stmt, end: Label, fl: Label)
      modifies this
      ensures code == old(code)
                      + ([ILabel(tl)] + CStmt(s, old(Counters()), old(Context())).0 + [Jump(end), ILabel(fl)])
      ensures Counters() == CStmt(s, old(Counters()), old(Context())).1 && Context() == old(Context())
      decreases s, 4
    {
      hide CStmt;
      ghost var was, ca := code, CStmt(s, Counters(), Context()).0;
      Emit(ILabel(tl));
      GenStmt(s);
      ghost var acc := Grow(was, [ILabel(tl)], ca);
      Emit(Jump(end));
      acc := Grow(was, acc, [Jump(end)]);
      Emit(ILabel(fl));
      acc := Grow(was, acc, [ILabel(fl)]);
      assert acc == [ILabel(tl)] + ca + [Jump(end), ILabel(fl)];
    }

    method GenElse(s: Option<Stmt>)
      modifies this
      ensures code == old(code) + if s.Some? then CStmt(s.value, old(Counters()), old(Context())).0 else []
      ensures Counters() == if s.Some? then CStmt(s.value, old(Counters()), old(Context())).1 else old(Counters())
      ensures Context() == old(Context())
      decreases s, 4
    {
      hide CStmt;
      if s.Some? {
        GenStmt(s.value);
      }
    }

    static lemma IfParts(c: Expr, a: Stmt, b: Option<Stmt>, n: Ctr, x: Ctx, tl: Label, fl: Label, end: Label, m: Ctr)
      requires tl == L(n.lab) && fl == L(n.lab + 1) && end == L(n.lab + 2) && m == n.(lab := n.lab + 3)
      ensures var (cc, n1) := CBool(c, tl, fl, m);
              var (ca, n2) := CStmt(a, n1, x);
              var (cb, n3) := if b.Some? then CStmt(b.value, n2, x) else ([], n2);
              CStmt(If(c, a, b), n, x) == (cc + ([ILabel(tl)] + ca + [Jump(end), ILabel(fl)])
                                             + (cb + [ILabel(end)]), n3)
    {
      hide CBool, CExpr;
    }

    static lemma WhileParts(c: Expr, b: Stmt, n: Ctr, x: Ctx, top: Label, body: Label, end: Label, m: Ctr)
      requires top == L(n.lab) && body == L(n.lab + 1) && end == L(n.lab + 2) && m == n.(lab := n.lab + 3)
      ensures var (cc, n1) := CBool(c, body, end, m);
              var (cb, n2) := CStmt(b, n1, Enter(x, end, top));
              CStmt(While(c, b), n, x) == ([ILabel(top)] + cc + [ILabel(body)] + (cb + [Jump(top), ILabel(end)]), n2)
    {
      hide CBool, CExpr;
    }

    static lemma DoParts(b: Stmt, c: Expr, n: Ctr, x: Ctx, body: Label, cond: Label, end: Label, m: Ctr)
      requires body == L(n.lab) && cond == L(n.lab + 1) && end == L(n.lab + 2) && m == n.(lab := n.lab + 3)
      ensures var (cb, n1) := CStmt(b, m, Enter(x, end, cond));
              var (cc, n2) := CBool(c, body, end, n1);
              CStmt(Do(b, c), n, x) == ([ILabel(body)] + cb + ([ILabel(cond)] + cc + [ILabel(end)]), n2)
    {
      hide CBool, CExpr;
    }

    static lemma LoopParts(c: Option<Expr>, inc: Option<Expr>, b: Stmt, lab: nat, n: Ctr, x: Ctx, top: Label, body: Label,
                           incL: Label, end: Label)
      requires top == L(lab) && body == L(lab + 1) && incL == L(lab + 2) && end == L(lab + 3)
      ensures var (cc, n1) := if c.Some? then CBool(c.value, body, end, n) else ([Jump(body)], n);
              var (cb, n2) := CStmt(b, n1, Enter(x, end, incL));
              var (ci, n3) := CStep(inc, n2);
              CLoop(c, inc, b, lab, n, x) == ([ILabel(top)] + cc + [ILabel(body)]
                                              + (cb + ([ILabel(incL)] + ci + [Jump(top), ILabel(end)])), n3)
    {
      hide CBool, CExpr, CStmt;
    }

    static lemma SwitchParts(cv: Operand, b: Stmt, n: Ctr, x: Ctx, end: Label, named: seq<(int, Label)>, d: Option<Label>,
                             m: Ctr, y: Ctx)
      requires end == L(n.lab) && named == NamedOf(b, n.lab) && d == DefaultOf(b, n.lab) && m == AfterLabels(b, n)
      requires y == EnterSwitch(b, n.lab, x)
      ensures var (cd, n1) := CDispatch(cv, named, m);
              var (cb, n2) := CStmt(b, n1, y);
              CSwitch(cv, b, n, x) == (cd + [Jump(if d.Some? then d.value else end)] + (cb + [ILabel(end)]), n2)
    {
      hide CDispatch, NamedOf, DefaultOf, AfterLabels, EnterSwitch, CStmt;
    }

    static lemma EndCode(h: Code, cb: Code, d: Instr)
      ensures h + cb + [d] == h + (cb + [d])
    {}

    /** Generate a loop body with its break and continue targets open. */
    method WithLoop(brk: Label, cont: Label, b: Stmt)
      modifies this
      ensures code == old(code) + CStmt(b, old(Counters()), Enter(old(Context()), brk, cont)).0
      ensures Counters() == CStmt(b, old(Counters()), Enter(old(Context()), brk, cont)).1
      ensures Context() == old(Context())
      decreases b, 4
    {
      ghost var x := Context();
      loops := [(brk, cont)] + loops;
      assert Context() == Enter(x, brk, cont);
      GenStmt(b);
      loops := loops[1..];
    }

    method GenWhile(s: Stmt)
      requires s.While?
      modifies this
      ensures code == old(code) + CStmt(s, old(Counters()), old(Context())).0
      ensures Counters() == CStmt(s, old(Counters()), old(Context())).1
      ensures Context() == old(Context()) && !emittedReturn
      decreases s, 1
    {
      hide CBool, CStmt;
      ghost var n, x, was := Counters(), Context(), code;
      var top := FreshLabel();
      var body := FreshLabel();
      var end := FreshLabel();
      ghost var m := Counters();
      Emit(ILabel(top));
      GenBool(s.c, body, end);
      ghost var n1, cc := Counters(), CBool(s.c, body, end, m).0;
      ghost var acc := Grow(was, [ILabel(top)], cc);
      Emit(ILabel(body));
      acc := Grow(was, acc, [ILabel(body)]);
      WithLoop(end, top, s.body);
      ghost var cb := CStmt(s.body, n1, Enter(x, end, top)).0;
      acc := Grow(was, acc, cb);
      Emit(Jump(top));
      acc := Grow(was, acc, [Jump(top)]);
      Emit(ILabel(end));
      acc := Grow(was, acc, [ILabel(end)]);
      emittedReturn := false;
      WhileParts(s.c, s.body, n, x, top, body, end, m);
      LoopCode([ILabel(top)] + cc + [ILabel(body)], cb, Jump(top), ILabel(end));
    }

    static lemma LoopCode(h: Code, cb: Code, a: Instr, b: Instr)
      ensures h + cb + [a] + [b] == h + (cb + [a, b])
    {}

    method GenDo(s: Stmt)
      requires s.Do?
      modifies this
      ensures code == old(code) + CStmt(s, old(Counters()), old(Context())).0
      ensures Counters() == CStmt(s, old(Counters()), old(Context())).1
      ensures Context() == old(Context()) && !emittedReturn
      decreases s, 1
    {
      hide CBool, CStmt;
      ghost var n, x, was := Counters(), Context(), code;
      var body := FreshLabel();
      var cond := FreshLabel();
      var end := FreshLabel();
      ghost var m := Counters();
      Emit(ILabel(body));
      WithLoop(end, cond, s.body);
      ghost var n1, cb := Counters(), CStmt(s.body, m, Enter(x, end, cond)).0;
      ghost var acc := Grow(was, [ILabel(body)], cb);
      Emit(ILabel(cond));
      acc := Grow(was, acc, [ILabel(cond)]);
      GenBool(s.c, body, end);
      ghost var cc := CBool(s.c, body, end, n1).0;
      acc := Grow(was, acc, cc);
      Emit(ILabel(end));
      acc := Grow(was, acc, [ILabel(end)]);
      emittedReturn := false;
      DoParts(s.body, s.c, n, x, body, cond, end, m);
      TailCode([ILabel(body)] + cb, ILabel(cond), cc, ILabel(end));
    }

    static lemma TailCode(h: Code, a: Instr, cc: Code, b: Instr)
      ensures h + [a] + cc + [b] == h + ([a] + cc + [b])
    {}

    method GenFor(s: Stmt)
      requires s.For?
      modifies this
      ensures code == old(code) + CStmt(s, old(Counters()), old(Context())).0
      ensures Counters() == CStmt(s, old(Counters()), old(Context())).1
      ensures Context() == old(Context()) && !emittedReturn
      decreases s, 2
    {
      hide CLoop, CItems;
      ghost var n, x, was := Counters(), Context(), code;
      var top := FreshLabel();
      var body := FreshLabel();
      var incL := FreshLabel();
      var end := FreshLabel();
      ghost var m := Counters();
      GenItems(s.init);
      ghost var n1, ci := Counters(), CItems(s.init, m, x).0;
      GenLoop(s.cond, s.inc, s.body, top, body, incL, end);
      ghost var acc := Grow(was, ci, CLoop(s.cond, s.inc, s.body, n.lab, n1, x).0);
      emittedReturn := false;
    }

    /** A for loop from its test on. */
    method GenLoop(c: Option<Expr>, inc: Option<Expr>, b: Stmt, top: Label, body: Label, incL: Label, end: Label)
      requires top.L? && body == L(top.id + 1) && incL == L(top.id + 2) && end == L(top.id + 3)
      modifies this
      ensures code == old(code) + CLoop(c, inc, b, top.id, old(Counters()), old(Context())).0
      ensures Counters() == CLoop(c, inc, b, top.id, old(Counters()), old(Context())).1
      ensures Context() == old(Context())
      decreases b, 5
    {
      hide CBool, CExpr, CStmt, CLoop;
      ghost var n, x, was := Counters(), Context(), code;
      Emit(ILabel(top));
      ghost var cc := if c.Some? then CBool(c.value, body, end, n).0 else [Jump(body)];
      if c.Some? {
        GenBool(c.value, body, end);
      } else {
        Emit(Jump(body));
      }
      ghost var n1 := Counters();
      ghost var acc := Grow(was, [ILabel(top)], cc);
      Emit(ILabel(body));
      acc := Grow(was, acc, [ILabel(body)]);
      WithLoop(end, incL, b);
      ghost var n2, cb := Counters(), CStmt(b, n1, Enter(x, end, incL)).0;
      acc := Grow(was, acc, cb);
      Emit(ILabel(incL));
      acc := Grow(was, acc, [ILabel(incL)]);
      ghost var ci := CStep(inc, n2).0;
      if inc.Some? {
        var _ := GenExpr(inc.value);
      }
      acc := Grow(was, acc, ci);
      Emit(Jump(top));
      acc := Grow(was, acc, [Jump(top)]);
      Emit(ILabel(end));
      acc := Grow(was, acc, [ILabel(end)]);
      LoopParts(c, inc, b, top.id, n, x, top, body, incL, end);
      ForCode([ILabel(top)] + cc + [ILabel(body)], cb, ILabel(incL), ci, Jump(top), ILabel(end));
    }

    static lemma ForCode(h: Code, cb: Code, a: Instr, ci: Code, b: Instr, c: Instr)
      ensures h + cb + [a] + ci + [b] + [c] == h + (cb + ([a] + ci + [b, c]))
    {}

    // ---- switch ----

    /** Compare-and-jump dispatch, then the body, whose labels come from the table wherever they are nested. */
    method GenSwitch(c: Expr, b: Stmt)
      modifies this
      ensures code == old(code) + CStmt(Switch(c, b), old(Counters()), old(Context())).0
      ensures Counters() == CStmt(Switch(c, b), old(Counters()), old(Context())).1
      ensures Context() == old(Context()) && !emittedReturn
      decreases b, 6
    {
      hide CExpr, CSwitch;
      ghost var n, x, was := Counters(), Context(), code;
      var cv := GenExpr(c);
      ghost var cc, n0 := CExpr(c, n).0, Counters();
      GenDispatchAndBody(cv, b);
      ghost var acc := Grow(was, cc, CSwitch(cv, b, n0, x).0);
      emittedReturn := false;
    }

    method GenDispatchAndBody(cv: Operand, b: Stmt)
      modifies this
      ensures code == old(code) + CSwitch(cv, b, old(Counters()), old(Context())).0
      ensures Counters() == CSwitch(cv, b, old(Counters()), old(Context())).1
      ensures Context() == old(Context())
      decreases b, 5
    {
      hide CStmt, CSwitch, CDispatch, Named, Cases, TableOf, NamedOf, DefaultOf, AfterLabels, EnterSwitch;
      ghost var n, x, was := Counters(), Context(), code;
      var end, named, defLabel := LabelSwitch(b);
      ghost var m := Counters();
      GenDispatch(cv, named);
      ghost var n1, cd := Counters(), CDispatch(cv, named, m).0;
      var out := if defLabel.Some? then defLabel.value else end;
      Emit(Jump(out));
      ghost var acc := Grow(was, cd, [Jump(out)]);
      WithSwitch(end, named, defLabel, b, n);
      ghost var cb := CStmt(b, n1, EnterSwitch(b, n.lab, x)).0;
      acc := Grow(was, acc, cb);
      Emit(ILabel(end));
      acc := Grow(was, acc, [ILabel(end)]);
      SwitchParts(cv, b, n, x, end, named, defLabel, m, EnterSwitch(b, n.lab, x));
      EndCode(cd + [Jump(out)], cb, ILabel(end));
    }

    /** The labels of a switch: its end, its cases in order, its default if it has one. */
    method LabelSwitch(b: Stmt) returns (end: Label, named: seq<(int, Label)>, defLabel: Option<Label>)
      modifies this`labelId
      ensures end == L(old(labelId)) && named == NamedOf(b, old(labelId)) && defLabel == DefaultOf(b, old(labelId))
      ensures Counters() == AfterLabels(b, old(Counters()))
    {
      hide Named, Cases, Defaults;
      end := FreshLabel();
      named := NameCases(Cases(b));
      defLabel := None;
      if Defaults(b) > 0 {
        var l := FreshLabel();
        defLabel := Some(l);
      }
    }

    /** Generate the body with the switch open: it takes break, and continue stays with the loop around. */
    method WithSwitch(end: Label, named: seq<(int, Label)>, defLabel: Option<Label>, b: Stmt, ghost n: Ctr)
      requires end == L(n.lab) && named == NamedOf(b, n.lab) && defLabel == DefaultOf(b, n.lab)
      modifies this
      ensures code == old(code) + CStmt(b, old(Counters()), EnterSwitch(b, n.lab, old(Context()))).0
      ensures Counters() == CStmt(b, old(Counters()), EnterSwitch(b, n.lab, old(Context()))).1
      ensures Context() == old(Context())
      decreases b, 4
    {
      hide CStmt, TableOf, NamedOf, DefaultOf;
      ghost var x := Context();
      var cont := if |loops| > 0 then loops[0].1 else Nowhere;
      loops, switches := [(end, cont)] + loops, [(TableOf(named), defLabel)] + switches;
      assert Context() == EnterSwitch(b, n.lab, x);
      GenStmt(b);
      loops, switches := loops[1..], switches[1..];
    }

    /** A fresh label for every case value, in order. */
    method NameCases(values: seq<int>) returns (named: seq<(int, Label)>)
      modifies this`labelId
      ensures named == Named(values, old(labelId)) && labelId == old(labelId) + |values|
    {
      ghost var lo := labelId;
      named := [];
      for i := 0 to |values|
        invariant labelId == lo + i && |named| == i
        invariant forall k :: 0 <= k < i ==> named[k] == (values[k], L(lo + k))
      {
        var l := FreshLabel();
        named := named + [(values[i], l)];
      }
      LowerLabels.NamedAt(values, lo);
    }

    method GenDispatch(cv: Operand, named: seq<(int, Label)>)
      modifies this`code, this`labelId, this`tmpId
      ensures code == old(code) + CDispatch(cv, named, old(Counters())).0
      ensures Counters() == CDispatch(cv, named, old(Counters())).1
    {
      hide CDispatch;
      ghost var n, was := Counters(), code;
      ghost var acc: Code := [];
      assert named[0..] == named && [] + CDispatch(cv, named, n).0 == CDispatch(cv, named, n).0;
      for i := 0 to |named|
        invariant code == was + acc
        invariant CDispatch(cv, named, n)
               == (acc + CDispatch(cv, named[i..], Counters()).0, CDispatch(cv, named[i..], Counters()).1)
      {
        ghost var m := Counters();
        DispatchHead(cv, named[i..], m);
        assert named[i..][1..] == named[i + 1..];
        var eq := EmitBinary(Eq, cv, Imm(named[i].0));
        var next := FreshLabel();
        Emit(BranchZ(eq, next));
        Emit(Jump(named[i].1));
        Emit(ILabel(next));
        ghost var h := [IBin(m.tmp, Eq, cv, Imm(named[i].0)), BranchZ(eq, next), Jump(named[i].1), ILabel(next)];
        ghost var acc' := Grow(was, acc, h);
        assert acc + (h + CDispatch(cv, named[i + 1..], Counters()).0) == acc' + CDispatch(cv, named[i + 1..], Counters()).0;
        acc := acc';
      }
      DispatchEnd(cv, named[|named|..], Counters());
    }

    static lemma DispatchHead(cv: Operand, named: seq<(int, Label)>, n: Ctr)
      requires named != []
      ensures var next := L(n.lab);
              var (rest, n1) := CDispatch(cv, named[1..], Ctr(n.lab + 1, n.tmp + 1));
              CDispatch(cv, named, n) == ([IBin(n.tmp, Eq, cv, Imm(named[0].0)), BranchZ(TmpOp(n.tmp), next),
                                           Jump(named[0].1), ILabel(next)] + rest, n1)
    {}

    static lemma DispatchEnd(cv: Operand, named: seq<(int, Label)>, n: Ctr)
      requires named == []
      ensures CDispatch(cv, named, n) == ([], n)
    {}

    // ---- functions ----

    /** A new function: the body, then a return for a path that may still reach the end. The code halts exactly
        as the body ends, in every run whose handles are read in time. */
    method GenFunction(body: Stmt, void: bool)
      requires switches == []
      modifies this
      ensures Context() == EMPTY
      ensures code == CFunction(body, void, old(Counters())).0
      ensures Counters() == CFunction(body, void, old(Counters())).1
      ensures WfBody(body) ==>
                forall vars, tmps, r, vars' :: SafeRun(Exec(body, Stop, vars)) ==>
                  (Halts(code, vars, tmps, r, vars') <==> Ends(body, void, vars, r, vars'))
    {
      hide CStmt, Emitted, Halts, Ends, WfBody, SafeRun;
      code, loops, emittedReturn := [], [], false;
      ghost var n := Counters();
      assert Context() == EMPTY;
      GenStmt(body);
      ghost var c := CStmt(body, n, EMPTY).0;
      if !emittedReturn {
        Emit(if void then RetVoid else Ret(Imm(0)));
      }
      assert code == c + Epilogue(emittedReturn, void);
      if WfBody(body) {
        forall vars, tmps, r, vars' | SafeRun(Exec(body, Stop, vars))
          ensures Halts(code, vars, tmps, r, vars') <==> Ends(body, void, vars, r, vars')
        {
          LoweringPreservesMeaning(body, void, n, vars, tmps);
        }
      }
    }
  }
}
