/** The code src/C99/Lower.hs emits for the fragment, as functions of the tree, the label and temporary
    counters and the open loops and switches. Lowerer.dfy has the builder that appends it. */
module Lowering {
  import opened Options
  import opened CLang
  import opened IR

  /** The next label number and the next temporary number. */
  datatype Ctr = Ctr(lab: nat, tmp: nat)

  type Table = map<int, Label>

  /** The open loops, as (break, continue) targets, and the open switches, innermost first. */
  datatype Ctx = Ctx(loops: seq<(Label, Label)>, switches: seq<(Table, Option<Label>)>)

  const EMPTY := Ctx([], [])

  function Enter(x: Ctx, brk: Label, cont: Label): Ctx { Ctx([(brk, cont)] + x.loops, x.switches) }

  // ---- expressions ----

  function Short(e: Expr): nat { if e.LAnd? || e.LOr? then 1 else 0 }

  /** Code that leaves the value of e in the operand it comes with. */
  function CExpr(e: Expr, n: Ctr): (Code, Operand, Ctr)
    decreases e, Short(e)
  {
    match e
    case Const(v) => ([], Imm(v), n)
    case Var(x) => ([], VarOp(x), n)
    case Binary(op, l, r) =>
      var (cl, a, n1) := CExpr(l, n);
      var (cr, b, n2) := CExpr(r, n1);
      (cl + cr + [IBin(n2.tmp, op, a, b)], TmpOp(n2.tmp), n2.(tmp := n2.tmp + 1))
    case Unary(op, x) =>
      var (c, a, n1) := CExpr(x, n);
      (c + [IUn(n1.tmp, op, a)], TmpOp(n1.tmp), n1.(tmp := n1.tmp + 1))
    case LAnd(_, _) => CTruth(e, n)
    case LOr(_, _) => CTruth(e, n)
    case Cond(c, l, r) =>
      var k := n.tmp;
      var tl, fl, end := L(n.lab), L(n.lab + 1), L(n.lab + 2);
      var (cc, n1) := CBool(c, tl, fl, Ctr(n.lab + 3, n.tmp + 1));
      var (cl, a, n2) := CExpr(l, n1);
      var (cr, b, n3) := CExpr(r, n2);
      (cc + ([ILabel(tl)] + cl + [SetTmp(k, a), Jump(end)]) + ([ILabel(fl)] + cr + [SetTmp(k, b), ILabel(end)]),
       TmpOp(k), n3)
    case Comma(l, r) =>
      var (cl, _, n1) := CExpr(l, n);
      var (cr, b, n2) := CExpr(r, n1);
      (cl + cr, b, n2)
    case Assign(x, r) =>
      var (c, a, n1) := CExpr(r, n);
      (c + [SetVar(x, a)], VarOp(x), n1)
    case AssignOp(op, x, r) =>
      var (c, b, n1) := CExpr(r, n);
      (c + [IBin(n1.tmp, op, VarOp(x), b), SetVar(x, TmpOp(n1.tmp))], TmpOp(n1.tmp), n1.(tmp := n1.tmp + 1))
    case PreStep(op, x) =>
      ([IBin(n.tmp, op, VarOp(x), Imm(1)), SetVar(x, TmpOp(n.tmp))], TmpOp(n.tmp), n.(tmp := n.tmp + 1))
    case PostStep(op, x) =>
      ([SetTmp(n.tmp, VarOp(x)), IBin(n.tmp + 1, op, VarOp(x), Imm(1)), SetVar(x, TmpOp(n.tmp + 1))],
       TmpOp(n.tmp), n.(tmp := n.tmp + 2))
  }

  /** The 0 or 1 of a short-circuit expression. */
  function CTruth(e: Expr, n: Ctr): (Code, Operand, Ctr)
    requires e.LAnd? || e.LOr?
    decreases e, 0, 1
  {
    var k := n.tmp;
    var tl, fl, end := L(n.lab), L(n.lab + 1), L(n.lab + 2);
    var (cc, n1) := CBool(e, tl, fl, Ctr(n.lab + 3, n.tmp + 1));
    (cc + [ILabel(tl), SetTmp(k, Imm(1)), Jump(end), ILabel(fl), SetTmp(k, Imm(0)), ILabel(end)], TmpOp(k), n1)
  }

  /** Code that jumps to t when e is not zero and to f when it is. */
  function CBool(e: Expr, t: Label, f: Label, n: Ctr): (Code, Ctr)
    decreases e, 1 - Short(e), 0
  {
    match e
    case LAnd(l, r) =>
      var mid := L(n.lab);
      var (cl, n1) := CBool(l, mid, f, n.(lab := n.lab + 1));
      var (cr, n2) := CBool(r, t, f, n1);
      (cl + [ILabel(mid)] + cr, n2)
    case LOr(l, r) =>
      var mid := L(n.lab);
      var (cl, n1) := CBool(l, t, mid, n.(lab := n.lab + 1));
      var (cr, n2) := CBool(r, t, f, n1);
      (cl + [ILabel(mid)] + cr, n2)
    case Unary(Not, x) => CBool(x, f, t, n)
    case _ =>
      var (c, a, n1) := CExpr(e, n);
      (c + [BranchZ(a, f), Jump(t)], n1)
  }

  // ---- the labels of a switch ----

  /** Every case value that belongs to the switch around s, in order. */
  function Cases(s: Stmt): seq<int>
    decreases s
  {
    match s
    case Case(v, b) => [v] + Cases(b)
    case Default(b) => Cases(b)
    case Block(items) => CasesOf(items)
    case If(_, a, b) => Cases(a) + if b.Some? then Cases(b.value) else []
    case While(_, b) => Cases(b)
    case Do(b, _) => Cases(b)
    case For(_, _, _, b) => Cases(b)
    case _ => []
  }

  function CasesOf(items: Items): seq<int>
    decreases items
  {
    match items
    case Nil => []
    case Cons(h, t) => Cases(h) + CasesOf(t)
  }

  /** How many default labels belong to the switch around s. */
  function Defaults(s: Stmt): nat
    decreases s
  {
    match s
    case Case(_, b) => Defaults(b)
    case Default(b) => 1 + Defaults(b)
    case Block(items) => DefaultsOf(items)
    case If(_, a, b) => Defaults(a) + if b.Some? then Defaults(b.value) else 0
    case While(_, b) => Defaults(b)
    case Do(b, _) => Defaults(b)
    case For(_, _, _, b) => Defaults(b)
    case _ => 0
  }

  function DefaultsOf(items: Items): nat
    decreases items
  {
    match items
    case Nil => 0
    case Cons(h, t) => Defaults(h) + DefaultsOf(t)
  }

  /** Fresh labels for the case values, in order. */
  function Named(values: seq<int>, lab: nat): seq<(int, Label)>
    decreases |values|
  {
    if values == [] then [] else [(values[0], L(lab))] + Named(values[1..], lab + 1)
  }

  /** The table those pairs make: a later pair replaces an earlier one. */
  function TableOf(named: seq<(int, Label)>): Table {
    if named == [] then map[]
    else var last := named[|named| - 1]; TableOf(named[..|named| - 1])[last.0 := last.1]
  }

  /** Compare and jump, one case after another. */
  function CDispatch(cv: Operand, named: seq<(int, Label)>, n: Ctr): (Code, Ctr)
    decreases |named|
  {
    if named == [] then ([], n)
    else
      var next := L(n.lab);
      var (rest, n1) := CDispatch(cv, named[1..], Ctr(n.lab + 1, n.tmp + 1));
      ([IBin(n.tmp, Eq, cv, Imm(named[0].0)), BranchZ(TmpOp(n.tmp), next), Jump(named[0].1), ILabel(next)] + rest, n1)
  }

  // ---- statements ----

  function CaseLabel(x: Ctx, v: int): Code {
    if |x.switches| > 0 && v in x.switches[0].0 then [ILabel(x.switches[0].0[v])] else []
  }

  function DefaultLabel(x: Ctx): Code {
    if |x.switches| > 0 && x.switches[0].1.Some? then [ILabel(x.switches[0].1.value)] else []
  }

  /** The continue target inside a switch. */
  function ContOf(x: Ctx): Label { if |x.loops| > 0 then x.loops[0].1 else Nowhere }

  function CStmt(s: Stmt, n: Ctr, x: Ctx): (Code, Ctr)
    decreases s, 1
  {
    match s
    case Null => ([], n)
    case ExprStmt(e) => var (c, _, n1) := CExpr(e, n); (c, n1)
    case Decl(y, i) =>
      if i.None? then ([], n) else var (c, a, n1) := CExpr(i.value, n); (c + [SetVar(y, a)], n1)
    case Block(items) => CItems(items, n, x)
    case If(c, a, b) =>
      var tl, fl, end := L(n.lab), L(n.lab + 1), L(n.lab + 2);
      var (cc, n1) := CBool(c, tl, fl, n.(lab := n.lab + 3));
      var (ca, n2) := CStmt(a, n1, x);
      var (cb, n3) := if b.Some? then CStmt(b.value, n2, x) else ([], n2);
      (cc + ([ILabel(tl)] + ca + [Jump(end), ILabel(fl)]) + (cb + [ILabel(end)]), n3)
    case While(c, b) =>
      var top, body, end := L(n.lab), L(n.lab + 1), L(n.lab + 2);
      var (cc, n1) := CBool(c, body, end, n.(lab := n.lab + 3));
      var (cb, n2) := CStmt(b, n1, Enter(x, end, top));
      ([ILabel(top)] + cc + [ILabel(body)] + (cb + [Jump(top), ILabel(end)]), n2)
    case Do(b, c) =>
      var body, cond, end := L(n.lab), L(n.lab + 1), L(n.lab + 2);
      var (cb, n1) := CStmt(b, n.(lab := n.lab + 3), Enter(x, end, cond));
      var (cc, n2) := CBool(c, body, end, n1);
      ([ILabel(body)] + cb + ([ILabel(cond)] + cc + [ILabel(end)]), n2)
    case For(i, c, inc, b) =>
      var (ci, n1) := CItems(i, n.(lab := n.lab + 4), x);
      var (cl, n2) := CLoop(c, inc, b, n.lab, n1, x);
      (ci + cl, n2)
    case Break => (if |x.loops| > 0 then [Jump(x.loops[0].0)] else [], n)
    case Continue => (if |x.loops| > 0 then [Jump(x.loops[0].1)] else [], n)
    case Return(e) =>
      if e.None? then ([RetVoid], n) else var (c, a, n1) := CExpr(e.value, n); (c + [Ret(a)], n1)
    case Switch(c, b) =>
      var (cc, cv, n1) := CExpr(c, n);
      var (cs, n2) := CSwitch(cv, b, n1, x);
      (cc + cs, n2)
    case Case(v, b) => var (c, n1) := CStmt(b, n, x); (CaseLabel(x, v) + c, n1)
    case Default(b) => var (c, n1) := CStmt(b, n, x); (DefaultLabel(x) + c, n1)
  }

  function CItems(items: Items, n: Ctr, x: Ctx): (Code, Ctr)
    decreases items
  {
    match items
    case Nil => ([], n)
    case Cons(h, t) =>
      var (ch, n1) := CStmt(h, n, x);
      var (ct, n2) := CItems(t, n1, x);
      (ch + ct, n2)
  }

  /** A for loop from its test on; its four labels start at lab. */
  function CLoop(c: Option<Expr>, inc: Option<Expr>, b: Stmt, lab: nat, n: Ctr, x: Ctx): (Code, Ctr)
    decreases b, 2
  {
    var top, body, incL, end := L(lab), L(lab + 1), L(lab + 2), L(lab + 3);
    var (cc, n1) := if c.Some? then CBool(c.value, body, end, n) else ([Jump(body)], n);
    var (cb, n2) := CStmt(b, n1, Enter(x, end, incL));
    var (ci, n3) := CStep(inc, n2);
    ([ILabel(top)] + cc + [ILabel(body)] + (cb + ([ILabel(incL)] + ci + [Jump(top), ILabel(end)])), n3)
  }

  function CStep(e: Option<Expr>, n: Ctr): (Code, Ctr) {
    if e.Some? then var (c, _, n1) := CExpr(e.value, n); (c, n1) else ([], n)
  }

  /** The labels of a switch whose end label is numbered lab: its cases, its default, the next number. */
  function NamedOf(b: Stmt, lab: nat): seq<(int, Label)> { Named(Cases(b), lab + 1) }

  function DefaultOf(b: Stmt, lab: nat): Option<Label> {
    if Defaults(b) > 0 then Some(L(lab + 1 + |Cases(b)|)) else None
  }

  function AfterLabels(b: Stmt, n: Ctr): Ctr {
    n.(lab := n.lab + 1 + |Cases(b)| + if Defaults(b) > 0 then 1 else 0)
  }

  function EnterSwitch(b: Stmt, lab: nat, x: Ctx): Ctx {
    Ctx([(L(lab), ContOf(x))] + x.loops, [(TableOf(NamedOf(b, lab)), DefaultOf(b, lab))] + x.switches)
  }

  /** A switch once its value is in cv. */
  function CSwitch(cv: Operand, b: Stmt, n: Ctr, x: Ctx): (Code, Ctr)
    decreases b, 2
  {
    var end := L(n.lab);
    var d := DefaultOf(b, n.lab);
    var (cd, n1) := CDispatch(cv, NamedOf(b, n.lab), AfterLabels(b, n));
    var (cb, n2) := CStmt(b, n1, EnterSwitch(b, n.lab, x));
    (cd + [Jump(if d.Some? then d.value else end)] + (cb + [ILabel(end)]), n2)
  }

  // ---- functions ----

  /** lsEmittedReturn after s, from its value before. */
  predicate Emitted(s: Stmt, before: bool)
    decreases s
  {
    match s
    case Return(_) => true
    case Block(items) => EmittedItems(items, before)
    case Case(_, b) => Emitted(b, before)
    case Default(b) => Emitted(b, before)
    case Decl(_, _) => before
    case _ => false
  }

  predicate EmittedItems(items: Items, before: bool)
    decreases items
  {
    match items
    case Nil => before
    case Cons(h, t) => EmittedItems(t, Emitted(h, before))
  }

  /** What the end of a function emits unless a return closed it. */
  function Epilogue(emitted: bool, void: bool): Code {
    if emitted then [] else if void then [RetVoid] else [Ret(Imm(0))]
  }

  function CFunction(body: Stmt, void: bool, n: Ctr): (Code, Ctr) {
    var (c, n1) := CStmt(body, n, EMPTY);
    (c + Epilogue(Emitted(body, false), void), n1)
  }
}
