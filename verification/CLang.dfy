/** The scalar C fragment that Lower.hs is studied on: expressions over int variables, structured
    statements, switch with case labels anywhere in its body. One integer type throughout. */
module CLang {
  import opened Options

  type Name = string
  type Store = map<Name, int>

  function Get(s: Store, x: Name): int { if x in s then s[x] else 0 }

  // ---- arithmetic ----

  datatype BinOp = Add | Sub | Mul | Lt | Le | Gt | Ge | Eq | Ne

  datatype UnOp = Neg | Not

  /** Two's complement 32-bit wrap-around. */
  function Wrap(x: int): int { (x + 0x8000_0000) % 0x1_0000_0000 - 0x8000_0000 }

  function Truth(b: bool): int { if b then 1 else 0 }

  function Apply(op: BinOp, a: int, b: int): int {
    match op
    case Add => Wrap(a + b)
    case Sub => Wrap(a - b)
    case Mul => Wrap(a * b)
    case Lt => Truth(a < b)
    case Le => Truth(a <= b)
    case Gt => Truth(a > b)
    case Ge => Truth(a >= b)
    case Eq => Truth(a == b)
    case Ne => Truth(a != b)
  }

  function ApplyUn(op: UnOp, a: int): int {
    match op
    case Neg => Wrap(-a)
    case Not => Truth(a == 0)
  }

  /** r is the 32-bit int that differs from the exact result x by a multiple of 2^32: x itself when it is in range. */
  ghost predicate WrapsTo(x: int, r: int) {
    && -0x8000_0000 <= r < 0x8000_0000
    && (exists k: int :: x == r + Multiple(k))
    && (-0x8000_0000 <= x < 0x8000_0000 ==> r == x)
  }

  function Multiple(k: int): int { k * 0x1_0000_0000 }

  lemma WrapIs(x: int)
    ensures WrapsTo(x, Wrap(x))
  {
    var k := (x + 0x8000_0000) / 0x1_0000_0000;
    assert x == Wrap(x) + Multiple(k);
  }

  /** The operators compute what section 6.5 of ISO/IEC 9899:1999 says, with overflow wrapping around. */
  lemma OperatorsCompute(a: int, b: int)
    ensures WrapsTo(a + b, Apply(Add, a, b)) && WrapsTo(a - b, Apply(Sub, a, b)) && WrapsTo(a * b, Apply(Mul, a, b))
    ensures Apply(Lt, a, b) == (if a < b then 1 else 0) && Apply(Gt, a, b) == (if b < a then 1 else 0)
    ensures Apply(Le, a, b) == (if b < a then 0 else 1) && Apply(Ge, a, b) == (if a < b then 0 else 1)
    ensures Apply(Eq, a, b) == (if a == b then 1 else 0) && Apply(Ne, a, b) == (if a == b then 0 else 1)
    ensures WrapsTo(0 - a, ApplyUn(Neg, a)) && ApplyUn(Not, a) == (if a == 0 then 1 else 0)
  {
    hide Wrap, WrapsTo;
    WrapIs(a + b);
    WrapIs(a - b);
    WrapIs(a * b);
    WrapIs(0 - a);
  }

  // ---- expressions ----

  datatype Expr =
    | Const(n: int)
    | Var(x: Name)
    | Binary(op: BinOp, l: Expr, r: Expr)
    | Unary(uop: UnOp, e: Expr)
    | LAnd(l: Expr, r: Expr)
    | LOr(l: Expr, r: Expr)
    | Cond(c: Expr, l: Expr, r: Expr)
    | Comma(l: Expr, r: Expr)
    | Assign(x: Name, e: Expr)
    | AssignOp(op: BinOp, x: Name, e: Expr)
    | PreStep(op: BinOp, x: Name)     // ++x, --x
    | PostStep(op: BinOp, x: Name)    // x++, x--

  /** Value and store after evaluating, operands left to right. */
  function Eval(e: Expr, s: Store): (int, Store) {
    match e
    case Const(n) => (n, s)
    case Var(x) => (Get(s, x), s)
    case Binary(op, l, r) =>
      var (a, s1) := Eval(l, s);
      var (b, s2) := Eval(r, s1);
      (Apply(op, a, b), s2)
    case Unary(op, x) =>
      var (a, s1) := Eval(x, s);
      (ApplyUn(op, a), s1)
    case LAnd(l, r) =>
      var (a, s1) := Eval(l, s);
      if a == 0 then (0, s1) else var (b, s2) := Eval(r, s1); (Truth(b != 0), s2)
    case LOr(l, r) =>
      var (a, s1) := Eval(l, s);
      if a != 0 then (1, s1) else var (b, s2) := Eval(r, s1); (Truth(b != 0), s2)
    case Cond(c, l, r) =>
      var (a, s1) := Eval(c, s);
      if a != 0 then Eval(l, s1) else Eval(r, s1)
    case Comma(l, r) => Eval(r, Eval(l, s).1)
    case Assign(x, r) =>
      var (a, s1) := Eval(r, s);
      (a, s1[x := a])
    case AssignOp(op, x, r) =>
      var was := Get(s, x);
      var (b, s1) := Eval(r, s);
      var v := Apply(op, was, b);
      (v, s1[x := v])
    case PreStep(op, x) =>
      var v := Apply(op, Get(s, x), 1);
      (v, s[x := v])
    case PostStep(op, x) =>
      (Get(s, x), s[x := Apply(op, Get(s, x), 1)])
  }

  function Writes(e: Expr): set<Name> {
    match e
    case Const(_) => {}
    case Var(_) => {}
    case Binary(_, l, r) => Writes(l) + Writes(r)
    case Unary(_, x) => Writes(x)
    case LAnd(l, r) => Writes(l) + Writes(r)
    case LOr(l, r) => Writes(l) + Writes(r)
    case Cond(c, l, r) => Writes(c) + Writes(l) + Writes(r)
    case Comma(l, r) => Writes(l) + Writes(r)
    case Assign(x, r) => Writes(r) + {x}
    case AssignOp(_, x, r) => Writes(r) + {x}
    case PreStep(_, x) => {x}
    case PostStep(_, x) => {x}
  }

  function Reads(e: Expr): set<Name> {
    match e
    case Const(_) => {}
    case Var(x) => {x}
    case Binary(_, l, r) => Reads(l) + Reads(r)
    case Unary(_, x) => Reads(x)
    case LAnd(l, r) => Reads(l) + Reads(r)
    case LOr(l, r) => Reads(l) + Reads(r)
    case Cond(c, l, r) => Reads(c) + Reads(l) + Reads(r)
    case Comma(l, r) => Reads(l) + Reads(r)
    case Assign(_, r) => Reads(r)
    case AssignOp(_, x, r) => Reads(r) + {x}
    case PreStep(_, x) => {x}
    case PostStep(_, x) => {x}
  }

  /** No unsequenced conflict (section 6.5, paragraph 2, of ISO/IEC 9899:1999), whichever operands run. */
  predicate NoConflict(e: Expr) {
    match e
    case Const(_) => true
    case Var(_) => true
    case Binary(_, l, r) =>
      && NoConflict(l) && NoConflict(r)
      && Writes(l) !! (Reads(r) + Writes(r))
      && Writes(r) !! (Reads(l) + Writes(l))
    case Unary(_, x) => NoConflict(x)
    case LAnd(l, r) => NoConflict(l) && NoConflict(r)
    case LOr(l, r) => NoConflict(l) && NoConflict(r)
    case Cond(c, l, r) => NoConflict(c) && NoConflict(l) && NoConflict(r)
    case Comma(l, r) => NoConflict(l) && NoConflict(r)
    case Assign(x, r) => NoConflict(r) && x !in Writes(r)
    case AssignOp(_, x, r) => NoConflict(r) && x !in Writes(r)
    case PreStep(_, _) => true
    case PostStep(_, _) => true
  }

  /** The variables written, and those read, when e is evaluated from s. */
  function WritesIn(e: Expr, s: Store): set<Name> {
    match e
    case Const(_) => {}
    case Var(_) => {}
    case Binary(_, l, r) => WritesIn(l, s) + WritesIn(r, Eval(l, s).1)
    case Unary(_, x) => WritesIn(x, s)
    case LAnd(l, r) => WritesIn(l, s) + if Eval(l, s).0 == 0 then {} else WritesIn(r, Eval(l, s).1)
    case LOr(l, r) => WritesIn(l, s) + if Eval(l, s).0 != 0 then {} else WritesIn(r, Eval(l, s).1)
    case Cond(c, l, r) => WritesIn(c, s) + WritesIn(if Eval(c, s).0 != 0 then l else r, Eval(c, s).1)
    case Comma(l, r) => WritesIn(l, s) + WritesIn(r, Eval(l, s).1)
    case Assign(x, r) => WritesIn(r, s) + {x}
    case AssignOp(_, x, r) => WritesIn(r, s) + {x}
    case PreStep(_, x) => {x}
    case PostStep(_, x) => {x}
  }

  function ReadsIn(e: Expr, s: Store): set<Name> {
    match e
    case Const(_) => {}
    case Var(x) => {x}
    case Binary(_, l, r) => ReadsIn(l, s) + ReadsIn(r, Eval(l, s).1)
    case Unary(_, x) => ReadsIn(x, s)
    case LAnd(l, r) => ReadsIn(l, s) + if Eval(l, s).0 == 0 then {} else ReadsIn(r, Eval(l, s).1)
    case LOr(l, r) => ReadsIn(l, s) + if Eval(l, s).0 != 0 then {} else ReadsIn(r, Eval(l, s).1)
    case Cond(c, l, r) => ReadsIn(c, s) + ReadsIn(if Eval(c, s).0 != 0 then l else r, Eval(c, s).1)
    case Comma(l, r) => ReadsIn(l, s) + ReadsIn(r, Eval(l, s).1)
    case Assign(_, r) => ReadsIn(r, s)
    case AssignOp(_, x, r) => ReadsIn(r, s) + {x}
    case PreStep(_, x) => {x}
    case PostStep(_, x) => {x}
  }

  /** The evaluation from s meets no unsequenced conflict: operands that do not run have no part in it. */
  predicate NoConflictIn(e: Expr, s: Store) {
    match e
    case Const(_) => true
    case Var(_) => true
    case Binary(_, l, r) => NoConflictIn(l, s) && NoConflictIn(r, Eval(l, s).1) && Apart(l, r, s)
    case Unary(_, x) => NoConflictIn(x, s)
    case LAnd(l, r) => NoConflictIn(l, s) && (Eval(l, s).0 != 0 ==> NoConflictIn(r, Eval(l, s).1))
    case LOr(l, r) => NoConflictIn(l, s) && (Eval(l, s).0 == 0 ==> NoConflictIn(r, Eval(l, s).1))
    case Cond(c, l, r) => NoConflictIn(c, s) && NoConflictIn(if Eval(c, s).0 != 0 then l else r, Eval(c, s).1)
    case Comma(l, r) => NoConflictIn(l, s) && NoConflictIn(r, Eval(l, s).1)
    case Assign(x, r) => NoConflictIn(r, s) && x !in WritesIn(r, s)
    case AssignOp(_, x, r) => NoConflictIn(r, s) && x !in WritesIn(r, s)
    case PreStep(_, _) => true
    case PostStep(_, _) => true
  }

  /** Neither of two operands writes what the other reads or writes. */
  predicate Apart(l: Expr, r: Expr, s: Store) {
    var s1 := Eval(l, s).1;
    && WritesIn(l, s) !! (ReadsIn(r, s1) + WritesIn(r, s1))
    && WritesIn(r, s1) !! (ReadsIn(l, s) + WritesIn(l, s))
  }

  // ---- what a conflict is ----

  /** What is evaluated in evaluating e from s, itself among it, each from its own store. */
  function Evaluated(e: Expr, s: Store): set<(Expr, Store)> {
    {(e, s)} + match e
      case Binary(_, l, r) => Evaluated(l, s) + Evaluated(r, Eval(l, s).1)
      case Unary(_, x) => Evaluated(x, s)
      case LAnd(l, r) => Evaluated(l, s) + if Eval(l, s).0 != 0 then Evaluated(r, Eval(l, s).1) else {}
      case LOr(l, r) => Evaluated(l, s) + if Eval(l, s).0 == 0 then Evaluated(r, Eval(l, s).1) else {}
      case Cond(c, l, r) => Evaluated(c, s) + Evaluated(if Eval(c, s).0 != 0 then l else r, Eval(c, s).1)
      case Comma(l, r) => Evaluated(l, s) + Evaluated(r, Eval(l, s).1)
      case Assign(_, r) => Evaluated(r, s)
      case AssignOp(_, _, r) => Evaluated(r, s)
      case _ => {}
  }

  /** Two accesses to one variable, one of them a write, in the two operands of an operator, or the write of an assignment and
      one in what it assigns. */
  ghost predicate Clash(p: (Expr, Store)) {
    match p.0
    case Binary(_, l, r) =>
      var t := Eval(l, p.1).1;
      exists x :: (x in WritesIn(l, p.1) && (x in ReadsIn(r, t) || x in WritesIn(r, t))) ||
                  (x in WritesIn(r, t) && x in ReadsIn(l, p.1))
    case Assign(x, r) => x in WritesIn(r, p.1)
    case AssignOp(_, x, r) => x in WritesIn(r, p.1)
    case _ => false
  }

  /** An evaluation meets no conflict exactly when nothing evaluated in it is a clash. */
  lemma {:induction false} NoConflictInIff(e: Expr, s: Store)
    ensures NoConflictIn(e, s) <==> forall p :: p in Evaluated(e, s) ==> !Clash(p)
  {
    hide WritesIn, ReadsIn, Eval, Clash, Apart;
    match e
    case Binary(_, l, r) =>
      NoConflictInIff(l, s);
      NoConflictInIff(r, Eval(l, s).1);
      ApartIff(e, s);
    case Unary(_, x) => NoConflictInIff(x, s); NoClash(e, s);
    case LAnd(l, r) => NoConflictInIff(l, s); NoConflictInIff(r, Eval(l, s).1); NoClash(e, s);
    case LOr(l, r) => NoConflictInIff(l, s); NoConflictInIff(r, Eval(l, s).1); NoClash(e, s);
    case Cond(c, l, r) =>
      NoConflictInIff(c, s);
      NoConflictInIff(if Eval(c, s).0 != 0 then l else r, Eval(c, s).1);
      NoClash(e, s);
    case Comma(l, r) => NoConflictInIff(l, s); NoConflictInIff(r, Eval(l, s).1); NoClash(e, s);
    case Assign(x, r) => NoConflictInIff(r, s); AssignClash(e, s, x, r);
    case AssignOp(_, x, r) => NoConflictInIff(r, s); AssignClash(e, s, x, r);
    case _ => NoClash(e, s);
  }

  lemma NoClash(e: Expr, s: Store)
    requires !e.Binary? && !e.Assign? && !e.AssignOp?
    ensures !Clash((e, s))
  {}

  lemma AssignClash(e: Expr, s: Store, x: Name, r: Expr)
    requires e == Assign(x, r) || (e.AssignOp? && e == AssignOp(e.op, x, r))
    ensures Clash((e, s)) <==> x in WritesIn(r, s)
  {}

  lemma ApartIff(e: Expr, s: Store)
    requires e.Binary?
    ensures Clash((e, s)) <==> !Apart(e.l, e.r, s)
  {
    hide WritesIn, ReadsIn, Eval;
    var t := Eval(e.l, s).1;
    var a, b, c, d := WritesIn(e.l, s), ReadsIn(e.r, t), WritesIn(e.r, t), ReadsIn(e.l, s);
    if !(a !! (b + c)) {
      var x :| x in a && x in b + c;
    } else if !(c !! (d + a)) {
      var x :| x in c && x in d + a;
      assert x !in a;
    }
  }

  /** The expressions in e, itself among them. */
  function Nodes(e: Expr): set<Expr> {
    {e} + match e
      case Binary(_, l, r) => Nodes(l) + Nodes(r)
      case Unary(_, x) => Nodes(x)
      case LAnd(l, r) => Nodes(l) + Nodes(r)
      case LOr(l, r) => Nodes(l) + Nodes(r)
      case Cond(c, l, r) => Nodes(c) + Nodes(l) + Nodes(r)
      case Comma(l, r) => Nodes(l) + Nodes(r)
      case Assign(_, r) => Nodes(r)
      case AssignOp(_, _, r) => Nodes(r)
      case _ => {}
  }

  /** The same for what is written in the operands, whether it runs or not. */
  ghost predicate MayClash(e: Expr) {
    match e
    case Binary(_, l, r) =>
      exists x :: (x in Writes(l) && (x in Reads(r) || x in Writes(r))) || (x in Writes(r) && x in Reads(l))
    case Assign(x, r) => x in Writes(r)
    case AssignOp(_, x, r) => x in Writes(r)
    case _ => false
  }

  /** No conflict is possible exactly when no expression in e may clash. */
  lemma {:induction false} NoConflictIff(e: Expr)
    ensures NoConflict(e) <==> forall p :: p in Nodes(e) ==> !MayClash(p)
  {
    hide Writes, Reads;
    match e
    case Binary(_, l, r) => NoConflictIff(l); NoConflictIff(r); MayClashIff(e);
    case Unary(_, x) => NoConflictIff(x);
    case LAnd(l, r) => NoConflictIff(l); NoConflictIff(r);
    case LOr(l, r) => NoConflictIff(l); NoConflictIff(r);
    case Cond(c, l, r) => NoConflictIff(c); NoConflictIff(l); NoConflictIff(r);
    case Comma(l, r) => NoConflictIff(l); NoConflictIff(r);
    case Assign(x, r) => NoConflictIff(r); assert MayClash(e) <==> x in Writes(r);
    case AssignOp(_, x, r) => NoConflictIff(r); assert MayClash(e) <==> x in Writes(r);
    case _ =>
  }

  lemma MayClashIff(e: Expr)
    requires e.Binary?
    ensures MayClash(e) <==> !(Writes(e.l) !! (Reads(e.r) + Writes(e.r)) && Writes(e.r) !! (Reads(e.l) + Writes(e.l)))
  {
    hide Writes, Reads;
    var a, b, c, d := Writes(e.l), Reads(e.r), Writes(e.r), Reads(e.l);
    if !(a !! (b + c)) {
      var x :| x in a && x in b + c;
    } else if !(c !! (d + a)) {
      var x :| x in c && x in d + a;
      assert x !in a;
    }
  }

  /** What an evaluation touches is among what the expression mentions, so that one without conflicts meets none. */
  lemma {:induction false} StaticCovers(e: Expr, s: Store)
    ensures WritesIn(e, s) <= Writes(e) && ReadsIn(e, s) <= Reads(e)
    ensures NoConflict(e) ==> NoConflictIn(e, s)
  {
    match e
    case Binary(_, l, r) =>
      StaticCovers(l, s);
      StaticCovers(r, Eval(l, s).1);
    case Unary(_, x) => StaticCovers(x, s);
    case LAnd(l, r) =>
      StaticCovers(l, s);
      StaticCovers(r, Eval(l, s).1);
    case LOr(l, r) =>
      StaticCovers(l, s);
      StaticCovers(r, Eval(l, s).1);
    case Cond(c, l, r) =>
      StaticCovers(c, s);
      StaticCovers(l, Eval(c, s).1);
      StaticCovers(r, Eval(c, s).1);
    case Comma(l, r) =>
      StaticCovers(l, s);
      StaticCovers(r, Eval(l, s).1);
    case Assign(_, r) => StaticCovers(r, s);
    case AssignOp(_, _, r) => StaticCovers(r, s);
    case _ =>
  }

  /** The same evaluation with every pair of unsequenced operands taken right to left. */
  function EvalRightFirst(e: Expr, s: Store): (int, Store) {
    match e
    case Const(n) => (n, s)
    case Var(x) => (Get(s, x), s)
    case Binary(op, l, r) =>
      var (b, s1) := EvalRightFirst(r, s);
      var (a, s2) := EvalRightFirst(l, s1);
      (Apply(op, a, b), s2)
    case Unary(op, x) =>
      var (a, s1) := EvalRightFirst(x, s);
      (ApplyUn(op, a), s1)
    case LAnd(l, r) =>
      var (a, s1) := EvalRightFirst(l, s);
      if a == 0 then (0, s1) else var (b, s2) := EvalRightFirst(r, s1); (Truth(b != 0), s2)
    case LOr(l, r) =>
      var (a, s1) := EvalRightFirst(l, s);
      if a != 0 then (1, s1) else var (b, s2) := EvalRightFirst(r, s1); (Truth(b != 0), s2)
    case Cond(c, l, r) =>
      var (a, s1) := EvalRightFirst(c, s);
      if a != 0 then EvalRightFirst(l, s1) else EvalRightFirst(r, s1)
    case Comma(l, r) => EvalRightFirst(r, EvalRightFirst(l, s).1)
    case Assign(x, r) =>
      var (a, s1) := EvalRightFirst(r, s);
      (a, s1[x := a])
    case AssignOp(op, x, r) =>
      var (b, s1) := EvalRightFirst(r, s);
      var v := Apply(op, Get(s1, x), b);
      (v, s1[x := v])
    case PreStep(op, x) =>
      var v := Apply(op, Get(s, x), 1);
      (v, s[x := v])
    case PostStep(op, x) =>
      (Get(s, x), s[x := Apply(op, Get(s, x), 1)])
  }

  /** x is as it was. */
  predicate Same(s: Store, t: Store, x: Name) { (x in s <==> x in t) && (x in s ==> s[x] == t[x]) }

  ghost predicate Agree(r: set<Name>, s: Store, t: Store) { forall x :: x in r ==> Get(s, x) == Get(t, x) }

  /** From s to s' and from t to t' the variable was left alone, or set to the same value. */
  predicate Tracks(s: Store, s': Store, t: Store, t': Store, w: set<Name>, x: Name) {
    (Same(s', s, x) && Same(t', t, x)) || (x in w && x in s' && x in t' && s'[x] == t'[x])
  }

  ghost predicate Effect(s: Store, s': Store, t: Store, t': Store, w: set<Name>) {
    forall x :: Tracks(s, s', t, t', w, x)
  }

  lemma EffectTrans(s: Store, s1: Store, s2: Store, t: Store, t1: Store, t2: Store, v: set<Name>, w: set<Name>)
    requires Effect(s, s1, t, t1, v) && Effect(s1, s2, t1, t2, w)
    ensures Effect(s, s2, t, t2, v + w)
  {
    forall x
      ensures Tracks(s, s2, t, t2, v + w, x)
    {
      assert Tracks(s, s1, t, t1, v, x) && Tracks(s1, s2, t1, t2, w, x);
    }
  }

  lemma EffectSets(s: Store, s': Store, t: Store, t': Store, v: set<Name>, x: Name, n: int)
    requires Effect(s, s', t, t', v)
    ensures Effect(s, s'[x := n], t, t'[x := n], v + {x})
  {
    var s2, t2 := s'[x := n], t'[x := n];
    forall y
      ensures Tracks(s, s2, t, t2, v + {x}, y)
    {
      assert Tracks(s, s', t, t', v, y);
    }
  }

  lemma AgreeAfter(r: set<Name>, s: Store, s': Store, t: Store, t': Store, w: set<Name>)
    requires Agree(r, s, t) && Effect(s, s', t, t', w)
    ensures Agree(r, s', t')
  {
    forall x | x in r
      ensures Get(s', x) == Get(t', x)
    {
      assert Tracks(s, s', t, t', w, x);
    }
  }

  /** What an evaluation that agrees with another one touches. */
  ghost predicate SameCourse(e: Expr, s: Store, t: Store) {
    && Eval(e, s).0 == Eval(e, t).0 && ReadsIn(e, t) == ReadsIn(e, s) && WritesIn(e, t) == WritesIn(e, s)
    && Effect(s, Eval(e, s).1, t, Eval(e, t).1, WritesIn(e, s)) && (NoConflictIn(e, s) ==> NoConflictIn(e, t))
  }

  /** Two evaluations in turn. */
  lemma {:induction false} TwoFrames(e: Expr, l: Expr, r: Expr, s: Store, t: Store)
    requires l < e && r < e
    requires Agree(ReadsIn(l, s) + ReadsIn(r, Eval(l, s).1), s, t)
    ensures SameCourse(l, s, t) && SameCourse(r, Eval(l, s).1, Eval(l, t).1)
    ensures Effect(s, Eval(r, Eval(l, s).1).1, t, Eval(r, Eval(l, t).1).1, WritesIn(l, s) + WritesIn(r, Eval(l, s).1))
    decreases e, 0
  {
    EvalFrame(l, s, t);
    hide Effect, Eval, WritesIn, ReadsIn, NoConflictIn;
    var s1, t1 := Eval(l, s).1, Eval(l, t).1;
    AgreeAfter(ReadsIn(r, s1), s, s1, t, t1, WritesIn(l, s));
    EvalFrame(r, s1, t1);
    EffectTrans(s, s1, Eval(r, s1).1, t, t1, Eval(r, t1).1, WritesIn(l, s), WritesIn(r, s1));
  }

  /** Evaluation from stores that agree on what it reads takes the same course in both: a variable is
      left alone in both, or set to the same value in both. */
  lemma {:induction false} EvalFrame(e: Expr, s: Store, t: Store)
    requires Agree(ReadsIn(e, s), s, t)
    ensures SameCourse(e, s, t)
    decreases e, 2
  {
    hide Effect, Apply, ApplyUn;
    match e
    case Const(_) => EffectNone(s, t);
    case Var(_) => EffectNone(s, t);
    case Binary(_, l, r) => TwoFrames(e, l, r, s, t);
    case Unary(_, x) => EvalFrame(x, s, t);
    case LAnd(_, _) => ShortFrame(e, s, t);
    case LOr(_, _) => ShortFrame(e, s, t);
    case Cond(c, l, r) => TwoFrames(e, c, if Eval(c, s).0 != 0 then l else r, s, t);
    case Comma(l, r) => TwoFrames(e, l, r, s, t);
    case Assign(_, _) => AssignFrame(e, s, t);
    case AssignOp(_, _, _) => AssignFrame(e, s, t);
    case PreStep(_, _) => StepFrame(e, s, t);
    case PostStep(_, _) => StepFrame(e, s, t);
  }

  lemma {:induction false} AssignFrame(e: Expr, s: Store, t: Store)
    requires (e.Assign? || e.AssignOp?) && Agree(ReadsIn(e, s), s, t)
    ensures SameCourse(e, s, t)
    decreases e, 1
  {
    hide Effect, Wrap;
    EvalFrame(e.e, s, t);
    var v := if e.Assign? then Eval(e.e, s).0 else Apply(e.op, Get(s, e.x), Eval(e.e, s).0);
    EffectSets(s, Eval(e.e, s).1, t, Eval(e.e, t).1, WritesIn(e.e, s), e.x, v);
  }

  lemma StepFrame(e: Expr, s: Store, t: Store)
    requires (e.PreStep? || e.PostStep?) && Agree(ReadsIn(e, s), s, t)
    ensures SameCourse(e, s, t)
  {
    hide Effect, Wrap;
    EffectNone(s, t);
    EffectSets(s, s, t, t, {}, e.x, Apply(e.op, Get(s, e.x), 1));
    assert {} + {e.x} == {e.x};
  }

  /** && and ||: the left half alone, or both. */
  lemma {:induction false} ShortFrame(e: Expr, s: Store, t: Store)
    requires (e.LAnd? || e.LOr?) && Agree(ReadsIn(e, s), s, t)
    ensures SameCourse(e, s, t)
    decreases e, 1
  {
    hide Effect;
    var w, v := WritesIn(e.l, s), ReadsIn(e.l, s);
    if (Eval(e.l, s).0 == 0) == e.LAnd? {
      assert w + {} == w && v + {} == v;
      EvalFrame(e.l, s, t);
    } else {
      TwoFrames(e, e.l, e.r, s, t);
    }
  }

  lemma EffectNone(s: Store, t: Store)
    ensures Effect(s, s, t, t, {})
  {}

  /** In an evaluation without conflicts the order of unsequenced operands does not matter, so Eval is the meaning. */
  lemma {:induction false} OrderIrrelevant(e: Expr, s: Store)
    requires NoConflictIn(e, s)
    ensures EvalRightFirst(e, s) == Eval(e, s)
  {
    hide Effect;
    match e
    case Const(_) =>
    case Var(_) =>
    case Binary(_, l, r) =>
      Commute(l, r, s);
      OrderIrrelevant(l, Eval(r, s).1);
      OrderIrrelevant(r, s);
    case Unary(_, x) => OrderIrrelevant(x, s);
    case LAnd(l, r) =>
      OrderIrrelevant(l, s);
      if Eval(l, s).0 != 0 { OrderIrrelevant(r, Eval(l, s).1); }
    case LOr(l, r) =>
      OrderIrrelevant(l, s);
      if Eval(l, s).0 == 0 { OrderIrrelevant(r, Eval(l, s).1); }
    case Cond(c, l, r) =>
      OrderIrrelevant(c, s);
      OrderIrrelevant(if Eval(c, s).0 != 0 then l else r, Eval(c, s).1);
    case Comma(l, r) =>
      OrderIrrelevant(l, s);
      OrderIrrelevant(r, Eval(l, s).1);
    case Assign(_, r) => OrderIrrelevant(r, s);
    case AssignOp(_, x, r) =>
      OrderIrrelevant(r, s);
      SelfAgree(ReadsIn(r, s), s);
      EvalFrame(r, s, s);
      EffectAt(s, Eval(r, s).1, s, Eval(r, s).1, WritesIn(r, s), x);
    case PreStep(_, _) =>
    case PostStep(_, _) =>
  }

  /** Operands that do not interfere commute. */
  lemma Commute(l: Expr, r: Expr, s: Store)
    requires Apart(l, r, s)
    ensures Eval(l, s).0 == Eval(l, Eval(r, s).1).0
    ensures Eval(r, Eval(l, s).1).0 == Eval(r, s).0
    ensures Eval(r, Eval(l, s).1).1 == Eval(l, Eval(r, s).1).1
    ensures NoConflictIn(l, s) ==> NoConflictIn(l, Eval(r, s).1)
    ensures NoConflictIn(r, Eval(l, s).1) ==> NoConflictIn(r, s)
  {
    var sl, sr := Eval(l, s).1, Eval(r, s).1;
    hide Eval, ReadsIn, WritesIn, NoConflictIn, Effect, Agree;
    SelfAgree(ReadsIn(l, s), s);
    EvalFrame(l, s, s);
    Untouched(ReadsIn(r, sl), s, sl, WritesIn(l, s));
    AgreeBack(ReadsIn(r, sl), s, sl);
    EvalFrame(r, sl, s);
    SelfAgree(ReadsIn(r, s), s);
    EvalFrame(r, s, s);
    Untouched(ReadsIn(l, s), s, sr, WritesIn(r, s));
    EvalFrame(l, s, sr);
    var a, b := Eval(r, sl).1, Eval(l, sr).1;
    forall x
      ensures Same(a, b, x)
    {
      EffectAt(s, sl, s, sl, WritesIn(l, s), x);
      EffectAt(s, sr, s, sr, WritesIn(r, s), x);
      EffectAt(s, sl, sr, b, WritesIn(l, s), x);
      EffectAt(sl, a, s, sr, WritesIn(r, s), x);
    }
    assert forall x :: x in a ==> Same(a, b, x);
    assert forall x :: x in b ==> Same(a, b, x);
  }

  lemma AgreeBack(r: set<Name>, s: Store, t: Store)
    requires Agree(r, s, t)
    ensures Agree(r, t, s)
  {}

  lemma SelfAgree(r: set<Name>, s: Store)
    ensures Agree(r, s, s)
  {}

  lemma EffectAt(s: Store, s': Store, t: Store, t': Store, w: set<Name>, x: Name)
    requires Effect(s, s', t, t', w)
    ensures Tracks(s, s', t, t', w, x)
  {}

  lemma Untouched(r: set<Name>, s: Store, s': Store, w: set<Name>)
    requires Effect(s, s', s, s', w) && w !! r
    ensures Agree(r, s, s')
  {
    forall x | x in r
      ensures Get(s, x) == Get(s', x)
    {
      assert Tracks(s, s', s, s', w, x);
    }
  }

  // ---- statements ----

  datatype Stmt =
    | Null
    | ExprStmt(e: Expr)
    | Decl(x: Name, value: Option<Expr>)
    | Block(items: Items)
    | If(c: Expr, thn: Stmt, els: Option<Stmt>)
    | While(c: Expr, body: Stmt)
    | Do(body: Stmt, c: Expr)
    | For(init: Items, cond: Option<Expr>, inc: Option<Expr>, body: Stmt)
    | Break
    | Continue
    | Return(value: Option<Expr>)
    | Switch(c: Expr, body: Stmt)
    | Case(v: int, body: Stmt)
    | Default(body: Stmt)

  datatype Items = Nil | Cons(head: Stmt, tail: Items)

  // ---- what is left to do ----

  datatype Kont =
    | Stop
    | KItems(items: Items, k: Kont)
    | KWhile(c: Expr, body: Stmt, k: Kont)
    | KDo(body: Stmt, c: Expr, k: Kont)
    | KForTest(cond: Option<Expr>, inc: Option<Expr>, body: Stmt, k: Kont)
    | KForStep(cond: Option<Expr>, inc: Option<Expr>, body: Stmt, k: Kont)
    | KSwitch(k: Kont)
    | KIf(k: Kont)

  /** How a function body ends: it falls off its end, or returns with or without a value. */
  datatype Exit = Fell | Returned(value: Option<int>)

  datatype Config =
    | Exec(s: Stmt, k: Kont, store: Store)
    | Next(k: Kont, store: Store)
    | Done(exit: Exit, store: Store)
    | Stuck

  /** Where break continues. */
  function BreakTo(k: Kont): Option<Kont> {
    match k
    case Stop => None
    case KItems(_, k') => BreakTo(k')
    case KWhile(_, _, k') => Some(k')
    case KDo(_, _, k') => Some(k')
    case KForTest(_, _, _, k') => BreakTo(k')
    case KForStep(_, _, _, k') => Some(k')
    case KSwitch(k') => Some(k')
    case KIf(k') => BreakTo(k')
  }

  /** Where continue continues: a switch is not a continue target. */
  function ContinueTo(k: Kont): Option<Kont> {
    match k
    case Stop => None
    case KItems(_, k') => ContinueTo(k')
    case KWhile(_, _, _) => Some(k)
    case KDo(_, _, _) => Some(k)
    case KForTest(_, _, _, k') => ContinueTo(k')
    case KForStep(_, _, _, _) => Some(k)
    case KSwitch(k') => ContinueTo(k')
    case KIf(k') => ContinueTo(k')
  }

  /** A label of a switch: a case value, or default. */
  datatype Tag = TCase(v: int) | TDefault

  /** The statement a label stands before, with what is left to do after it: the label may sit in any
      nested statement except a nested switch. */
  function Find(s: Stmt, t: Tag, k: Kont): Option<(Stmt, Kont)>
    decreases s
  {
    match s
    case Case(v, b) => if t == TCase(v) then Some((b, k)) else Find(b, t, k)
    case Default(b) => if t == TDefault then Some((b, k)) else Find(b, t, k)
    case Block(items) => FindItems(items, t, k)
    case If(_, a, b) =>
      var f := Find(a, t, KIf(k));
      if f.Some? || b.None? then f else Find(b.value, t, KIf(k))
    case While(c, b) => Find(b, t, KWhile(c, b, k))
    case Do(b, c) => Find(b, t, KDo(b, c, k))
    case For(_, c, i, b) => Find(b, t, KForStep(c, i, b, k))
    case _ => None
  }

  function FindItems(items: Items, t: Tag, k: Kont): Option<(Stmt, Kont)>
    decreases items
  {
    match items
    case Nil => None
    case Cons(h, rest) =>
      var f := Find(h, t, KItems(rest, k));
      if f.Some? then f else FindItems(rest, t, k)
  }

  /** The loop goes round: a while from its test. */
  function Resume(k: Kont, st: Store): Config {
    match k
    case KWhile(e, b, k') => Exec(While(e, b), k', st)
    case _ => Next(k, st)
  }

  function Maybe(e: Option<Expr>, s: Store): Store { if e.Some? then Eval(e.value, s).1 else s }

  /** One step of the statement machine (section 6.8 of ISO/IEC 9899:1999). */
  function Step(c: Config): Config {
    match c
    case Exec(s, k, st) => (
      match s
      case Null => Next(k, st)
      case ExprStmt(e) => Next(k, Eval(e, st).1)
      case Decl(x, i) => Next(k, if i.Some? then var (v, st') := Eval(i.value, st); st'[x := v] else st)
      case Block(items) => Next(KItems(items, k), st)
      case If(e, a, b) =>
        var (v, st') := Eval(e, st);
        if v != 0 then Exec(a, KIf(k), st') else if b.Some? then Exec(b.value, KIf(k), st') else Next(k, st')
      case While(e, b) =>
        var (v, st') := Eval(e, st);
        if v != 0 then Exec(b, KWhile(e, b, k), st') else Next(k, st')
      case Do(b, e) => Exec(b, KDo(b, e, k), st)
      case For(i, e, n, b) => Next(KItems(i, KForTest(e, n, b, k)), st)
      case Break => var t := BreakTo(k); if t.Some? then Next(t.value, st) else Stuck
      case Continue => var t := ContinueTo(k); if t.Some? then Resume(t.value, st) else Stuck
      case Return(e) =>
        if e.None? then Done(Returned(None), st) else var (v, st') := Eval(e.value, st); Done(Returned(Some(v)), st')
      case Switch(e, b) =>
        var (v, st') := Eval(e, st);
        var f := Find(b, TCase(v), KSwitch(k));
        var d := if f.Some? then f else Find(b, TDefault, KSwitch(k));
        if d.Some? then Exec(d.value.0, d.value.1, st') else Next(k, st')
      case Case(_, b) => Exec(b, k, st)
      case Default(b) => Exec(b, k, st)
    )
    case Next(k, st) => (
      match k
      case Stop => Done(Fell, st)
      case KItems(Nil, k') => Next(k', st)
      case KItems(Cons(h, t), k') => Exec(h, KItems(t, k'), st)
      case KWhile(_, _, _) => Resume(k, st)
      case KDo(b, e, k') =>
        var (v, st') := Eval(e, st);
        if v != 0 then Exec(Do(b, e), k', st') else Next(k', st')
      case KForTest(e, n, b, k') =>
        var (v, st') := if e.Some? then Eval(e.value, st) else (1, st);
        if v != 0 then Exec(b, KForStep(e, n, b, k'), st') else Next(k', st')
      case KForStep(e, n, b, k') => Next(KForTest(e, n, b, k'), Maybe(n, st))
      case KSwitch(k') => Next(k', st)
      case KIf(k') => Next(k', st)
    )
    case Done(_, _) => c
    case Stuck => c
  }

  function Run(c: Config, n: nat): Config
    decreases n
  {
    if n == 0 then c else Run(Step(c), n - 1)
  }
}
