/** Which labels the emitted code carries and which it jumps to: each fresh number labels exactly one
    place, each case label stands once, and every branch has somewhere to go. */
module LowerLabels {
  import opened Options
  import opened CLang
  import opened IR
  import opened Lowering

  function Range(lo: nat, hi: nat): set<Label> { set i | lo <= i < hi :: L(i) }

  /** Exactly these labels, each once, and no jump except to them or to outs. */
  ghost predicate Shape(c: Code, labels: set<Label>, outs: set<Label>) {
    Distinct(c) && LabelsOf(c) == labels && TargetsOf(c) <= labels + outs
  }

  lemma Join(a: Code, la: set<Label>, oa: set<Label>, b: Code, lb: set<Label>, ob: set<Label>,
             labels: set<Label>, outs: set<Label>)
    requires Shape(a, la, oa) && Shape(b, lb, ob) && la !! lb && labels == la + lb
    requires oa <= labels + outs && ob <= labels + outs
    ensures Shape(a + b, labels, outs)
  {
    LabelsConcat(a, b);
    DistinctConcat(a, b);
  }

  lemma Split(lo: nat, mid: nat, hi: nat)
    requires lo <= mid <= hi
    ensures Range(lo, hi) == Range(lo, mid) + Range(mid, hi)
    ensures Range(lo, mid) !! Range(mid, hi)
  {}

  predicate Quiet(c: Code) { forall i :: 0 <= i < |c| ==> !c[i].ILabel? && !c[i].Jump? && !c[i].BranchZ? }

  lemma QuietShape(c: Code)
    requires Quiet(c)
    ensures Shape(c, {}, {})
  {}

  lemma EmptyShape(lo: nat)
    ensures Range(lo, lo) == {} && Shape([], Range(lo, lo), {})
  {
    assert Range(lo, lo) == {};
  }

  lemma LabelShape(l: Label)
    ensures Shape([ILabel(l)], {l}, {})
  {
    var c := [ILabel(l)];
    assert c[0].ILabel? && c[0].l == l;
  }

  lemma JumpShape(c: Code, l: Label)
    requires Quiet(c)
    ensures Shape(c + [Jump(l)], {}, {l})
  {
    var d := c + [Jump(l)];
    assert forall i :: 0 <= i < |d| && (d[i].Jump? || d[i].BranchZ?) ==> i == |c|;
  }

  lemma BranchShape(a: Operand, f: Label, t: Label)
    ensures Shape([BranchZ(a, f), Jump(t)], {}, {t, f})
  {
    var c := [BranchZ(a, f), Jump(t)];
    assert forall i :: 0 <= i < |c| && c[i].BranchZ? ==> c[i].l == f;
    assert forall i :: 0 <= i < |c| && c[i].Jump? ==> c[i].l == t;
  }

  /** A jump, then labels. */
  lemma JumpLabelShape(c: Code, j: Label, l: Label)
    requires Quiet(c)
    ensures Shape(c + [Jump(j), ILabel(l)], {l}, {j})
  {
    JumpShape(c, j);
    LabelShape(l);
    Join(c + [Jump(j)], {}, {j}, [ILabel(l)], {l}, {}, {l}, {j});
    assert c + [Jump(j)] + [ILabel(l)] == c + [Jump(j), ILabel(l)];
  }

  // ---- expressions ----

  lemma {:induction false} ExprLabels(e: Expr, n: Ctr)
    ensures var (c, _, n1) := CExpr(e, n);
            n.lab <= n1.lab && n.tmp <= n1.tmp && Shape(c, Range(n.lab, n1.lab), {})
    decreases e, Short(e)
  {
    hide Shape;
    match e
    case Const(_) => EmptyShape(n.lab);
    case Var(_) => EmptyShape(n.lab);
    case Binary(op, l, r) =>
      var (cl, a, n1) := CExpr(l, n);
      var (cr, b, n2) := CExpr(r, n1);
      PairLabels(e, l, r, n);
      QuietShape([IBin(n2.tmp, op, a, b)]);
      Join(cl + cr, Range(n.lab, n2.lab), {}, [IBin(n2.tmp, op, a, b)], {}, {}, Range(n.lab, n2.lab), {});
    case Unary(op, x) =>
      ExprLabels(x, n);
      var (c, a, n1) := CExpr(x, n);
      QuietShape([IUn(n1.tmp, op, a)]);
      Join(c, Range(n.lab, n1.lab), {}, [IUn(n1.tmp, op, a)], {}, {}, Range(n.lab, n1.lab), {});
    case LAnd(_, _) => TruthLabels(e, n);
    case LOr(_, _) => TruthLabels(e, n);
    case Cond(c, l, r) => CondLabels(c, l, r, n);
    case Comma(l, r) => PairLabels(e, l, r, n);
    case Assign(x, r) =>
      ExprLabels(r, n);
      var (c, a, n1) := CExpr(r, n);
      QuietShape([SetVar(x, a)]);
      Join(c, Range(n.lab, n1.lab), {}, [SetVar(x, a)], {}, {}, Range(n.lab, n1.lab), {});
    case AssignOp(op, x, r) =>
      ExprLabels(r, n);
      var (c, b, n1) := CExpr(r, n);
      var d := [IBin(n1.tmp, op, VarOp(x), b), SetVar(x, TmpOp(n1.tmp))];
      QuietShape(d);
      Join(c, Range(n.lab, n1.lab), {}, d, {}, {}, Range(n.lab, n1.lab), {});
    case PreStep(op, x) =>
      QuietShape(CExpr(e, n).0);
      EmptyShape(n.lab);
    case PostStep(op, x) =>
      QuietShape(CExpr(e, n).0);
      EmptyShape(n.lab);
  }

  lemma {:induction false} PairLabels(e: Expr, l: Expr, r: Expr, n: Ctr)
    requires l < e && r < e
    ensures var (cl, _, n1) := CExpr(l, n);
            var (cr, _, n2) := CExpr(r, n1);
            n.lab <= n1.lab <= n2.lab && n.tmp <= n1.tmp <= n2.tmp && Shape(cl + cr, Range(n.lab, n2.lab), {})
    decreases e, 0, 0
  {
    hide Shape;
    ExprLabels(l, n);
    var (cl, _, n1) := CExpr(l, n);
    ExprLabels(r, n1);
    var (cr, _, n2) := CExpr(r, n1);
    Split(n.lab, n1.lab, n2.lab);
    Join(cl, Range(n.lab, n1.lab), {}, cr, Range(n1.lab, n2.lab), {}, Range(n.lab, n2.lab), {});
  }

  lemma {:induction false} TruthLabels(e: Expr, n: Ctr)
    requires e.LAnd? || e.LOr?
    ensures var (c, _, n1) := CTruth(e, n);
            n.lab <= n1.lab && n.tmp <= n1.tmp && Shape(c, Range(n.lab, n1.lab), {})
    decreases e, 0, 1
  {
    hide Shape, CBool;
    var k := n.tmp;
    var tl, fl, end := L(n.lab), L(n.lab + 1), L(n.lab + 2);
    var m := Ctr(n.lab + 3, n.tmp + 1);
    BoolLabels(e, tl, fl, m);
    var (cc, n1) := CBool(e, tl, fl, m);
    QuietShape([]);
    Arm(tl, [], {}, k, Imm(1), end, {tl});
    LastArm(fl, [], {}, k, Imm(0), end, {fl, end});
    var ct, cf := [ILabel(tl)] + [] + [SetTmp(k, Imm(1)), Jump(end)], [ILabel(fl)] + [] + [SetTmp(k, Imm(0)), ILabel(end)];
    assert ct + cf == [ILabel(tl), SetTmp(k, Imm(1)), Jump(end), ILabel(fl), SetTmp(k, Imm(0)), ILabel(end)];
    Join(ct, {tl}, {end}, cf, {fl, end}, {}, {tl, fl, end}, {});
    Split(n.lab, m.lab, n1.lab);
    assert Range(n.lab, m.lab) == {tl, fl, end};
    Join(cc, Range(m.lab, n1.lab), {tl, fl}, ct + cf, {tl, fl, end}, {}, Range(n.lab, n1.lab), {});
  }

  /** One arm of a conditional expression: its label, its code, its result, the jump to the end. */
  lemma Arm(l: Label, c: Code, inner: set<Label>, k: nat, a: Operand, end: Label, labels: set<Label>)
    requires Shape(c, inner, {}) && l !in inner && labels == {l} + inner
    ensures Shape([ILabel(l)] + c + [SetTmp(k, a), Jump(end)], labels, {end})
  {
    hide Shape;
    LabelShape(l);
    Join([ILabel(l)], {l}, {}, c, inner, {}, labels, {});
    JumpShape([SetTmp(k, a)], end);
    assert [SetTmp(k, a)] + [Jump(end)] == [SetTmp(k, a), Jump(end)];
    Join([ILabel(l)] + c, labels, {}, [SetTmp(k, a), Jump(end)], {}, {end}, labels, {end});
  }

  /** The other arm, which ends at the end label. */
  lemma LastArm(l: Label, c: Code, inner: set<Label>, k: nat, a: Operand, end: Label, labels: set<Label>)
    requires Shape(c, inner, {}) && l !in inner && end !in inner && l != end && labels == {l, end} + inner
    ensures Shape([ILabel(l)] + c + [SetTmp(k, a), ILabel(end)], labels, {})
  {
    hide Shape;
    LabelShape(l);
    Join([ILabel(l)], {l}, {}, c, inner, {}, {l} + inner, {});
    LabelShape(end);
    QuietShape([SetTmp(k, a)]);
    Join([SetTmp(k, a)], {}, {}, [ILabel(end)], {end}, {}, {end}, {});
    assert [SetTmp(k, a)] + [ILabel(end)] == [SetTmp(k, a), ILabel(end)];
    Join([ILabel(l)] + c, {l} + inner, {}, [SetTmp(k, a), ILabel(end)], {end}, {}, labels, {});
  }

  /** The three parts of a conditional expression whose labels start at lo. */
  lemma CondShape(lo: nat, i: nat, j: nat, hi: nat, cc: Code, cl: Code, cr: Code, k: nat, a: Operand, b: Operand)
    requires lo + 3 <= i <= j <= hi
    requires Shape(cc, Range(lo + 3, i), {L(lo), L(lo + 1)})
    requires Shape(cl, Range(i, j), {}) && Shape(cr, Range(j, hi), {})
    ensures Shape(cc + ([ILabel(L(lo))] + cl + [SetTmp(k, a), Jump(L(lo + 2))])
                     + ([ILabel(L(lo + 1))] + cr + [SetTmp(k, b), ILabel(L(lo + 2))]), Range(lo, hi), {})
  {
    hide Shape;
    var tl, fl, end := L(lo), L(lo + 1), L(lo + 2);
    var lt, lf := {tl} + Range(i, j), {fl, end} + Range(j, hi);
    Arm(tl, cl, Range(i, j), k, a, end, lt);
    LastArm(fl, cr, Range(j, hi), k, b, end, lf);
    var ct, cf := [ILabel(tl)] + cl + [SetTmp(k, a), Jump(end)], [ILabel(fl)] + cr + [SetTmp(k, b), ILabel(end)];
    Join(cc, Range(lo + 3, i), {tl, fl}, ct, lt, {end}, {tl} + Range(lo + 3, j), {fl, end});
    Join(cc + ct, {tl} + Range(lo + 3, j), {fl, end}, cf, lf, {}, Range(lo, hi), {});
  }

  lemma {:induction false} CondLabels(c: Expr, l: Expr, r: Expr, n: Ctr)
    ensures var (code, _, n1) := CExpr(Cond(c, l, r), n);
            n.lab <= n1.lab && n.tmp <= n1.tmp && Shape(code, Range(n.lab, n1.lab), {})
    decreases Cond(c, l, r), 0, 0
  {
    hide Shape, Range;
    var tl, fl, end := L(n.lab), L(n.lab + 1), L(n.lab + 2);
    var m := Ctr(n.lab + 3, n.tmp + 1);
    BoolLabels(c, tl, fl, m);
    var (cc, n1) := CBool(c, tl, fl, m);
    ExprLabels(l, n1);
    var (cl, a, n2) := CExpr(l, n1);
    ExprLabels(r, n2);
    var (cr, b, n3) := CExpr(r, n2);
    CondShape(n.lab, n1.lab, n2.lab, n3.lab, cc, cl, cr, n.tmp, a, b);
  }

  lemma {:induction false} BoolLabels(e: Expr, t: Label, f: Label, n: Ctr)
    ensures var (c, n1) := CBool(e, t, f, n);
            n.lab <= n1.lab && n.tmp <= n1.tmp && Shape(c, Range(n.lab, n1.lab), {t, f})
    decreases e, 1 - Short(e), 0
  {
    hide Shape;
    match e
    case LAnd(l, r) => ShortLabels(e, l, r, L(n.lab), f, t, f, n);
    case LOr(l, r) => ShortLabels(e, l, r, t, L(n.lab), t, f, n);
    case Unary(Not, x) =>
      BoolLabels(x, f, t, n);
      assert {f, t} == {t, f};
    case _ =>
      ExprLabels(e, n);
      var (c, a, n1) := CExpr(e, n);
      BranchShape(a, f, t);
      Join(c, Range(n.lab, n1.lab), {}, [BranchZ(a, f), Jump(t)], {}, {t, f}, Range(n.lab, n1.lab), {t, f});
  }

  /** Both halves of && or ||: the left one leaves for the middle or for an outer label. */
  lemma {:induction false} ShortLabels(e: Expr, l: Expr, r: Expr, t': Label, f': Label, t: Label, f: Label, n: Ctr)
    requires l < e && r < e && Short(e) == 1
    requires t' in {t, f, L(n.lab)} && f' in {t, f, L(n.lab)}
    ensures var (cl, n1) := CBool(l, t', f', n.(lab := n.lab + 1));
            var (cr, n2) := CBool(r, t, f, n1);
            && n.lab < n1.lab <= n2.lab && n.tmp <= n1.tmp <= n2.tmp
            && Shape(cl + [ILabel(L(n.lab))] + cr, Range(n.lab, n2.lab), {t, f})
    decreases e, 0, 0, 0
  {
    hide Shape;
    var mid, m := L(n.lab), n.(lab := n.lab + 1);
    BoolLabels(l, t', f', m);
    var (cl, n1) := CBool(l, t', f', m);
    BoolLabels(r, t, f, n1);
    var (cr, n2) := CBool(r, t, f, n1);
    hide CBool;
    LabelShape(mid);
    Split(m.lab, n1.lab, n2.lab);
    Split(n.lab, m.lab, n2.lab);
    Join(cl, Range(m.lab, n1.lab), {t', f'}, [ILabel(mid)], {mid}, {}, Range(n.lab, n1.lab), {t, f});
    Join(cl + [ILabel(mid)], Range(n.lab, n1.lab), {t, f}, cr, Range(n1.lab, n2.lab), {t, f}, Range(n.lab, n2.lab), {t, f});
  }

  // ---- well-formed statements ----

  predicate NoDup(s: seq<int>) { forall i, j :: 0 <= i < j < |s| ==> s[i] != s[j] }

  /** What may stand before the first semicolon of a for. */
  predicate Plain(items: Items) {
    match items
    case Nil => true
    case Cons(h, t) => (h.Decl? || h.ExprStmt?) && Plain(t)
  }

  /** What sema accepts: break and continue have a target, case values differ, one default at most. */
  predicate Wf(s: Stmt, brk: bool, cont: bool)
    decreases s
  {
    match s
    case Break => brk
    case Continue => cont
    case Block(items) => WfItems(items, brk, cont)
    case If(_, a, b) => Wf(a, brk, cont) && (b.Some? ==> Wf(b.value, brk, cont))
    case While(_, b) => Wf(b, true, true)
    case Do(b, _) => Wf(b, true, true)
    case For(i, _, _, b) => Plain(i) && Wf(b, true, true)
    case Switch(_, b) => Wf(b, true, cont) && NoDup(Cases(b)) && Defaults(b) <= 1
    case Case(_, b) => Wf(b, brk, cont)
    case Default(b) => Wf(b, brk, cont)
    case _ => true
  }

  predicate WfItems(items: Items, brk: bool, cont: bool)
    decreases items
  {
    match items
    case Nil => true
    case Cons(h, t) => Wf(h, brk, cont) && WfItems(t, brk, cont)
  }

  /** A function body: nothing left for an enclosing loop or switch. */
  predicate WfBody(s: Stmt) { Wf(s, false, false) && Cases(s) == [] && Defaults(s) == 0 }

  // ---- tables ----

  type Switches = seq<(Table, Option<Label>)>

  predicate Older(l: Label, lo: nat) { l.L? && l.id < lo }

  /** The innermost switch has labels for these case values, all different and made before lo. */
  ghost predicate Fits(vs: seq<int>, d: nat, sw: Switches, lo: nat) {
    && (vs != [] || d > 0 ==> |sw| > 0)
    && (vs != [] ==>
          && NoDup(vs)
          && (forall v :: v in vs ==> v in sw[0].0 && Older(sw[0].0[v], lo))
          && (forall v, w :: v in vs && w in vs && v != w ==> sw[0].0[v] != sw[0].0[w]))
    && (d > 0 ==>
          && d == 1 && sw[0].1.Some? && Older(sw[0].1.value, lo)
          && (forall v :: v in vs ==> sw[0].0[v] != sw[0].1.value))
  }

  function TagLabels(vs: seq<int>, d: nat, sw: Switches): set<Label> {
    if |sw| == 0 then {}
    else (set v | v in vs && v in sw[0].0 :: sw[0].0[v]) + if d > 0 && sw[0].1.Some? then {sw[0].1.value} else {}
  }

  predicate AllOlder(t: set<Label>, lo: nat) { forall l :: l in t ==> Older(l, lo) }

  lemma NoTags(sw: Switches)
    ensures TagLabels([], 0, sw) == {}
  {}

  lemma TagsOlder(vs: seq<int>, d: nat, sw: Switches, lo: nat)
    requires Fits(vs, d, sw, lo)
    ensures AllOlder(TagLabels(vs, d, sw), lo)
  {}

  lemma TagsSplit(vs: seq<int>, d: nat, ws: seq<int>, e: nat, sw: Switches, lo: nat)
    requires Fits(vs + ws, d + e, sw, lo)
    ensures Fits(vs, d, sw, lo) && Fits(ws, e, sw, lo)
    ensures TagLabels(vs + ws, d + e, sw) == TagLabels(vs, d, sw) + TagLabels(ws, e, sw)
    ensures TagLabels(vs, d, sw) !! TagLabels(ws, e, sw)
  {
    var us := vs + ws;
    assert forall v :: v in us <==> v in vs || v in ws;
    assert forall i :: 0 <= i < |vs| ==> us[i] == vs[i];
    assert forall i :: 0 <= i < |ws| ==> us[|vs| + i] == ws[i];
    if vs != [] && ws != [] {
      assert forall v :: v in vs ==> v !in ws;
    }
  }

  lemma FitsLater(vs: seq<int>, d: nat, sw: Switches, lo: nat, hi: nat)
    requires Fits(vs, d, sw, lo) && lo <= hi
    ensures Fits(vs, d, sw, hi)
  {}

  /** Fresh labels make a table that fits. */
  lemma {:induction false} TableFinds(values: seq<int>, lab: nat, i: nat)
    requires NoDup(values) && i < |values|
    ensures values[i] in TableOf(Named(values, lab)) && TableOf(Named(values, lab))[values[i]] == L(lab + i)
    decreases |values|
  {
    NamedAt(values, lab);
    var named, k := Named(values, lab), |values| - 1;
    assert named[..k] == Named(values[..k], lab) by { NamedAt(values[..k], lab); }
    if i < k {
      TableFinds(values[..k], lab, i);
    }
  }

  lemma {:induction false} NamedAt(values: seq<int>, lab: nat)
    ensures |Named(values, lab)| == |values|
    ensures forall i :: 0 <= i < |values| ==> Named(values, lab)[i] == (values[i], L(lab + i))
    decreases |values|
  {
    if values != [] {
      NamedAt(values[1..], lab + 1);
    }
  }

  /** The table of a switch, read back. */
  lemma TableIs(b: Stmt, lo: nat, i: nat)
    requires NoDup(Cases(b)) && i < |Cases(b)|
    ensures Cases(b)[i] in TableOf(NamedOf(b, lo)) && TableOf(NamedOf(b, lo))[Cases(b)[i]] == L(lo + 1 + i)
  {
    hide NoDup, Cases, TableOf, Named;
    TableFinds(Cases(b), lo + 1, i);
  }

  /** The labels a switch makes for itself are the ones its body may use. */
  lemma SwitchTags(b: Stmt, n: Ctr, x: Ctx)
    requires NoDup(Cases(b)) && Defaults(b) <= 1
    ensures var sw := EnterSwitch(b, n.lab, x).switches;
            && Fits(Cases(b), Defaults(b), sw, AfterLabels(b, n).lab)
            && TagLabels(Cases(b), Defaults(b), sw) == Range(n.lab + 1, AfterLabels(b, n).lab)
  {
    var vs, d, sw, lo := Cases(b), Defaults(b), EnterSwitch(b, n.lab, x).switches, n.lab + 1;
    forall i | 0 <= i < |vs|
      ensures vs[i] in sw[0].0 && sw[0].0[vs[i]] == L(lo + i)
    {
      TableIs(b, n.lab, i);
    }
    TagsInOrder(vs, d, sw, lo, AfterLabels(b, n).lab);
  }

  lemma TagsInOrder(vs: seq<int>, d: nat, sw: Switches, lo: nat, hi: nat)
    requires NoDup(vs) && d <= 1 && |sw| > 0 && hi == lo + |vs| + d
    requires forall i :: 0 <= i < |vs| ==> vs[i] in sw[0].0 && sw[0].0[vs[i]] == L(lo + i)
    requires sw[0].1 == if d > 0 then Some(L(lo + |vs|)) else None
    ensures Fits(vs, d, sw, hi) && TagLabels(vs, d, sw) == Range(lo, hi)
  {
    var labels := set v | v in vs && v in sw[0].0 :: sw[0].0[v];
    assert labels == Range(lo, lo + |vs|) by {
      forall l | l in Range(lo, lo + |vs|)
        ensures l in labels
      {
        assert vs[l.id - lo] in vs;
      }
    }
  }

  /** The comparison chain: its own labels, and jumps to the case labels. */
  lemma {:induction false} DispatchLabels(cv: Operand, named: seq<(int, Label)>, n: Ctr, outs: set<Label>)
    requires forall i :: 0 <= i < |named| ==> named[i].1 in outs
    ensures var (c, n1) := CDispatch(cv, named, n);
            n.lab <= n1.lab && n.tmp <= n1.tmp && Shape(c, Range(n.lab, n1.lab), outs)
    decreases |named|
  {
    hide Shape;
    if named == [] {
      EmptyShape(n.lab);
      Weaken([], Range(n.lab, n.lab), {}, outs);
    } else {
      var m, l, next := Ctr(n.lab + 1, n.tmp + 1), named[0].1, L(n.lab);
      DispatchLabels(cv, named[1..], m, outs);
      var (rest, n1) := CDispatch(cv, named[1..], m);
      var a, b := [IBin(n.tmp, Eq, cv, Imm(named[0].0))], [BranchZ(TmpOp(n.tmp), next), Jump(l)];
      QuietShape(a);
      BranchShape(TmpOp(n.tmp), next, l);
      LabelShape(next);
      Join(a, {}, {}, b, {}, {l, next}, {}, {l, next});
      Join(a + b, {}, {l, next}, [ILabel(next)], {next}, {}, {next}, outs);
      Join(a + b + [ILabel(next)], {next}, outs, rest, Range(m.lab, n1.lab), outs, Range(n.lab, n1.lab), outs);
      assert a + b + [ILabel(next)]
          == [IBin(n.tmp, Eq, cv, Imm(named[0].0)), BranchZ(TmpOp(n.tmp), next), Jump(l), ILabel(next)];
    }
  }

  lemma Weaken(c: Code, labels: set<Label>, outs: set<Label>, more: set<Label>)
    requires Shape(c, labels, outs) && outs <= labels + more
    ensures Shape(c, labels, more)
  {}

  // ---- the shape of each statement from the shapes of its parts ----

  lemma IfShape(lo: nat, i: nat, j: nat, hi: nat, cc: Code, ca: Code, cb: Code, ta: set<Label>, tb: set<Label>,
                labels: set<Label>, outs: set<Label>)
    requires lo + 3 <= i <= j <= hi && AllOlder(ta, lo) && AllOlder(tb, lo) && ta !! tb
    requires Shape(cc, Range(lo + 3, i), {L(lo), L(lo + 1)})
    requires Shape(ca, Range(i, j) + ta, outs) && Shape(cb, Range(j, hi) + tb, outs)
    requires labels == Range(lo, hi) + (ta + tb)
    ensures Shape(cc + ([ILabel(L(lo))] + ca + [Jump(L(lo + 2)), ILabel(L(lo + 1))]) + (cb + [ILabel(L(lo + 2))]),
                  labels, outs)
  {
    hide Shape;
    var tl, fl, end := L(lo), L(lo + 1), L(lo + 2);
    var la, lb := {tl, fl} + Range(i, j) + ta, {end} + Range(j, hi) + tb;
    var l1 := {tl} + Range(i, j) + ta;
    LabelShape(tl);
    Join([ILabel(tl)], {tl}, {}, ca, Range(i, j) + ta, outs, l1, outs);
    JumpLabelShape([], end, fl);
    assert [] + [Jump(end), ILabel(fl)] == [Jump(end), ILabel(fl)];
    Join([ILabel(tl)] + ca, l1, outs, [Jump(end), ILabel(fl)], {fl}, {end}, la, outs + {end});
    LabelShape(end);
    Join(cb, Range(j, hi) + tb, outs, [ILabel(end)], {end}, {}, lb, outs);
    var a, b := [ILabel(tl)] + ca + [Jump(end), ILabel(fl)], cb + [ILabel(end)];
    var l2 := la + Range(lo + 3, i);
    Join(cc, Range(lo + 3, i), {tl, fl}, a, la, outs + {end}, l2, outs + {end});
    Join(cc + a, l2, outs + {end}, b, lb, outs, labels, outs);
  }

  lemma WhileShape(lo: nat, i: nat, hi: nat, cc: Code, cb: Code, t: set<Label>, labels: set<Label>)
    requires lo + 3 <= i <= hi && AllOlder(t, lo) && labels == Range(lo, hi) + t
    requires Shape(cc, Range(lo + 3, i), {L(lo + 1), L(lo + 2)})
    requires Shape(cb, Range(i, hi) + t, {L(lo), L(lo + 2)})
    ensures Shape([ILabel(L(lo))] + cc + [ILabel(L(lo + 1))] + (cb + [Jump(L(lo)), ILabel(L(lo + 2))]), labels, {})
  {
    hide Shape;
    var top, body, end := L(lo), L(lo + 1), L(lo + 2);
    LabelShape(top);
    LabelShape(body);
    JumpLabelShape([], top, end);
    assert [] + [Jump(top), ILabel(end)] == [Jump(top), ILabel(end)];
    var lh, lb := {top, body} + Range(lo + 3, i), {end} + Range(i, hi) + t;
    Join([ILabel(top)], {top}, {}, cc, Range(lo + 3, i), {body, end}, {top} + Range(lo + 3, i), {body, end});
    Join([ILabel(top)] + cc, {top} + Range(lo + 3, i), {body, end}, [ILabel(body)], {body}, {}, lh, {end});
    Join(cb, Range(i, hi) + t, {top, end}, [Jump(top), ILabel(end)], {end}, {top}, lb, {top});
    Join([ILabel(top)] + cc + [ILabel(body)], lh, {end}, cb + [Jump(top), ILabel(end)], lb, {top}, labels, {});
  }

  lemma DoShape(lo: nat, i: nat, hi: nat, cb: Code, cc: Code, t: set<Label>, labels: set<Label>)
    requires lo + 3 <= i <= hi && AllOlder(t, lo) && labels == Range(lo, hi) + t
    requires Shape(cb, Range(lo + 3, i) + t, {L(lo + 1), L(lo + 2)})
    requires Shape(cc, Range(i, hi), {L(lo), L(lo + 2)})
    ensures Shape([ILabel(L(lo))] + cb + ([ILabel(L(lo + 1))] + cc + [ILabel(L(lo + 2))]), labels, {})
  {
    hide Shape;
    var body, cond, end := L(lo), L(lo + 1), L(lo + 2);
    LabelShape(body);
    LabelShape(cond);
    LabelShape(end);
    var lb, lc := {body} + Range(lo + 3, i) + t, {cond, end} + Range(i, hi);
    Join([ILabel(body)], {body}, {}, cb, Range(lo + 3, i) + t, {cond, end}, lb, {cond, end});
    Join([ILabel(cond)], {cond}, {}, cc, Range(i, hi), {body, end}, {cond} + Range(i, hi), {body, end});
    Join([ILabel(cond)] + cc, {cond} + Range(i, hi), {body, end}, [ILabel(end)], {end}, {}, lc, {body});
    Join([ILabel(body)] + cb, lb, {cond, end}, [ILabel(cond)] + cc + [ILabel(end)], lc, {body}, labels, {});
  }

  lemma ForJoin(lab: nat, i: nat, j: nat, k: nat, hi: nat, head: Code, cb: Code, tail: Code, t: set<Label>,
                labels: set<Label>)
    requires lab + 4 <= i <= j <= k <= hi && AllOlder(t, lab)
    requires labels == Range(lab, lab + 4) + Range(i, hi) + t
    requires Shape(head, {L(lab), L(lab + 1)} + Range(i, j), {L(lab + 3)})
    requires Shape(cb, Range(j, k) + t, {L(lab + 2), L(lab + 3)})
    requires Shape(tail, {L(lab + 2), L(lab + 3)} + Range(k, hi), {L(lab)})
    ensures Shape(head + (cb + tail), labels, {})
  {
    hide Shape;
    var lh, li := {L(lab), L(lab + 1)} + Range(i, j), {L(lab + 2), L(lab + 3)} + Range(k, hi);
    var lb := li + Range(j, k) + t;
    Join(cb, Range(j, k) + t, {L(lab + 2), L(lab + 3)}, tail, li, {L(lab)}, lb, {L(lab)});
    Join(head, lh, {L(lab + 3)}, cb + tail, lb, {L(lab)}, labels, {});
  }

  lemma ForShape(lab: nat, i: nat, j: nat, k: nat, hi: nat, cc: Code, cb: Code, ci: Code, t: set<Label>,
                 labels: set<Label>)
    requires lab + 4 <= i <= j <= k <= hi && AllOlder(t, lab)
    requires labels == Range(lab, lab + 4) + Range(i, hi) + t
    requires Shape(cc, Range(i, j), {L(lab + 1), L(lab + 3)})
    requires Shape(cb, Range(j, k) + t, {L(lab + 2), L(lab + 3)})
    requires Shape(ci, Range(k, hi), {})
    ensures Shape([ILabel(L(lab))] + cc + [ILabel(L(lab + 1))]
                  + (cb + ([ILabel(L(lab + 2))] + ci + [Jump(L(lab)), ILabel(L(lab + 3))])), labels, {})
  {
    hide Shape;
    var top, body, inc, end := L(lab), L(lab + 1), L(lab + 2), L(lab + 3);
    LabelShape(top);
    LabelShape(body);
    LabelShape(inc);
    JumpLabelShape([], top, end);
    assert [] + [Jump(top), ILabel(end)] == [Jump(top), ILabel(end)];
    var lh, li := {top, body} + Range(i, j), {inc, end} + Range(k, hi);
    Join([ILabel(top)], {top}, {}, cc, Range(i, j), {body, end}, {top} + Range(i, j), {body, end});
    Join([ILabel(top)] + cc, {top} + Range(i, j), {body, end}, [ILabel(body)], {body}, {}, lh, {end});
    Join([ILabel(inc)], {inc}, {}, ci, Range(k, hi), {}, {inc} + Range(k, hi), {});
    Join([ILabel(inc)] + ci, {inc} + Range(k, hi), {}, [Jump(top), ILabel(end)], {end}, {top}, li, {top});
    ForJoin(lab, i, j, k, hi, [ILabel(top)] + cc + [ILabel(body)], cb, [ILabel(inc)] + ci + [Jump(top), ILabel(end)], t,
            labels);
  }

  lemma SwitchShape(lo: nat, m: nat, i: nat, hi: nat, cd: Code, d: Label, cb: Code, cont: set<Label>,
                    labels: set<Label>)
    requires lo < m <= i <= hi && d in Range(lo, m) && labels == Range(lo, hi)
    requires Shape(cd, Range(m, i), Range(lo + 1, m))
    requires Shape(cb, Range(i, hi) + Range(lo + 1, m), {L(lo)} + cont)
    ensures Shape(cd + [Jump(d)] + (cb + [ILabel(L(lo))]), labels, cont)
  {
    hide Shape;
    JumpShape([], d);
    assert [] + [Jump(d)] == [Jump(d)];
    LabelShape(L(lo));
    Join(cd, Range(m, i), Range(lo + 1, m), [Jump(d)], {}, {d}, Range(m, i), Range(lo, m));
    var lb := Range(i, hi) + Range(lo, m);
    Join(cb, Range(i, hi) + Range(lo + 1, m), {L(lo)} + cont, [ILabel(L(lo))], {L(lo)}, {}, lb, cont);
    Join(cd + [Jump(d)], Range(m, i), Range(lo, m), cb + [ILabel(L(lo))], lb, cont, labels, cont);
  }

  // ---- statements ----

  /** Where break and continue may leave for. */
  function Outs(x: Ctx, brk: bool, cont: bool): set<Label> {
    if |x.loops| == 0 then {} else (if brk then {x.loops[0].0} else {}) + if cont then {x.loops[0].1} else {}
  }

  predicate HasTargets(x: Ctx, brk: bool, cont: bool) { brk || cont ==> |x.loops| > 0 }

  ghost predicate StmtShape(c: Code, n: Ctr, n1: Ctr, tags: set<Label>, outs: set<Label>) {
    n.lab <= n1.lab && n.tmp <= n1.tmp && Shape(c, Range(n.lab, n1.lab) + tags, outs)
  }

  lemma StmtShapeIs(c: Code, n: Ctr, n1: Ctr, labels: set<Label>, tags: set<Label>, o: set<Label>, outs: set<Label>)
    requires n.lab <= n1.lab && n.tmp <= n1.tmp && Shape(c, labels, o)
    requires labels == Range(n.lab, n1.lab) + tags && o <= labels + outs
    ensures StmtShape(c, n, n1, tags, outs)
  {}

  /** Every fresh number labels one place of the code, every case label of the statement stands once, and
      branches go to those labels or leave by break and continue. */
  lemma {:induction false} StmtLabels(s: Stmt, n: Ctr, x: Ctx, brk: bool, cont: bool)
    requires Wf(s, brk, cont) && HasTargets(x, brk, cont) && Fits(Cases(s), Defaults(s), x.switches, n.lab)
    ensures var (c, n1) := CStmt(s, n, x);
            StmtShape(c, n, n1, TagLabels(Cases(s), Defaults(s), x.switches), Outs(x, brk, cont))
    decreases s, 3
  {
    hide Shape, StmtShape, Fits, TagLabels, CExpr, CBool;
    var outs, sw := Outs(x, brk, cont), x.switches;
    var (c, n1) := CStmt(s, n, x);
    match s
    case Null => Emptied(n, sw, outs);
    case ExprStmt(e) => FromExpr(e, n, [], sw, outs);
    case Decl(y, i) =>
      if i.None? {
        Emptied(n, sw, outs);
      } else {
        var (_, a, _) := CExpr(i.value, n);
        FromExpr(i.value, n, [SetVar(y, a)], sw, outs);
      }
    case Block(items) => ItemsLabels(items, n, x, brk, cont);
    case If(e, a, b) => IfLabels(s, n, x, brk, cont);
    case While(e, b) => WhileLabels(s, n, x, outs);
    case Do(b, e) => DoLabels(s, n, x, outs);
    case For(i, e, inc, b) => ForLabels(s, n, x, brk, cont);
    case Break => Leaves(x.loops[0].0, n, sw, outs);
    case Continue => Leaves(x.loops[0].1, n, sw, outs);
    case Return(e) =>
      if e.None? {
        QuietShape([RetVoid]);
        EmptyShape(n.lab);
        NoTags(sw);
        StmtShapeIs([RetVoid], n, n, {}, {}, {}, outs);
      } else {
        var (_, a, _) := CExpr(e.value, n);
        FromExpr(e.value, n, [Ret(a)], sw, outs);
      }
    case Switch(e, b) => SwitchLabels(s, n, x, brk, cont);
    case Case(v, b) =>
      TagsSplit([v], 0, Cases(b), Defaults(b), sw, n.lab);
      StmtLabels(b, n, x, brk, cont);
      OneCase(v, sw, n.lab);
      Tagged(sw[0].0[v], TagLabels([v], 0, sw), CStmt(b, n, x).0, n, n1, TagLabels(Cases(b), Defaults(b), sw),
             TagLabels(Cases(s), Defaults(s), sw), outs);
    case Default(b) =>
      assert [] + Cases(b) == Cases(b);
      TagsSplit([], 1, Cases(b), Defaults(b), sw, n.lab);
      StmtLabels(b, n, x, brk, cont);
      OneDefault(sw, n.lab);
      Tagged(sw[0].1.value, TagLabels([], 1, sw), CStmt(b, n, x).0, n, n1, TagLabels(Cases(b), Defaults(b), sw),
             TagLabels(Cases(s), Defaults(s), sw), outs);
  }

  lemma Emptied(n: Ctr, sw: Switches, outs: set<Label>)
    ensures StmtShape([], n, n, TagLabels([], 0, sw), outs)
  {
    EmptyShape(n.lab);
    NoTags(sw);
  }

  lemma FromExpr(e: Expr, n: Ctr, tail: Code, sw: Switches, outs: set<Label>)
    requires Quiet(tail)
    ensures var (c, _, n1) := CExpr(e, n);
            StmtShape(c + tail, n, n1, TagLabels([], 0, sw), outs) && StmtShape(c, n, n1, TagLabels([], 0, sw), outs)
  {
    hide Shape, CExpr;
    ExprLabels(e, n);
    var (c, _, n1) := CExpr(e, n);
    QuietShape(tail);
    NoTags(sw);
    Join(c, Range(n.lab, n1.lab), {}, tail, {}, {}, Range(n.lab, n1.lab), {});
    StmtShapeIs(c, n, n1, Range(n.lab, n1.lab), {}, {}, outs);
    StmtShapeIs(c + tail, n, n1, Range(n.lab, n1.lab), {}, {}, outs);
  }

  lemma Leaves(l: Label, n: Ctr, sw: Switches, outs: set<Label>)
    requires l in outs
    ensures StmtShape([Jump(l)], n, n, TagLabels([], 0, sw), outs)
  {
    JumpShape([], l);
    assert [] + [Jump(l)] == [Jump(l)];
    EmptyShape(n.lab);
    NoTags(sw);
    StmtShapeIs([Jump(l)], n, n, {}, {}, {l}, outs);
  }

  lemma OneCase(v: int, sw: Switches, lo: nat)
    requires Fits([v], 0, sw, lo)
    ensures |sw| > 0 && v in sw[0].0 && Older(sw[0].0[v], lo) && TagLabels([v], 0, sw) == {sw[0].0[v]}
  {}

  lemma OneDefault(sw: Switches, lo: nat)
    requires Fits([], 1, sw, lo)
    ensures |sw| > 0 && sw[0].1.Some? && Older(sw[0].1.value, lo) && TagLabels([], 1, sw) == {sw[0].1.value}
  {}

  lemma Tagged(l: Label, one: set<Label>, c: Code, n: Ctr, n1: Ctr, tags: set<Label>, all: set<Label>, outs: set<Label>)
    requires Older(l, n.lab) && one == {l} && one !! tags && all == one + tags && StmtShape(c, n, n1, tags, outs)
    ensures StmtShape([ILabel(l)] + c, n, n1, all, outs)
  {
    hide Shape;
    LabelShape(l);
    Join([ILabel(l)], {l}, {}, c, Range(n.lab, n1.lab) + tags, outs, Range(n.lab, n1.lab) + all, outs);
  }

  lemma {:induction false} ItemsLabels(items: Items, n: Ctr, x: Ctx, brk: bool, cont: bool)
    requires WfItems(items, brk, cont) && HasTargets(x, brk, cont)
    requires Fits(CasesOf(items), DefaultsOf(items), x.switches, n.lab)
    ensures var (c, n1) := CItems(items, n, x);
            StmtShape(c, n, n1, TagLabels(CasesOf(items), DefaultsOf(items), x.switches), Outs(x, brk, cont))
    decreases items
  {
    hide Shape, Fits, TagLabels;
    var outs, sw := Outs(x, brk, cont), x.switches;
    match items
    case Nil => Emptied(n, sw, outs);
    case Cons(h, t) =>
      TagsSplit(Cases(h), Defaults(h), CasesOf(t), DefaultsOf(t), sw, n.lab);
      StmtLabels(h, n, x, brk, cont);
      var (ch, n1) := CStmt(h, n, x);
      FitsLater(CasesOf(t), DefaultsOf(t), sw, n.lab, n1.lab);
      ItemsLabels(t, n1, x, brk, cont);
      var (ct, n2) := CItems(t, n1, x);
      InTurn(ch, n, n1, TagLabels(Cases(h), Defaults(h), sw), ct, n2, TagLabels(CasesOf(t), DefaultsOf(t), sw), outs,
             TagLabels(CasesOf(items), DefaultsOf(items), sw)) by {
        TagsOlder(Cases(h), Defaults(h), sw, n.lab);
        TagsOlder(CasesOf(t), DefaultsOf(t), sw, n.lab);
      }
  }

  lemma InTurn(a: Code, n: Ctr, n1: Ctr, ta: set<Label>, b: Code, n2: Ctr, tb: set<Label>, outs: set<Label>,
               tags: set<Label>)
    requires StmtShape(a, n, n1, ta, outs) && StmtShape(b, n1, n2, tb, outs)
    requires AllOlder(ta, n.lab) && AllOlder(tb, n.lab) && ta !! tb && tags == ta + tb
    ensures StmtShape(a + b, n, n2, tags, outs)
  {
    hide Shape;
    Join(a, Range(n.lab, n1.lab) + ta, outs, b, Range(n1.lab, n2.lab) + tb, outs, Range(n.lab, n2.lab) + tags, outs);
  }

  lemma {:induction false} IfLabels(s: Stmt, n: Ctr, x: Ctx, brk: bool, cont: bool)
    requires s.If?
    requires Wf(s, brk, cont) && HasTargets(x, brk, cont) && Fits(Cases(s), Defaults(s), x.switches, n.lab)
    ensures var (c, n1) := CStmt(s, n, x);
            StmtShape(c, n, n1, TagLabels(Cases(s), Defaults(s), x.switches), Outs(x, brk, cont))
    decreases s, 2
  {
    hide Shape, Fits, TagLabels, Range, CBool;
    var outs, sw := Outs(x, brk, cont), x.switches;
    var If(e, a, b) := s;
    var m := n.(lab := n.lab + 3);
    BoolLabels(e, L(n.lab), L(n.lab + 1), m);
    var (cc, n1) := CBool(e, L(n.lab), L(n.lab + 1), m);
    var vb, db := if b.Some? then Cases(b.value) else [], if b.Some? then Defaults(b.value) else 0;
    TagsSplit(Cases(a), Defaults(a), vb, db, sw, n.lab);
    FitsLater(Cases(a), Defaults(a), sw, n.lab, n1.lab);
    StmtLabels(a, n1, x, brk, cont);
    var (ca, n2) := CStmt(a, n1, x);
    FitsLater(vb, db, sw, n.lab, n2.lab);
    if b.Some? {
      StmtLabels(b.value, n2, x, brk, cont);
    } else {
      Emptied(n2, sw, outs);
    }
    var (cb, n3) := if b.Some? then CStmt(b.value, n2, x) else ([], n2);
    var ta, tb := TagLabels(Cases(a), Defaults(a), sw), TagLabels(vb, db, sw);
    TagsOlder(Cases(a), Defaults(a), sw, n.lab);
    TagsOlder(vb, db, sw, n.lab);
    IfShape(n.lab, n1.lab, n2.lab, n3.lab, cc, ca, cb, ta, tb, Range(n.lab, n3.lab) + (ta + tb), outs);
  }

  lemma {:induction false} WhileLabels(s: Stmt, n: Ctr, x: Ctx, outs: set<Label>)
    requires s.While?
    requires Wf(s.body, true, true) && Fits(Cases(s), Defaults(s), x.switches, n.lab)
    ensures var (c, n1) := CStmt(s, n, x); StmtShape(c, n, n1, TagLabels(Cases(s), Defaults(s), x.switches), outs)
    decreases s, 2
  {
    hide Shape, Fits, TagLabels, Range, CBool;
    var While(e, b) := s;
    var sw, top, body, end := x.switches, L(n.lab), L(n.lab + 1), L(n.lab + 2);
    var m := n.(lab := n.lab + 3);
    BoolLabels(e, body, end, m);
    var (cc, n1) := CBool(e, body, end, m);
    FitsLater(Cases(b), Defaults(b), sw, n.lab, n1.lab);
    StmtLabels(b, n1, Enter(x, end, top), true, true);
    var (cb, n2) := CStmt(b, n1, Enter(x, end, top));
    var t := TagLabels(Cases(b), Defaults(b), sw);
    TagsOlder(Cases(b), Defaults(b), sw, n.lab);
    assert {end} + {top} == {top, end};
    WhileShape(n.lab, n1.lab, n2.lab, cc, cb, t, Range(n.lab, n2.lab) + t);
    StmtShapeIs(CStmt(s, n, x).0, n, n2, Range(n.lab, n2.lab) + t, t, {}, outs);
  }

  lemma {:induction false} DoLabels(s: Stmt, n: Ctr, x: Ctx, outs: set<Label>)
    requires s.Do?
    requires Wf(s.body, true, true) && Fits(Cases(s), Defaults(s), x.switches, n.lab)
    ensures var (c, n1) := CStmt(s, n, x); StmtShape(c, n, n1, TagLabels(Cases(s), Defaults(s), x.switches), outs)
    decreases s, 2
  {
    hide Shape, Fits, TagLabels, Range, CBool;
    var Do(b, e) := s;
    var sw, body, cond, end := x.switches, L(n.lab), L(n.lab + 1), L(n.lab + 2);
    var m := n.(lab := n.lab + 3);
    FitsLater(Cases(b), Defaults(b), sw, n.lab, m.lab);
    StmtLabels(b, m, Enter(x, end, cond), true, true);
    var (cb, n1) := CStmt(b, m, Enter(x, end, cond));
    BoolLabels(e, body, end, n1);
    var (cc, n2) := CBool(e, body, end, n1);
    var t := TagLabels(Cases(b), Defaults(b), sw);
    TagsOlder(Cases(b), Defaults(b), sw, n.lab);
    assert {end} + {cond} == {cond, end};
    DoShape(n.lab, n1.lab, n2.lab, cb, cc, t, Range(n.lab, n2.lab) + t);
    StmtShapeIs(CStmt(s, n, x).0, n, n2, Range(n.lab, n2.lab) + t, t, {}, outs);
  }

  lemma PlainHasNoTags(items: Items)
    requires Plain(items)
    ensures CasesOf(items) == [] && DefaultsOf(items) == 0 && WfItems(items, false, false)
  {}

  lemma {:induction false} ForLabels(s: Stmt, n: Ctr, x: Ctx, brk: bool, cont: bool)
    requires s.For?
    requires Wf(s, brk, cont) && Fits(Cases(s), Defaults(s), x.switches, n.lab)
    ensures var (c, n1) := CStmt(s, n, x);
            StmtShape(c, n, n1, TagLabels(Cases(s), Defaults(s), x.switches), Outs(x, brk, cont))
    decreases s, 2
  {
    hide Shape, Fits, TagLabels;
    var For(i, e, inc, b) := s;
    var sw, m := x.switches, n.(lab := n.lab + 4);
    PlainHasNoTags(i);
    Fits0(sw, m.lab);
    ItemsLabels(i, m, x, false, false);
    NoTags(sw);
    var (ci, n1) := CItems(i, m, x);
    LoopLabels(e, inc, b, n.lab, n1, x);
    var (cl, n2) := CLoop(e, inc, b, n.lab, n1, x);
    var t := TagLabels(Cases(b), Defaults(b), sw);
    TagsOlder(Cases(b), Defaults(b), sw, n.lab);
    var ll := Range(n.lab, m.lab) + Range(n1.lab, n2.lab) + t;
    ForParts(ci, Range(m.lab, n1.lab), Outs(x, false, false), cl, ll, n, n2, t, Outs(x, brk, cont));
  }

  lemma Fits0(sw: Switches, lo: nat)
    ensures Fits([], 0, sw, lo)
  {}

  lemma ForParts(ci: Code, li: set<Label>, oi: set<Label>, cl: Code, ll: set<Label>, n: Ctr, n2: Ctr, t: set<Label>,
                 outs: set<Label>)
    requires Shape(ci, li + {}, oi) && oi == {} && Shape(cl, ll, {}) && li !! ll
    requires li + ll == Range(n.lab, n2.lab) + t && n.lab <= n2.lab && n.tmp <= n2.tmp
    ensures StmtShape(ci + cl, n, n2, t, outs)
  {
    hide Shape, Range;
    assert li + {} == li;
    Join(ci, li, {}, cl, ll, {}, li + ll, {});
    StmtShapeIs(ci + cl, n, n2, li + ll, t, {}, outs);
  }

  lemma {:induction false} LoopLabels(e: Option<Expr>, inc: Option<Expr>, b: Stmt, lab: nat, n: Ctr, x: Ctx)
    requires lab + 4 <= n.lab && Wf(b, true, true) && Fits(Cases(b), Defaults(b), x.switches, lab)
    ensures var (c, n1) := CLoop(e, inc, b, lab, n, x);
            && n.lab <= n1.lab && n.tmp <= n1.tmp
            && Shape(c, Range(lab, lab + 4) + Range(n.lab, n1.lab) + TagLabels(Cases(b), Defaults(b), x.switches), {})
    decreases b, 4
  {
    hide Shape, Fits, TagLabels, Range, CBool, CExpr;
    var sw, body, incL, end := x.switches, L(lab + 1), L(lab + 2), L(lab + 3);
    var (cc, n1) := if e.Some? then CBool(e.value, body, end, n) else ([Jump(body)], n);
    if e.Some? {
      BoolLabels(e.value, body, end, n);
    } else {
      JumpShape([], body);
      assert [] + [Jump(body)] == [Jump(body)];
      EmptyShape(n.lab);
      Weaken([Jump(body)], {}, {body}, {body, end});
    }
    FitsLater(Cases(b), Defaults(b), sw, lab, n1.lab);
    StmtLabels(b, n1, Enter(x, end, incL), true, true);
    assert {end} + {incL} == {incL, end};
    var (cb, n2) := CStmt(b, n1, Enter(x, end, incL));
    StepLabels(inc, n2);
    var (ci, n3) := CStep(inc, n2);
    var t := TagLabels(Cases(b), Defaults(b), sw);
    TagsOlder(Cases(b), Defaults(b), sw, lab);
    ForShape(lab, n.lab, n1.lab, n2.lab, n3.lab, cc, cb, ci, t, Range(lab, lab + 4) + Range(n.lab, n3.lab) + t);
  }

  lemma StepLabels(e: Option<Expr>, n: Ctr)
    ensures var (c, n1) := CStep(e, n); n.lab <= n1.lab && n.tmp <= n1.tmp && Shape(c, Range(n.lab, n1.lab), {})
  {
    hide Shape;
    if e.Some? {
      ExprLabels(e.value, n);
    } else {
      EmptyShape(n.lab);
    }
  }

  lemma NamedIn(b: Stmt, n: Ctr)
    ensures forall i :: 0 <= i < |NamedOf(b, n.lab)| ==> NamedOf(b, n.lab)[i].1 in Range(n.lab + 1, AfterLabels(b, n).lab)
  {
    NamedAt(Cases(b), n.lab + 1);
  }

  lemma {:induction false} SwitchLabels(s: Stmt, n: Ctr, x: Ctx, brk: bool, cont: bool)
    requires s.Switch?
    requires Wf(s, brk, cont) && HasTargets(x, brk, cont)
    ensures var (c, n1) := CStmt(s, n, x);
            StmtShape(c, n, n1, TagLabels([], 0, x.switches), Outs(x, brk, cont))
    decreases s, 2
  {
    hide Shape, Fits, TagLabels, CExpr, CDispatch, NamedOf, StmtShape, TableOf;
    var Switch(e, b) := s;
    ExprLabels(e, n);
    var (ce, cv, n0) := CExpr(e, n);
    var lo, m, y, named := n0.lab, AfterLabels(b, n0), EnterSwitch(b, n0.lab, x), NamedOf(b, n0.lab);
    var outs := Outs(x, brk, cont);
    SwitchTags(b, n0, x);
    NamedIn(b, n0);
    DispatchLabels(cv, named, m, Range(lo + 1, m.lab));
    var (cd, n1) := CDispatch(cv, named, m);
    FitsLater(Cases(b), Defaults(b), y.switches, m.lab, n1.lab);
    StmtLabels(b, n1, y, true, cont);
    var (cb, n2) := CStmt(b, n1, y);
    StmtShapeOf(cb, n1, n2, TagLabels(Cases(b), Defaults(b), y.switches), Outs(y, true, cont));
    var d := DefaultOf(b, lo);
    var dl := if d.Some? then d.value else L(lo);
    var co := if cont then {x.loops[0].1} else {};
    assert Outs(y, true, cont) == {L(lo)} + co;
    SwitchShape(lo, m.lab, n1.lab, n2.lab, cd, dl, cb, co, Range(lo, n2.lab));
    NoTags(x.switches);
    AfterValue(ce, n, n0, cd + [Jump(dl)] + (cb + [ILabel(L(lo))]), n2, co, outs);
  }

  lemma StmtShapeOf(c: Code, n: Ctr, n1: Ctr, tags: set<Label>, outs: set<Label>)
    requires StmtShape(c, n, n1, tags, outs)
    ensures n.lab <= n1.lab && n.tmp <= n1.tmp && Shape(c, Range(n.lab, n1.lab) + tags, outs)
  {}

  lemma AfterValue(ce: Code, n: Ctr, n0: Ctr, cs: Code, n2: Ctr, o: set<Label>, outs: set<Label>)
    requires Shape(ce, Range(n.lab, n0.lab), {}) && Shape(cs, Range(n0.lab, n2.lab), o) && o <= outs
    requires n.lab <= n0.lab <= n2.lab && n.tmp <= n2.tmp
    ensures StmtShape(ce + cs, n, n2, {}, outs)
  {
    hide Shape;
    Join(ce, Range(n.lab, n0.lab), {}, cs, Range(n0.lab, n2.lab), o, Range(n.lab, n2.lab), o);
    StmtShapeIs(ce + cs, n, n2, Range(n.lab, n2.lab), {}, o, outs);
  }

  // ---- functions ----

  /** In a function's code every label stands once, and every branch names a label of that function. */
  lemma FunctionLabels(body: Stmt, void: bool, n: Ctr)
    requires WfBody(body)
    ensures var c := CFunction(body, void, n).0; Distinct(c) && TargetsOf(c) <= LabelsOf(c)
  {
    hide Fits, TagLabels, LabelsOf, TargetsOf, Distinct;
    Fits0([], n.lab);
    StmtLabels(body, n, EMPTY, false, false);
    NoTags([]);
    var (c, n1) := CStmt(body, n, EMPTY);
    var e := Epilogue(Emitted(body, false), void);
    QuietShape(e);
    Join(c, Range(n.lab, n1.lab) + {}, {}, e, {}, {}, Range(n.lab, n1.lab), {});
  }
}
