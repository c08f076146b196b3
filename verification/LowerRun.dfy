/** The simulation, statement by statement, and what follows from it for whole runs. */
module LowerRun {
  import opened Options
  import opened CLang
  import opened IR
  import opened Lowering
  import opened LowerLabels
  import opened LowerExpr
  import opened LowerStmt

  // ---- where the parts of a statement's code stand ----

  lemma IfPieces(code: Code, p: nat, cc: Code, t: Label, ca: Code, end: Label, f: Label, cb: Code)
    requires At(code, p, cc + ([ILabel(t)] + ca + [Jump(end), ILabel(f)]) + (cb + [ILabel(end)]))
    ensures var q := p + |cc|;
            var r := q + |ca| + 3;
            && At(code, p, cc) && r + |cb| < |code|
            && code[q] == ILabel(t) && At(code, q + 1, ca)
            && code[q + |ca| + 1] == Jump(end) && code[q + |ca| + 2] == ILabel(f)
            && At(code, r, cb) && code[r + |cb|] == ILabel(end)
  {
    hide At;
    var a, b := [ILabel(t)] + ca + [Jump(end), ILabel(f)], cb + [ILabel(end)];
    AtSplit(code, p, cc + a, b);
    AtSplit(code, p, cc, a);
    ArmAt(code, p + |cc|, t, ca, Jump(end), ILabel(f));
    AtSplit(code, p + |cc + a|, cb, [ILabel(end)]);
    AtIndex(code, p + |cc + a| + |cb|, [ILabel(end)], 0);
  }

  lemma IfAt(code: Code, p: nat, c: Expr, a: Stmt, b: Option<Stmt>, n: Ctr, x: Ctx)
    requires At(code, p, CStmt(If(c, a, b), n, x).0)
    ensures var (cc, n1) := CBool(c, L(n.lab), L(n.lab + 1), n.(lab := n.lab + 3));
            var (ca, n2) := CStmt(a, n1, x);
            var (cb, n3) := if b.Some? then CStmt(b.value, n2, x) else ([], n2);
            var q := p + |cc|;
            var r := q + |ca| + 3;
            && At(code, p, cc) && r + |cb| < |code|
            && code[q] == ILabel(L(n.lab)) && At(code, q + 1, ca)
            && code[q + |ca| + 1] == Jump(L(n.lab + 2)) && code[q + |ca| + 2] == ILabel(L(n.lab + 1))
            && At(code, r, cb) && code[r + |cb|] == ILabel(L(n.lab + 2))
            && p + |CStmt(If(c, a, b), n, x).0| == r + |cb| + 1
  {
    hide At, CBool;
    var (cc, n1) := CBool(c, L(n.lab), L(n.lab + 1), n.(lab := n.lab + 3));
    var (ca, n2) := CStmt(a, n1, x);
    var (cb, n3) := if b.Some? then CStmt(b.value, n2, x) else ([], n2);
    IfPieces(code, p, cc, L(n.lab), ca, L(n.lab + 2), L(n.lab + 1), cb);
  }

  /** A label, code, a label, code, then a jump back and the end label. */
  lemma WhilePieces(code: Code, p: nat, top: Label, cc: Code, body: Label, cb: Code, end: Label)
    requires At(code, p, [ILabel(top)] + cc + [ILabel(body)] + (cb + [Jump(top), ILabel(end)]))
    ensures var q := p + 1 + |cc|;
            && q + |cb| + 2 < |code| && code[p] == ILabel(top) && At(code, p + 1, cc)
            && code[q] == ILabel(body) && At(code, q + 1, cb)
            && code[q + |cb| + 1] == Jump(top) && code[q + |cb| + 2] == ILabel(end)
  {
    hide At;
    HeadPieces(code, p, top, cc, body, cb + [Jump(top), ILabel(end)]);
    AtSplit(code, p + |cc| + 2, cb, [Jump(top), ILabel(end)]);
    AtIndex(code, p + |cc| + 2 + |cb|, [Jump(top), ILabel(end)], 0);
    AtIndex(code, p + |cc| + 2 + |cb|, [Jump(top), ILabel(end)], 1);
  }

  lemma HeadPieces(code: Code, p: nat, top: Label, cc: Code, body: Label, t: Code)
    requires At(code, p, [ILabel(top)] + cc + [ILabel(body)] + t)
    ensures p + |cc| + 1 < |code| && code[p] == ILabel(top) && At(code, p + 1, cc)
    ensures code[p + |cc| + 1] == ILabel(body) && At(code, p + |cc| + 2, t)
  {
    hide At;
    AtSplit(code, p, [ILabel(top)] + cc + [ILabel(body)], t);
    AtSplit(code, p, [ILabel(top)] + cc, [ILabel(body)]);
    AtSplit(code, p, [ILabel(top)], cc);
    AtIndex(code, p, [ILabel(top)], 0);
    AtIndex(code, p + 1 + |cc|, [ILabel(body)], 0);
  }

  lemma WhileAt(code: Code, p: nat, c: Expr, b: Stmt, n: Ctr, x: Ctx)
    requires At(code, p, CStmt(While(c, b), n, x).0)
    ensures var top, body, end := L(n.lab), L(n.lab + 1), L(n.lab + 2);
            var (cc, n1) := CBool(c, body, end, n.(lab := n.lab + 3));
            var (cb, n2) := CStmt(b, n1, Enter(x, end, top));
            var q := p + 1 + |cc|;
            && q + |cb| + 2 < |code| && code[p] == ILabel(top) && At(code, p + 1, cc)
            && code[q] == ILabel(body) && At(code, q + 1, cb)
            && code[q + |cb| + 1] == Jump(top) && code[q + |cb| + 2] == ILabel(end)
            && p + |CStmt(While(c, b), n, x).0| == q + |cb| + 3
  {
    hide At, CBool;
    var top, body, end := L(n.lab), L(n.lab + 1), L(n.lab + 2);
    var (cc, n1) := CBool(c, body, end, n.(lab := n.lab + 3));
    var (cb, n2) := CStmt(b, n1, Enter(x, end, top));
    WhilePieces(code, p, top, cc, body, cb, end);
  }

  lemma DoPieces(code: Code, p: nat, body: Label, cb: Code, cond: Label, cc: Code, end: Label)
    requires At(code, p, [ILabel(body)] + cb + ([ILabel(cond)] + cc + [ILabel(end)]))
    ensures var q := p + 1 + |cb|;
            && q + |cc| + 1 < |code| && code[p] == ILabel(body) && At(code, p + 1, cb)
            && code[q] == ILabel(cond) && At(code, q + 1, cc) && code[q + |cc| + 1] == ILabel(end)
  {
    hide At;
    var t := [ILabel(cond)] + cc + [ILabel(end)];
    AtSplit(code, p, [ILabel(body)] + cb, t);
    AtSplit(code, p, [ILabel(body)], cb);
    AtIndex(code, p, [ILabel(body)], 0);
    assert t == [ILabel(cond)] + cc + [ILabel(end)] + [];
    HeadPieces(code, p + 1 + |cb|, cond, cc, end, []);
  }

  lemma DoAt(code: Code, p: nat, b: Stmt, c: Expr, n: Ctr, x: Ctx)
    requires At(code, p, CStmt(Do(b, c), n, x).0)
    ensures var body, cond, end := L(n.lab), L(n.lab + 1), L(n.lab + 2);
            var (cb, n1) := CStmt(b, n.(lab := n.lab + 3), Enter(x, end, cond));
            var (cc, n2) := CBool(c, body, end, n1);
            var q := p + 1 + |cb|;
            && cb == DoBody(b, n, x)
            && q + |cc| + 1 < |code| && code[p] == ILabel(body) && At(code, p + 1, cb)
            && code[q] == ILabel(cond) && At(code, q + 1, cc) && code[q + |cc| + 1] == ILabel(end)
            && p + |CStmt(Do(b, c), n, x).0| == q + |cc| + 2
  {
    hide At, CBool;
    var body, cond, end := L(n.lab), L(n.lab + 1), L(n.lab + 2);
    var (cb, n1) := CStmt(b, n.(lab := n.lab + 3), Enter(x, end, cond));
    var (cc, n2) := CBool(c, body, end, n1);
    DoPieces(code, p, body, cb, cond, cc, end);
  }

  /** The test of a for loop and the counters after it. */
  function LoopTest(c: Option<Expr>, lab: nat, n: Ctr): (Code, Ctr) {
    if c.Some? then CBool(c.value, L(lab + 1), L(lab + 3), n) else ([Jump(L(lab + 1))], n)
  }

  lemma LoopPieces(code: Code, p: nat, top: Label, cc: Code, body: Label, cb: Code, incL: Label, ci: Code, end: Label)
    requires At(code, p, [ILabel(top)] + cc + [ILabel(body)] + (cb + ([ILabel(incL)] + ci + [Jump(top), ILabel(end)])))
    ensures var q := p + 1 + |cc|;
            var r := q + 1 + |cb|;
            && r + |ci| + 2 < |code| && code[p] == ILabel(top) && At(code, p + 1, cc)
            && code[q] == ILabel(body) && At(code, q + 1, cb)
            && code[r] == ILabel(incL) && At(code, r + 1, ci)
            && code[r + |ci| + 1] == Jump(top) && code[r + |ci| + 2] == ILabel(end)
  {
    hide At;
    var u := [ILabel(incL)] + ci + [Jump(top), ILabel(end)];
    HeadPieces(code, p, top, cc, body, cb + u);
    AtSplit(code, p + |cc| + 2, cb, u);
    ArmAt(code, p + |cc| + 2 + |cb|, incL, ci, Jump(top), ILabel(end));
  }

  lemma LoopAt(code: Code, p: nat, c: Option<Expr>, inc: Option<Expr>, b: Stmt, lab: nat, n: Ctr, x: Ctx)
    requires At(code, p, CLoop(c, inc, b, lab, n, x).0)
    ensures var top, body, incL, end := L(lab), L(lab + 1), L(lab + 2), L(lab + 3);
            var (cc, n1) := LoopTest(c, lab, n);
            var (cb, n2) := CStmt(b, n1, Enter(x, end, incL));
            var (ci, n3) := CStep(inc, n2);
            var q := p + 1 + |cc|;
            var r := q + 1 + |cb|;
            && r == p + |LoopHead(c, b, lab, n, x)|
            && r + |ci| + 2 < |code| && code[p] == ILabel(top) && At(code, p + 1, cc)
            && code[q] == ILabel(body) && At(code, q + 1, cb)
            && code[r] == ILabel(incL) && At(code, r + 1, ci)
            && code[r + |ci| + 1] == Jump(top) && code[r + |ci| + 2] == ILabel(end)
            && p + |CLoop(c, inc, b, lab, n, x).0| == r + |ci| + 3
  {
    hide At, CBool, CStmt, CStep;
    var top, body, incL, end := L(lab), L(lab + 1), L(lab + 2), L(lab + 3);
    var (cc, n1) := LoopTest(c, lab, n);
    var (cb, n2) := CStmt(b, n1, Enter(x, end, incL));
    var (ci, n3) := CStep(inc, n2);
    LoopPieces(code, p, top, cc, body, cb, incL, ci, end);
  }

  lemma SwitchPieces(code: Code, p: nat, cc: Code, cd: Code, j: Instr, cb: Code, e: Instr)
    requires At(code, p, cc + (cd + [j] + (cb + [e])))
    ensures var q := p + |cc| + |cd|;
            && At(code, p, cc) && At(code, p + |cc|, cd) && q + |cb| + 1 < |code|
            && code[q] == j && At(code, q + 1, cb) && code[q + 1 + |cb|] == e
  {
    hide At;
    AtSplit(code, p, cc, cd + [j] + (cb + [e]));
    AtSplit(code, p + |cc|, cd + [j], cb + [e]);
    AtSplit(code, p + |cc|, cd, [j]);
    AtIndex(code, p + |cc| + |cd|, [j], 0);
    AtSplit(code, p + |cc| + |cd| + 1, cb, [e]);
    AtIndex(code, p + |cc| + |cd| + 1 + |cb|, [e], 0);
  }

  lemma SwitchIs(c: Expr, b: Stmt, n: Ctr, x: Ctx)
    ensures var (cc, cv, n0) := CExpr(c, n);
            var (cd, n1) := CDispatch(cv, NamedOf(b, n0.lab), AfterLabels(b, n0));
            var (cb, n2) := CStmt(b, n1, EnterSwitch(b, n0.lab, x));
            var d := DefaultOf(b, n0.lab);
            CStmt(Switch(c, b), n, x).0 == cc + (cd + [Jump(if d.Some? then d.value else L(n0.lab))]
                                                 + (cb + [ILabel(L(n0.lab))]))
  {
    hide CExpr, CDispatch, NamedOf, DefaultOf, AfterLabels, EnterSwitch;
  }

  lemma SwitchAt(code: Code, p: nat, c: Expr, b: Stmt, n: Ctr, x: Ctx)
    requires At(code, p, CStmt(Switch(c, b), n, x).0)
    ensures var (cc, cv, n0) := CExpr(c, n);
            var (cd, n1) := CDispatch(cv, NamedOf(b, n0.lab), AfterLabels(b, n0));
            var (cb, n2) := CStmt(b, n1, EnterSwitch(b, n0.lab, x));
            var d := DefaultOf(b, n0.lab);
            var q := p + |cc| + |cd|;
            && At(code, p, cc) && At(code, p + |cc|, cd) && q + |cb| + 1 < |code|
            && code[q] == Jump(if d.Some? then d.value else L(n0.lab))
            && At(code, q + 1, cb) && code[q + 1 + |cb|] == ILabel(L(n0.lab))
            && p + |CStmt(Switch(c, b), n, x).0| == q + |cb| + 2
  {
    hide At, CExpr, CDispatch, NamedOf, DefaultOf, AfterLabels, EnterSwitch, CStmt, CSwitch;
    SwitchIs(c, b, n, x);
    var (cc, cv, n0) := CExpr(c, n);
    var (cd, n1) := CDispatch(cv, NamedOf(b, n0.lab), AfterLabels(b, n0));
    var (cb, n2) := CStmt(b, n1, EnterSwitch(b, n0.lab, x));
    var d := DefaultOf(b, n0.lab);
    SwitchPieces(code, p, cc, cd, Jump(if d.Some? then d.value else L(n0.lab)), cb, ILabel(L(n0.lab)));
  }

  // ---- leaving ----

  predicate IsLoop(k: Kont) { k.KWhile? || k.KDo? || k.KForStep? }

  /** A loop ends at its break label. */
  lemma LoopBreak(code: Code, k: Kont, w: Places, q: nat, x: Ctx, epi: Code) returns (r: nat)
    requires Follows(code, k, w, q, x, epi) && IsLoop(k)
    ensures w.Here? && |x.loops| > 0 && r < |code| && code[r] == ILabel(x.loops[0].0)
    ensures Follows(code, k.k, w.rest, r + 1, w.x, epi)
  {
    hide At, CStmt, CLoop, CItems, CBool, LoopHead, LoopTest;
    match k
    case KWhile(c, b, _) =>
      WhileAt(code, w.pos, c, b, w.n, w.x);
      r := w.pos + |CStmt(While(c, b), w.n, w.x).0| - 1;
    case KDo(b, c, _) =>
      DoAt(code, w.pos, b, c, w.n, w.x);
      r := w.pos + |CStmt(Do(b, c), w.n, w.x).0| - 1;
    case KForStep(c, i, b, _) =>
      LoopAt(code, w.pos, c, i, b, w.lab, w.n, w.x);
      r := w.pos + |CLoop(c, i, b, w.lab, w.n, w.x).0| - 1;
  }

  /** Past the end of what is not a loop. */
  lemma PassFrame(code: Code, k: Kont, w: Places, q: nat, x: Ctx, epi: Code) returns (q': nat)
    requires Follows(code, k, w, q, x, epi) && !IsLoop(k) && !k.Stop?
    ensures w.Here? && Follows(code, k.k, w.rest, q', if k.KSwitch? then w.x else x, epi)
    ensures k.KSwitch? ==> && q < |code| && q' == q + 1 && code[q] == ILabel(L(w.lab))
                           && x.loops == [(L(w.lab), ContOf(w.x))] + w.x.loops
  {
    hide At, CItems, CLoop;
    match k
    case KItems(items, _) => q' := q + |CItems(items, w.n, x).0|;
    case KForTest(c, i, b, _) => q' := q + |CLoop(c, i, b, w.lab, w.n, x).0|;
    case KSwitch(_) => q' := q + 1;
    case KIf(_) => q' := w.pos + 1;
  }

  /** The break target labels the place from which the code does what break continues with. */
  lemma {:induction false} BreakGoes(code: Code, k: Kont, w: Places, q: nat, x: Ctx, epi: Code)
    returns (r: nat, x': Ctx, w': Places)
    requires Follows(code, k, w, q, x, epi) && BreakTo(k).Some?
    ensures |x.loops| > 0 && r < |code| && code[r] == ILabel(x.loops[0].0)
    ensures Follows(code, BreakTo(k).value, w', r + 1, x', epi)
    decreases k
  {
    hide Follows;
    if IsLoop(k) {
      r := LoopBreak(code, k, w, q, x, epi);
      x', w' := w.x, w.rest;
    } else {
      var q' := PassFrame(code, k, w, q, x, epi);
      if k.KSwitch? {
        r, x', w' := q, w.x, w.rest;
      } else {
        r, x', w' := BreakGoes(code, k.k, w.rest, q', x, epi);
      }
    }
  }

  /** A loop goes round from its continue label. */
  lemma LoopContinue(code: Code, k: Kont, w: Places, q: nat, x: Ctx, epi: Code, void: bool, vars: Store, tmps: Tmps)
    returns (r: nat, n': Ctr, x': Ctx, w': Places)
    requires Follows(code, k, w, q, x, epi) && IsLoop(k)
    ensures |x.loops| > 0 && r < |code| && code[r] == ILabel(x.loops[0].1)
    ensures Matches(code, Resume(k, vars), Running(r, vars, tmps), n', x', w', epi, void)
  {
    hide At, CStmt, CLoop, CItems, CBool, LoopHead, LoopTest;
    match k
    case KWhile(c, b, _) =>
      WhileAt(code, w.pos, c, b, w.n, w.x);
      r, n', x', w' := w.pos, w.n, w.x, w.rest;
    case KDo(b, c, _) =>
      DoAt(code, w.pos, b, c, w.n, w.x);
      r, n', x', w' := q, w.n, x, w;
    case KForStep(c, i, b, _) =>
      LoopAt(code, w.pos, c, i, b, w.lab, w.n, w.x);
      r, n', x', w' := q, w.n, x, w;
  }

  /** The continue target labels the place where the innermost loop goes round. */
  lemma {:induction false} ContinueGoes(code: Code, k: Kont, w: Places, q: nat, x: Ctx, epi: Code, void: bool,
                                        vars: Store, tmps: Tmps)
    returns (r: nat, n': Ctr, x': Ctx, w': Places)
    requires Follows(code, k, w, q, x, epi) && ContinueTo(k).Some?
    ensures |x.loops| > 0 && r < |code| && code[r] == ILabel(x.loops[0].1)
    ensures Matches(code, Resume(ContinueTo(k).value, vars), Running(r, vars, tmps), n', x', w', epi, void)
    decreases k
  {
    hide Follows, Matches;
    if IsLoop(k) {
      r, n', x', w' := LoopContinue(code, k, w, q, x, epi, void, vars, tmps);
    } else {
      var q' := PassFrame(code, k, w, q, x, epi);
      r, n', x', w' := ContinueGoes(code, k.k, w.rest, q', if k.KSwitch? then w.x else x, epi, void, vars, tmps);
    }
  }

  // ---- labels of a switch ----

  /** The label the innermost switch has for a tag. */
  function TagAt(x: Ctx, t: Tag): Option<Label> {
    if |x.switches| == 0 then None
    else match t
      case TCase(v) => if v in x.switches[0].0 then Some(x.switches[0].0[v]) else None
      case TDefault => x.switches[0].1
  }

  /** The label of a tag stands right before the code of the statement the tag leads to, wherever it is nested,
      and what is left to do after that statement follows its code. */
  lemma {:induction false} FindAt(code: Code, s: Stmt, t: Tag, k: Kont, p: nat, n: Ctr, x: Ctx, w: Places, epi: Code,
                                  l: Label)
    returns (q: nat, n': Ctr, x': Ctx, w': Places)
    requires At(code, p, CStmt(s, n, x).0) && Follows(code, k, w, p + |CStmt(s, n, x).0|, x, epi)
    requires Find(s, t, k).Some? && TagAt(x, t) == Some(l)
    ensures Leads(code, q, l, Find(s, t, k).value, n', x', w', epi)
    decreases s, 1
  {
    hide At, CLoop, CExpr, CBool, Follows, Leads;
    match s
    case Case(v, b) => q, n', x', w' := FindTagAt(code, s, CaseLabel(x, v), b, t, k, p, n, x, w, epi, l);
    case Default(b) => q, n', x', w' := FindTagAt(code, s, DefaultLabel(x), b, t, k, p, n, x, w, epi, l);
    case Block(items) => q, n', x', w' := FindItemsAt(code, items, t, k, p, n, x, w, epi, l);
    case If(_, _, _) => q, n', x', w' := FindIfAt(code, s, t, k, p, n, x, w, epi, l);
    case While(_, _) => q, n', x', w' := FindLoopAt(code, s, t, k, p, n, x, w, epi, l);
    case Do(_, _) => q, n', x', w' := FindLoopAt(code, s, t, k, p, n, x, w, epi, l);
    case For(_, _, _, _) => q, n', x', w' := FindForAt(code, s, t, k, p, n, x, w, epi, l);
  }

  /** The label stands at q, before the code of the statement it leads to and of what is left after it. */
  ghost predicate Leads(code: Code, q: nat, l: Label, f: (Stmt, Kont), n: Ctr, x: Ctx, w: Places, epi: Code) {
    var c := CStmt(f.0, n, x).0;
    q < |code| && code[q] == ILabel(l) && At(code, q + 1, c) && Follows(code, f.1, w, q + 1 + |c|, x, epi)
  }

  lemma {:induction false} FindTagAt(code: Code, s: Stmt, h: Code, b: Stmt, t: Tag, k: Kont, p: nat, n: Ctr, x: Ctx,
                                     w: Places, epi: Code, l: Label)
    returns (q: nat, n': Ctr, x': Ctx, w': Places)
    requires (s == Default(b) && h == DefaultLabel(x)) || (s.Case? && s.body == b && h == CaseLabel(x, s.v))
    requires At(code, p, CStmt(s, n, x).0) && Follows(code, k, w, p + |CStmt(s, n, x).0|, x, epi)
    requires Find(s, t, k).Some? && TagAt(x, t) == Some(l)
    ensures Leads(code, q, l, Find(s, t, k).value, n', x', w', epi)
    decreases s, 0
  {
    hide At, Follows;
    AtSplit(code, p, h, CStmt(b, n, x).0);
    if t == (if s.Default? then TDefault else TCase(s.v)) {
      AtIndex(code, p, h, 0);
      q, n', x', w' := p, n, x, w;
    } else {
      q, n', x', w' := FindAt(code, b, t, k, p + |h|, n, x, w, epi, l);
    }
  }

  lemma {:induction false} FindLoopAt(code: Code, s: Stmt, t: Tag, k: Kont, p: nat, n: Ctr, x: Ctx, w: Places, epi: Code,
                                      l: Label)
    returns (q: nat, n': Ctr, x': Ctx, w': Places)
    requires s.While? || s.Do?
    requires At(code, p, CStmt(s, n, x).0) && Follows(code, k, w, p + |CStmt(s, n, x).0|, x, epi)
    requires Find(s, t, k).Some? && TagAt(x, t) == Some(l)
    ensures Leads(code, q, l, Find(s, t, k).value, n', x', w', epi)
    decreases s, 0
  {
    hide At, CStmt, CBool, Leads;
    var end, c, b := L(n.lab + 2), s.c, s.body;
    if s.While? {
      WhileAt(code, p, c, b, n, x);
      var (cc, n1) := CBool(c, L(n.lab + 1), end, n.(lab := n.lab + 3));
      q, n', x', w' := FindAt(code, b, t, KWhile(c, b, k), p + 2 + |cc|, n1, Enter(x, end, L(n.lab)),
                              Here(p, 0, n, x, w), epi, l);
    } else {
      DoAt(code, p, b, c, n, x);
      q, n', x', w' := FindAt(code, b, t, KDo(b, c, k), p + 1, n.(lab := n.lab + 3), Enter(x, end, L(n.lab + 1)),
                              Here(p, 0, n, x, w), epi, l);
    }
  }

  lemma {:induction false} FindForAt(code: Code, s: Stmt, t: Tag, k: Kont, p: nat, n: Ctr, x: Ctx, w: Places, epi: Code,
                                     l: Label)
    returns (q: nat, n': Ctr, x': Ctx, w': Places)
    requires s.For?
    requires At(code, p, CStmt(s, n, x).0) && Follows(code, k, w, p + |CStmt(s, n, x).0|, x, epi)
    requires Find(s, t, k).Some? && TagAt(x, t) == Some(l)
    ensures Leads(code, q, l, Find(s, t, k).value, n', x', w', epi)
    decreases s, 0
  {
    hide At, CBool, Leads, CLoop, LoopHead, LoopTest;
    var For(i, c, inc, b) := s;
    var (ci, n1) := CItems(i, n.(lab := n.lab + 4), x);
    AtSplit(code, p, ci, CLoop(c, inc, b, n.lab, n1, x).0);
    var r := p + |ci|;
    LoopAt(code, r, c, inc, b, n.lab, n1, x);
    var (cc, n2) := LoopTest(c, n.lab, n1);
    q, n', x', w' := FindAt(code, b, t, KForStep(c, inc, b, k), r + 2 + |cc|, n2,
                            Enter(x, L(n.lab + 3), L(n.lab + 2)), Here(r, n.lab, n1, x, w), epi, l);
  }

  lemma {:induction false} FindIfAt(code: Code, s: Stmt, t: Tag, k: Kont, p: nat, n: Ctr, x: Ctx, w: Places, epi: Code,
                                    l: Label)
    returns (q: nat, n': Ctr, x': Ctx, w': Places)
    requires s.If?
    requires At(code, p, CStmt(s, n, x).0) && Follows(code, k, w, p + |CStmt(s, n, x).0|, x, epi)
    requires Find(s, t, k).Some? && TagAt(x, t) == Some(l)
    ensures Leads(code, q, l, Find(s, t, k).value, n', x', w', epi)
    decreases s, 0
  {
    hide At, CStmt, CBool, Leads;
    var If(c, a, b) := s;
    IfAt(code, p, c, a, b, n, x);
    var (cc, n1) := CBool(c, L(n.lab), L(n.lab + 1), n.(lab := n.lab + 3));
    var (ca, n2) := CStmt(a, n1, x);
    var r := p + |cc| + |ca| + 3;
    var w1 := Here(p + |CStmt(s, n, x).0| - 1, n.lab + 2, n, x, w);
    if Find(a, t, KIf(k)).Some? {
      q, n', x', w' := FindAt(code, a, t, KIf(k), p + |cc| + 1, n1, x, w1, epi, l);
    } else {
      q, n', x', w' := FindAt(code, b.value, t, KIf(k), r, n2, x, w1, epi, l);
    }
  }

  lemma {:induction false} FindItemsAt(code: Code, items: Items, t: Tag, k: Kont, p: nat, n: Ctr, x: Ctx, w: Places,
                                       epi: Code, l: Label)
    returns (q: nat, n': Ctr, x': Ctx, w': Places)
    requires At(code, p, CItems(items, n, x).0) && Follows(code, k, w, p + |CItems(items, n, x).0|, x, epi)
    requires FindItems(items, t, k).Some? && TagAt(x, t) == Some(l)
    ensures Leads(code, q, l, FindItems(items, t, k).value, n', x', w', epi)
    decreases items
  {
    hide At, CStmt, Leads;
    var Cons(h, rest) := items;
    var (ch, n1) := CStmt(h, n, x);
    AtSplit(code, p, ch, CItems(rest, n1, x).0);
    if Find(h, t, KItems(rest, k)).Some? {
      q, n', x', w' := FindAt(code, h, t, KItems(rest, k), p, n, x, Here(0, 0, n1, x, w), epi, l);
    } else {
      q, n', x', w' := FindItemsAt(code, rest, t, k, p + |ch|, n1, x, w, epi, l);
    }
  }

  /** The search finds exactly the labels the switch collects. */
  lemma {:induction false} FindCases(s: Stmt, v: int, k: Kont)
    ensures Find(s, TCase(v), k).Some? <==> v in Cases(s)
    ensures Find(s, TDefault, k).Some? <==> Defaults(s) > 0
    decreases s
  {
    match s
    case Case(_, b) => FindCases(b, v, k);
    case Default(b) => FindCases(b, v, k);
    case Block(items) => FindCasesItems(items, v, k);
    case If(_, a, b) =>
      FindCases(a, v, KIf(k));
      if b.Some? { FindCases(b.value, v, KIf(k)); }
    case While(c, b) => FindCases(b, v, KWhile(c, b, k));
    case Do(b, c) => FindCases(b, v, KDo(b, c, k));
    case For(_, c, i, b) => FindCases(b, v, KForStep(c, i, b, k));
    case _ =>
  }

  lemma {:induction false} FindCasesItems(items: Items, v: int, k: Kont)
    ensures FindItems(items, TCase(v), k).Some? <==> v in CasesOf(items)
    ensures FindItems(items, TDefault, k).Some? <==> DefaultsOf(items) > 0
    decreases items
  {
    match items
    case Nil =>
    case Cons(h, t) =>
      FindCases(h, v, KItems(t, k));
      FindCasesItems(t, v, k);
  }
}
