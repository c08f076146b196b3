/** Precedence climbing, parseBinRhs of src/C99/Parser.hs: operands are what parseUnary reads. */
module Precedence {
  import opened Grammar

  function Prec(op: Op): int {
    match op
    case LOr => 1
    case LAnd => 2
    case BOr => 3
    case BXor => 4
    case BAnd => 5
    case Eq => 6
    case Ne => 6
    case Lt => 7
    case Gt => 7
    case Le => 7
    case Ge => 7
    case Shl => 8
    case Shr => 8
    case Add => 9
    case Sub => 9
    case Mul => 10
    case Div => 10
    case Mod => 10
  }

  /** The precedence of the next operator, or -1. */
  function NextPrec(t: Tail): int { if t == [] then -1 else Prec(t[0].0) }

  /** Left operands bind at least as tightly as their parent, right ones more tightly: section 6.5 of
      ISO/IEC 9899:1999, all binary operators grouping from the left. */
  predicate Proper(t: Tree) {
    t.Bin? ==>
      && Proper(t.l) && Proper(t.r)
      && (t.l.Bin? ==> Prec(t.l.op) >= Prec(t.op))
      && (t.r.Bin? ==> Prec(t.r.op) > Prec(t.op))
  }

  /** How many operators from the front bind at least at p. */
  function Run(t: Tail, p: int): (n: nat)
    ensures n <= |t|
    ensures forall i :: 0 <= i < n ==> Prec(t[i].0) >= p
    ensures n < |t| ==> Prec(t[n].0) < p
  {
    if t == [] || Prec(t[0].0) < p then 0 else 1 + Run(t[1..], p)
  }

  /** From lhs and then was: t takes the longest run of operators at or above min, and rest is left. */
  predicate Groups(lhs: Tree, was: Tail, min: int, t: Tree, rest: Tail) {
    var n := Run(was, min);
    && rest == was[n..]
    && Proper(t) && First(t) == First(lhs) && Yield(t) == Yield(lhs) + was[..n]
    && (t == lhs || (t.Bin? && Prec(t.op) >= min))
  }

  /** What stands before the next operator may become its left operand. */
  predicate Follows(lhs: Tree, next: Tail, min: int) {
    Proper(lhs) && (lhs.Bin? && next != [] && Prec(next[0].0) >= min ==> Prec(lhs.op) >= Prec(next[0].0))
  }

  /** The right operand of the first operator of was: it takes the next taken operators, which bind more tightly. */
  predicate RightOf(was: Tail, rhs: Tree, taken: nat) {
    && 1 + taken <= |was|
    && Proper(rhs) && First(rhs) == was[0].1 && Yield(rhs) == was[1..1 + taken]
    && (rhs.Bin? ==> Prec(rhs.op) > Prec(was[0].0))
    && (forall i :: 1 <= i < 1 + taken ==> Prec(was[i].0) > Prec(was[0].0))
    && (1 + taken < |was| ==> Prec(was[1 + taken].0) <= Prec(was[0].0))
  }

  class Parser {
    var rest: Tail

    constructor (t: Tail)
      ensures rest == t
    {
      rest := t;
    }

    /** Takes the longest run of operators at or above min, and groups it with lhs in front as C does. */
    method ParseBinRhs(lhs: Tree, min: int) returns (t: Tree)
      requires min >= 0 && Follows(lhs, rest, min)
      modifies this
      ensures Groups(lhs, old(rest), min, t, rest)
      decreases |rest|
    {
      hide Groups, Follows, RightOf;
      ghost var was := rest;
      if rest != [] && Prec(rest[0].0) >= min {
        var op := rest[0].0;
        var rhs, taken := RightOperand();
        Grown(lhs, was, min, rhs, taken);
        t := ParseBinRhs(Bin(op, lhs, rhs), min);
        GroupsOn(lhs, was, min, rhs, taken, t, rest);
      } else {
        t := lhs;
        GroupsNone(lhs, was, min);
      }
    }

    /** Past an operator: its right operand, with all that binds more tightly than the operator. */
    method RightOperand() returns (rhs: Tree, ghost taken: nat)
      requires rest != []
      modifies this
      ensures RightOf(old(rest), rhs, taken) && 1 + taken <= |old(rest)| && rest == old(rest)[1 + taken..]
      decreases |rest|, 0
    {
      hide Groups, RightOf;
      ghost var was := rest;
      var prec := Prec(rest[0].0);
      rhs := Leaf(rest[0].1);
      rest := rest[1..];
      taken := 0;
      if NextPrec(rest) > prec {
        taken := Run(rest, prec + 1);
        rhs := ParseBinRhs(rhs, prec + 1);
        TightRun(was, rhs, rest);
      } else {
        NoRun(was);
      }
    }

    /** A whole expression at a given minimum. At 0, as every expression is read, it is the derivation of all the input in
        the grammar of C. */
    method ParseBinary(first: nat, min: int) returns (t: Tree)
      requires min >= 0
      modifies this
      ensures rest == old(rest)[Run(old(rest), min)..]
      ensures Proper(t) && First(t) == first && Yield(t) == old(rest)[..Run(old(rest), min)]
      ensures min == 0 ==> rest == [] && Derives(first, old(rest), t)
    {
      hide LogicalOr;
      t := ParseBinRhs(Leaf(first), min);
      assert Yield(Leaf(first)) == [];
      GrammarIsProper(t);
      RunAll(old(rest));
    }
  }

  lemma GroupsNone(lhs: Tree, was: Tail, min: int)
    requires Follows(lhs, was, min) && (was == [] || Prec(was[0].0) < min)
    ensures Groups(lhs, was, min, lhs, was)
  {
    assert Yield(lhs) + was[..0] == Yield(lhs);
  }

  lemma Grown(lhs: Tree, was: Tail, min: int, rhs: Tree, taken: nat)
    requires was != [] && Prec(was[0].0) >= min && Follows(lhs, was, min) && RightOf(was, rhs, taken)
    ensures Follows(Bin(was[0].0, lhs, rhs), was[1 + taken..], min)
  {}

  lemma GroupsOn(lhs: Tree, was: Tail, min: int, rhs: Tree, taken: nat, t: Tree, rest: Tail)
    requires was != [] && Prec(was[0].0) >= min && RightOf(was, rhs, taken)
    requires Groups(Bin(was[0].0, lhs, rhs), was[1 + taken..], min, t, rest)
    ensures Groups(lhs, was, min, t, rest)
  {
    hide Run, Proper, Yield, RightOf;
    RightFacts(lhs, was, min, rhs, taken);
    var u := was[1 + taken..];
    var m := Run(u, min);
    Cut(was, 1 + taken, m);
    Chain(Yield(t), Yield(Bin(was[0].0, lhs, rhs)), Yield(lhs), was[..1 + taken], u[..m], was[..Run(was, min)]);
  }

  lemma RightFacts(lhs: Tree, was: Tail, min: int, rhs: Tree, taken: nat)
    requires was != [] && Prec(was[0].0) >= min && RightOf(was, rhs, taken)
    ensures 1 + taken <= |was| && Yield(Bin(was[0].0, lhs, rhs)) == Yield(lhs) + was[..1 + taken]
    ensures Run(was, min) == 1 + taken + Run(was[1 + taken..], min)
    ensures First(Bin(was[0].0, lhs, rhs)) == First(lhs)
  {
    hide Run, Proper, Yield;
    GrownYield(lhs, was[0].0, rhs, was, taken);
    Taken(was, min, taken);
  }

  lemma Chain(y: Tail, y1: Tail, y2: Tail, a: Tail, b: Tail, w: Tail)
    requires y == y1 + b && y1 == y2 + a && w == a + b
    ensures y == y2 + w
  {}

  lemma NoRun(was: Tail)
    requires was != [] && NextPrec(was[1..]) <= Prec(was[0].0)
    ensures RightOf(was, Leaf(was[0].1), 0)
  {
    assert Yield(Leaf(was[0].1)) == was[1..1];
  }

  lemma TightRun(was: Tail, rhs: Tree, rest: Tail)
    requires was != [] && NextPrec(was[1..]) > Prec(was[0].0)
    requires Groups(Leaf(was[0].1), was[1..], Prec(was[0].0) + 1, rhs, rest)
    ensures var taken := Run(was[1..], Prec(was[0].0) + 1); RightOf(was, rhs, taken) && rest == was[1 + taken..]
  {
    hide Run, Proper, Yield, Groups, First;
    var x, p := was[0].1, Prec(was[0].0);
    var taken := Run(was[1..], p + 1);
    RunSplits(was, p, taken);
    FromLeaf(x, was[1..], p + 1, rhs, rest);
    Behind(was, taken);
  }

  lemma FromLeaf(x: nat, was: Tail, min: int, t: Tree, rest: Tail)
    requires Groups(Leaf(x), was, min, t, rest)
    ensures rest == was[Run(was, min)..] && Proper(t) && First(t) == x && Yield(t) == was[..Run(was, min)]
    ensures t.Bin? ==> Prec(t.op) >= min
  {
    assert Yield(Leaf(x)) == [] && First(Leaf(x)) == x;
    hide Run, Proper, Yield, First;
    assert [] + was[..Run(was, min)] == was[..Run(was, min)];
  }

  /** After the first operator and the tighter run behind it, the run at min goes on. */
  lemma RunSplits(t: Tail, prec: int, taken: nat)
    requires t != [] && Prec(t[0].0) == prec
    requires taken == if NextPrec(t[1..]) > prec then Run(t[1..], prec + 1) else 0
    ensures 1 + taken <= |t|
    ensures forall i :: 1 <= i < 1 + taken ==> Prec(t[i].0) > prec
    ensures 1 + taken < |t| ==> Prec(t[1 + taken].0) <= prec
  {
    var u := t[1..];
    forall i | 1 <= i < 1 + taken
      ensures Prec(t[i].0) > prec
    {
      assert t[i] == u[i - 1];
    }
    if 1 + taken < |t| { assert t[1 + taken] == u[taken]; }
  }

  lemma GrownYield(lhs: Tree, op: Op, rhs: Tree, t: Tail, taken: nat)
    requires 1 + taken <= |t| && t[0] == (op, First(rhs)) && Yield(rhs) == t[1..1 + taken]
    ensures Yield(Bin(op, lhs, rhs)) == Yield(lhs) + t[..1 + taken]
  {
    assert [t[0]] + t[1..1 + taken] == t[..1 + taken];
    assert Yield(lhs) + [t[0]] + t[1..1 + taken] == Yield(lhs) + ([t[0]] + t[1..1 + taken]);
  }

  lemma {:induction false} RunIs(t: Tail, p: int, n: nat)
    requires n <= |t| && (forall i :: 0 <= i < n ==> Prec(t[i].0) >= p) && (n < |t| ==> Prec(t[n].0) < p)
    ensures Run(t, p) == n
  {
    if n > 0 {
      assert forall i :: 0 <= i < n - 1 ==> t[1..][i] == t[i + 1];
      RunIs(t[1..], p, n - 1);
    }
  }

  lemma Taken(t: Tail, min: int, taken: nat)
    requires 1 + taken <= |t| && forall i :: 0 <= i < 1 + taken ==> Prec(t[i].0) >= min
    ensures Run(t, min) == 1 + taken + Run(t[1 + taken..], min)
  {
    var u := t[1 + taken..];
    var m := Run(u, min);
    forall i | 0 <= i < 1 + taken + m
      ensures Prec(t[i].0) >= min
    {
      if i >= 1 + taken { assert u[i - 1 - taken] == t[i]; }
    }
    if 1 + taken + m < |t| { assert u[m] == t[1 + taken + m]; }
    RunIs(t, min, 1 + taken + m);
  }

  lemma Cut(t: Tail, k: nat, m: nat)
    requires k + m <= |t|
    ensures t[..k + m] == t[..k] + t[k..][..m] && t[k + m..] == t[k..][m..]
  {}

  lemma Behind(t: Tail, k: nat)
    requires 1 + k <= |t|
    ensures t[1..][..k] == t[1..1 + k] && t[1..][k..] == t[1 + k..]
  {}

  // ---- what it has to do with the grammar ----

  /** A proper tree whose operators all bind at least at p. */
  predicate From(t: Tree, p: int) { Proper(t) && (t.Bin? ==> Prec(t.op) >= p) }

  lemma TenIsMost(op: Op)
    ensures Prec(op) <= 10 && (Prec(op) == 10 <==> op in {Op.Mul, Op.Div, Op.Mod})
  {}

  lemma {:induction false} MultiplicativeIs(t: Tree)
    ensures Multiplicative(t) <==> From(t, 10)
  {
    if t.Bin? {
      MultiplicativeIs(t.l);
      TenIsMost(t.op);
      if t.r.Bin? { TenIsMost(t.r.op); } else { assert Proper(t.r); }
    }
  }

  lemma {:induction false} AdditiveIs(t: Tree)
    ensures Additive(t) <==> From(t, 9)
  {
    hide Multiplicative;
    MultiplicativeIs(t);
    if t.Bin? { AdditiveIs(t.l); MultiplicativeIs(t.r); }
  }

  lemma {:induction false} ShiftIs(t: Tree)
    ensures Shift(t) <==> From(t, 8)
  {
    hide Additive;
    AdditiveIs(t);
    if t.Bin? { ShiftIs(t.l); AdditiveIs(t.r); }
  }

  lemma {:induction false} RelationalIs(t: Tree)
    ensures Relational(t) <==> From(t, 7)
  {
    hide Shift;
    ShiftIs(t);
    if t.Bin? { RelationalIs(t.l); ShiftIs(t.r); }
  }

  lemma {:induction false} EqualityIs(t: Tree)
    ensures Equality(t) <==> From(t, 6)
  {
    hide Relational;
    RelationalIs(t);
    if t.Bin? { EqualityIs(t.l); RelationalIs(t.r); }
  }

  lemma {:induction false} BitwiseAndIs(t: Tree)
    ensures BitwiseAnd(t) <==> From(t, 5)
  {
    hide Equality;
    EqualityIs(t);
    if t.Bin? { BitwiseAndIs(t.l); EqualityIs(t.r); }
  }

  lemma {:induction false} ExclusiveOrIs(t: Tree)
    ensures ExclusiveOr(t) <==> From(t, 4)
  {
    hide BitwiseAnd;
    BitwiseAndIs(t);
    if t.Bin? { ExclusiveOrIs(t.l); BitwiseAndIs(t.r); }
  }

  lemma {:induction false} InclusiveOrIs(t: Tree)
    ensures InclusiveOr(t) <==> From(t, 3)
  {
    hide ExclusiveOr;
    ExclusiveOrIs(t);
    if t.Bin? { InclusiveOrIs(t.l); ExclusiveOrIs(t.r); }
  }

  lemma {:induction false} LogicalAndIs(t: Tree)
    ensures LogicalAnd(t) <==> From(t, 2)
  {
    hide InclusiveOr;
    InclusiveOrIs(t);
    if t.Bin? { LogicalAndIs(t.l); InclusiveOrIs(t.r); }
  }

  /** The trees of the ten productions are exactly the proper ones: the table of numbers is the grammar. */
  lemma {:induction false} GrammarIsProper(t: Tree)
    ensures LogicalOr(t) <==> Proper(t)
  {
    hide LogicalAnd;
    LogicalAndIs(t);
    if t.Bin? { GrammarIsProper(t.l); LogicalAndIs(t.r); }
  }

  /** Every operator is at the minimum 0. */
  lemma {:induction false} RunAll(t: Tail)
    ensures Run(t, 0) == |t|
  {
    if t != [] { RunAll(t[1..]); }
  }

  /** The grammar is not ambiguous. */
  lemma OneDerivation(first: nat, tail: Tail, a: Tree, b: Tree)
    requires Derives(first, tail, a) && Derives(first, tail, b)
    ensures a == b
  {
    GrammarIsProper(a);
    GrammarIsProper(b);
    ProperIsUnique(a, b);
  }

  // ---- there is one such tree ----

  /** Every operator of a proper tree binds at least as tightly as its root. */
  lemma {:induction false} RootIsLeast(t: Tree)
    requires Proper(t) && t.Bin?
    ensures forall i :: 0 <= i < |Yield(t)| ==> Prec(Yield(t)[i].0) >= Prec(t.op)
  {
    if t.l.Bin? { RootIsLeast(t.l); }
    if t.r.Bin? { RootIsLeast(t.r); }
    var n := |Yield(t.l)|;
    forall i | 0 <= i < |Yield(t)|
      ensures Prec(Yield(t)[i].0) >= Prec(t.op)
    {
      if i < n {
        assert Yield(t)[i] == Yield(t.l)[i];
      } else if i > n {
        assert Yield(t)[i] == Yield(t.r)[i - n - 1];
      }
    }
  }

  /** The root is the last operator that binds least: all after it bind more tightly. */
  lemma RootIsLast(t: Tree)
    requires Proper(t) && t.Bin?
    ensures forall i :: |Yield(t.l)| < i < |Yield(t)| ==> Prec(Yield(t)[i].0) > Prec(t.op)
  {
    if t.r.Bin? { RootIsLeast(t.r); }
    var n := |Yield(t.l)|;
    forall i | n < i < |Yield(t)|
      ensures Prec(Yield(t)[i].0) > Prec(t.op)
    {
      assert Yield(t)[i] == Yield(t.r)[i - n - 1];
    }
  }

  /** Two proper trees over the same operands and operators are the same tree. */
  lemma {:induction false} ProperIsUnique(a: Tree, b: Tree)
    requires Proper(a) && Proper(b) && First(a) == First(b) && Yield(a) == Yield(b)
    ensures a == b
    decreases a
  {
    if a.Leaf? || b.Leaf? {
      assert |Yield(a)| == 0 && |Yield(b)| == 0;
    } else {
      RootIsLeast(a);
      RootIsLeast(b);
      RootIsLast(a);
      RootIsLast(b);
      var y, m, n := Yield(a), |Yield(a.l)|, |Yield(b.l)|;
      assert y[m] == (a.op, First(a.r)) && Yield(b)[n] == (b.op, First(b.r));
      assert m == n;
      assert Yield(a.l) == y[..m] && Yield(b.l) == Yield(b)[..n];
      assert Yield(a.r) == y[m + 1..] && Yield(b.r) == Yield(b)[n + 1..];
      ProperIsUnique(a.l, b.l);
      ProperIsUnique(a.r, b.r);
    }
  }
}
