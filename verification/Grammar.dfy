/** The binary operators of C as ISO/IEC 9899:1999 writes them, sections 6.5.5 to 6.5.14: ten productions, each over the
    one before. No numbers: what they say is compared with the table src/C99/Parser.hs climbs by. */
module Grammar {
  datatype Op =
    | LOr | LAnd | BOr | BXor | BAnd | Eq | Ne | Lt | Gt | Le | Ge | Shl | Shr | Add | Sub | Mul | Div | Mod

  /** An operand, or an operator over two trees. */
  datatype Tree = Leaf(x: nat) | Bin(op: Op, l: Tree, r: Tree)

  /** What follows the first operand: operators, each with its right operand. */
  type Tail = seq<(Op, nat)>

  function First(t: Tree): nat { if t.Leaf? then t.x else First(t.l) }

  /** The operators of a tree from left to right, each with the operand after it. */
  function Yield(t: Tree): Tail { if t.Leaf? then [] else Yield(t.l) + [(t.op, First(t.r))] + Yield(t.r) }

  /** An operand, or a multiplicative expression, one of * / %, and an operand. */
  predicate Multiplicative(t: Tree) {
    t.Leaf? || (t.op in {Op.Mul, Op.Div, Op.Mod} && Multiplicative(t.l) && t.r.Leaf?)
  }

  predicate Additive(t: Tree) {
    Multiplicative(t) || (t.Bin? && t.op in {Op.Add, Op.Sub} && Additive(t.l) && Multiplicative(t.r))
  }

  predicate Shift(t: Tree) {
    Additive(t) || (t.Bin? && t.op in {Op.Shl, Op.Shr} && Shift(t.l) && Additive(t.r))
  }

  predicate Relational(t: Tree) {
    Shift(t) || (t.Bin? && t.op in {Op.Lt, Op.Gt, Op.Le, Op.Ge} && Relational(t.l) && Shift(t.r))
  }

  predicate Equality(t: Tree) {
    Relational(t) || (t.Bin? && t.op in {Op.Eq, Op.Ne} && Equality(t.l) && Relational(t.r))
  }

  predicate BitwiseAnd(t: Tree) {
    Equality(t) || (t.Bin? && t.op == Op.BAnd && BitwiseAnd(t.l) && Equality(t.r))
  }

  predicate ExclusiveOr(t: Tree) {
    BitwiseAnd(t) || (t.Bin? && t.op == Op.BXor && ExclusiveOr(t.l) && BitwiseAnd(t.r))
  }

  predicate InclusiveOr(t: Tree) {
    ExclusiveOr(t) || (t.Bin? && t.op == Op.BOr && InclusiveOr(t.l) && ExclusiveOr(t.r))
  }

  predicate LogicalAnd(t: Tree) {
    InclusiveOr(t) || (t.Bin? && t.op == Op.LAnd && LogicalAnd(t.l) && InclusiveOr(t.r))
  }

  predicate LogicalOr(t: Tree) {
    LogicalAnd(t) || (t.Bin? && t.op == Op.LOr && LogicalOr(t.l) && LogicalAnd(t.r))
  }

  /** t is the derivation of the operand first and the operators and operands after it. */
  predicate Derives(first: nat, tail: Tail, t: Tree) { LogicalOr(t) && First(t) == first && Yield(t) == tail }
}
