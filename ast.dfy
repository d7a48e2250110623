/**
 * The abstract syntax tree the parser builds and both the evaluator and the
 * code generator walk: a number leaf or a binary operator node.
 */
module Ast {

  /** The operator tag of a binary node. */
  datatype BinaryOp = OpAdd | OpSub | OpMul | OpDiv

  /**
   * A tree node. A leaf holds a C long; the lexer only ever produces values
   * in [0, LONG_MAX], but the tree itself places no bound on them.
   */
  datatype Expr =
    | Number(value: int)
    | Binary(op: BinaryOp, left: Expr, right: Expr)

  predicate IsAdditive(op: BinaryOp)
  {
    op.OpAdd? || op.OpSub?
  }

  /** The number of leaves: one register each in the generated code. */
  function Leaves(e: Expr): (n: nat)
    ensures n >= 1
  {
    match e
    case Number(_) => 1
    case Binary(_, l, r) => Leaves(l) + Leaves(r)
  }

  /** The number of nodes: one instruction each in the generated code. */
  function Size(e: Expr): (n: nat)
    ensures n >= 1
  {
    match e
    case Number(_) => 1
    case Binary(_, l, r) => Size(l) + Size(r) + 1
  }

  /** A tree whose every inner node has two children has one leaf more than it has inner nodes. */
  lemma {:induction false} SizeLeaves(e: Expr)
    ensures Size(e) == 2 * Leaves(e) - 1
  {
    match e
    case Number(_) =>
    case Binary(_, l, r) =>
      SizeLeaves(l);
      SizeLeaves(r);
  }

  /** Whether the tree contains no division node. */
  predicate DivisionFree(e: Expr)
  {
    match e
    case Number(_) => true
    case Binary(op, l, r) => !op.OpDiv? && DivisionFree(l) && DivisionFree(r)
  }
}
