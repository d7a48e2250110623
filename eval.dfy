/**
 * The tree-walking evaluator: a post-order walk over C longs that reports
 * division by zero through an explicit status instead of a sentinel value.
 */
module Eval {
  import opened Ast

  /** EvalStatus. Overflow is reserved by the source and never produced. */
  datatype EvalStatus = Ok | DivZero | Overflow | Internal

  /** EvalResult: the value is meaningful only when the status is Ok. */
  datatype EvalResult = EvalResult(value: int, status: EvalStatus)

  function Abs(x: int): nat
  {
    if x < 0 then -x else x
  }

  /**
   * C's `/` on signed integers: the quotient truncated toward zero, so the
   * remainder a - q * b is smaller than b in magnitude and carries the sign
   * of a (Dafny's own `/` rounds so that the remainder is never negative).
   */
  function TruncDiv(a: int, b: int): (q: int)
    requires b != 0
    ensures Abs(a - q * b) < Abs(b)
    ensures a - q * b == 0 || (a - q * b < 0 <==> a < 0)
  {
    var q0 := Abs(a) / Abs(b);
    var q := if (a < 0) == (b < 0) then q0 else -q0;
    TruncRemainder(a, b, q0, q);
    q
  }

  /** q * b is q0 * |b| up to sign, and a is |a| up to the same sign, so the remainder is |a| % |b| up to sign. */
  lemma TruncRemainder(a: int, b: int, q0: int, q: int)
    requires b != 0 && q0 == Abs(a) / Abs(b)
    requires q == if (a < 0) == (b < 0) then q0 else -q0
    ensures a - q * b == if a < 0 then -(Abs(a) % Abs(b)) else Abs(a) % Abs(b)
  {
    var n: int, d: int := Abs(a), Abs(b);
    assert n == q0 * d + n % d;
    assert q * b == if a < 0 then -(q0 * d) else q0 * d by {
      if b < 0 {
        assert b == -d;
        if a < 0 {
          assert q * b == q0 * (-d);
        } else {
          assert q * b == (-q0) * (-d);
        }
      } else if a < 0 {
        assert q * b == (-q0) * d;
      }
    }
  }

  /** The two roundings differ on negative operands: -7 / 2 is -3 in C and -4 in Dafny. */
  lemma TruncationDiffersFromEuclid()
    ensures TruncDiv(-7, 2) == -3 && -7 / 2 == -4
  {
  }

  /** eval: numbers evaluate to themselves; an error in either child is passed up with value 0. */
  function Evaluate(e: Expr): (r: EvalResult)
    ensures r.status != Ok ==> r == EvalResult(0, DivZero)
  {
    match e
    case Number(v) => EvalResult(v, Ok)
    case Binary(op, l, r) =>
      var lhs := Evaluate(l);
      if lhs.status != Ok then EvalResult(0, lhs.status)
      else
        var rhs := Evaluate(r);
        if rhs.status != Ok then EvalResult(0, rhs.status)
        else
          match op
          case OpAdd => EvalResult(lhs.value + rhs.value, Ok)
          case OpSub => EvalResult(lhs.value - rhs.value, Ok)
          case OpMul => EvalResult(lhs.value * rhs.value, Ok)
          case OpDiv =>
            if rhs.value == 0 then EvalResult(0, DivZero)
            else EvalResult(TruncDiv(lhs.value, rhs.value), Ok)
  }

  /** Reference semantics: an expression is defined unless some divisor denotes zero. */
  predicate Defined(e: Expr)
    decreases e, 0
  {
    match e
    case Number(_) => true
    case Binary(op, l, r) => Defined(l) && Defined(r) && (op.OpDiv? ==> Denote(r) != 0)
  }

  /** Reference semantics: the integer a defined expression stands for, with C division. */
  function Denote(e: Expr): int
    requires Defined(e)
    decreases e, 1
  {
    match e
    case Number(v) => v
    case Binary(op, l, r) =>
      match op
      case OpAdd => Denote(l) + Denote(r)
      case OpSub => Denote(l) - Denote(r)
      case OpMul => Denote(l) * Denote(r)
      case OpDiv => TruncDiv(Denote(l), Denote(r))
  }

  /**
   * eval succeeds exactly on the expressions with no zero divisor, and then
   * returns their value; every failure is a division by zero.
   */
  lemma {:induction false} EvaluateMatchesDenote(e: Expr)
    ensures Evaluate(e).status == Ok <==> Defined(e)
    ensures Defined(e) ==> Evaluate(e).value == Denote(e)
  {
    match e
    case Number(_) =>
    case Binary(_, l, r) =>
      EvaluateMatchesDenote(l);
      EvaluateMatchesDenote(r);
  }

  /** An expression without division never fails. */
  lemma {:induction false} DivisionFreeIsDefined(e: Expr)
    requires DivisionFree(e)
    ensures Defined(e)
  {
    match e
    case Number(_) =>
    case Binary(_, l, r) =>
      DivisionFreeIsDefined(l);
      DivisionFreeIsDefined(r);
  }

  /** The left child is evaluated first: its failure is the node's failure, whatever the right child holds. */
  lemma LeftErrorShortCircuits(op: BinaryOp, l: Expr, r: Expr)
    requires Evaluate(l).status != Ok
    ensures Evaluate(Binary(op, l, r)) == Evaluate(l)
  {
  }

  /** A divisor that evaluates to 0 makes the division fail with DivZero. */
  lemma ZeroDivisorFails(l: Expr, r: Expr)
    requires Evaluate(l).status == Ok && Evaluate(r) == EvalResult(0, Ok)
    ensures Evaluate(Binary(OpDiv, l, r)) == EvalResult(0, DivZero)
  {
  }
}
