/**
 * The code generator: a post-order walk of the AST that appends IR to a
 * program, giving every leaf a fresh register from a counter that only
 * grows, and leaving each operator's result in its left operand's register.
 */
module Codegen {
  import opened Ast
  import IR
  import Util

  /** ast_op_to_ir: each AST operator becomes an IR arithmetic opcode. */
  function OpToIR(op: BinaryOp): (r: IR.Opcode)
    ensures r.Add? || r.Sub? || r.Mul? || r.Div?
  {
    match op
    case OpAdd => IR.Add
    case OpSub => IR.Sub
    case OpMul => IR.Mul
    case OpDiv => IR.Div
  }

  /** The opcode an operator becomes is the one of the same name. */
  lemma OpToIRNames(op: BinaryOp)
    ensures IR.OpcodeName(OpToIR(op)) == match op
                                         case OpAdd => "ADD"
                                         case OpSub => "SUB"
                                         case OpMul => "MUL"
                                         case OpDiv => "DIV"
  {
  }

  /** Different operators become different opcodes. */
  lemma OpToIRInjective(a: BinaryOp, b: BinaryOp)
    ensures OpToIR(a) == OpToIR(b) ==> a == b
  {
  }

  /** The LOAD_CONST a leaf compiles to: R[reg] = value, src, target and addr zeroed. */
  function LoadConstInstr(reg: int, value: int): IR.Instr
  {
    IR.Instr(IR.LoadConst, reg, 0, value, 0, 0)
  }

  /** The instruction an operator compiles to: dst = left register, src = right register. */
  function OpInstr(op: BinaryOp, left: int, right: int): IR.Instr
  {
    IR.Instr(OpToIR(op), left, right, 0, 0, 0)
  }

  /**
   * The instructions codegen_expr appends for e when the next free register
   * is base: the left operand's code, then the right operand's (whose
   * registers start after the left's leaves), then the operator. One
   * instruction per node.
   */
  function Compile(e: Expr, base: int): (code: seq<IR.Instr>)
    ensures |code| == Size(e)
  {
    match e
    case Number(v) => [LoadConstInstr(base, v)]
    case Binary(op, l, r) =>
      Compile(l, base) + Compile(r, base + Leaves(l)) + [OpInstr(op, base, base + Leaves(l))]
  }

  /** Every instruction of code writes a register in lo .. hi - 1. */
  predicate WritesWithin(code: seq<IR.Instr>, lo: int, hi: int)
  {
    forall i :: 0 <= i < |code| ==> lo <= code[i].dst < hi
  }

  /** Every operator of code reads a register above the one it writes and below hi. */
  predicate ReadsAbove(code: seq<IR.Instr>, hi: int)
  {
    forall i :: 0 <= i < |code| && !code[i].op.LoadConst? ==> code[i].dst < code[i].src < hi
  }

  lemma RegistersAppend(a: seq<IR.Instr>, b: seq<IR.Instr>, lo: int, hi: int)
    requires WritesWithin(a, lo, hi) && WritesWithin(b, lo, hi)
    requires ReadsAbove(a, hi) && ReadsAbove(b, hi)
    ensures WritesWithin(a + b, lo, hi) && ReadsAbove(a + b, hi)
  {
    forall i | |a| <= i < |a + b|
      ensures (a + b)[i] == b[i - |a|]
    {
    }
  }

  lemma RegistersWiden(a: seq<IR.Instr>, lo: int, hi: int, lo': int, hi': int)
    requires WritesWithin(a, lo, hi) && ReadsAbove(a, hi) && lo' <= lo && hi <= hi'
    ensures WritesWithin(a, lo', hi') && ReadsAbove(a, hi')
  {
  }

  /**
   * Registers: every instruction writes a register in base .. base + Leaves(e) - 1,
   * an operator reads a register above the one it writes, and the last
   * instruction writes base, the register codegen_expr returns.
   */
  lemma {:induction false} CompileRegisters(e: Expr, base: int)
    ensures WritesWithin(Compile(e, base), base, base + Leaves(e))
    ensures ReadsAbove(Compile(e, base), base + Leaves(e))
    ensures Compile(e, base)[Size(e) - 1].dst == base
  {
    match e
    case Number(_) =>
    case Binary(op, l, r) =>
      var bl, top := base + Leaves(l), base + Leaves(e);
      var cl, cr, last := Compile(l, base), Compile(r, bl), [OpInstr(op, base, bl)];
      assert Compile(e, base) == cl + cr + last;
      assert WritesWithin(cl + cr, base, top) && ReadsAbove(cl + cr, top) by {
        CompileRegisters(l, base);
        CompileRegisters(r, bl);
        RegistersWiden(cl, base, bl, base, top);
        RegistersWiden(cr, bl, top, base, top);
        RegistersAppend(cl, cr, base, top);
      }
      RegistersAppend(cl + cr, last, base, top);
  }

  /** How many LOAD_CONST instructions code holds. */
  function LoadCount(code: seq<IR.Instr>): (n: nat)
    ensures n <= |code|
  {
    if code == [] then 0
    else (if code[0].op.LoadConst? then 1 else 0) + LoadCount(code[1..])
  }

  lemma {:induction false} LoadCountAppend(a: seq<IR.Instr>, b: seq<IR.Instr>)
    ensures LoadCount(a + b) == LoadCount(a) + LoadCount(b)
  {
    if a == [] {
      assert a + b == b;
    } else {
      assert (a + b)[1..] == a[1..] + b;
      LoadCountAppend(a[1..], b);
    }
  }

  /** The program loads one constant per leaf; the other Leaves(e) - 1 instructions are operators. */
  lemma {:induction false} CompileLoads(e: Expr, base: int)
    ensures LoadCount(Compile(e, base)) == Leaves(e)
  {
    match e
    case Number(_) =>
      assert Compile(e, base)[1..] == [];
    case Binary(op, l, r) =>
      var cl, cr := Compile(l, base), Compile(r, base + Leaves(l));
      var last := [OpInstr(op, base, base + Leaves(l))];
      assert Compile(e, base) == cl + cr + last;
      CompileLoads(l, base);
      CompileLoads(r, base + Leaves(l));
      LoadCountAppend(cl, cr);
      LoadCountAppend(cl + cr, last);
      assert last[1..] == [];
      assert LoadCount(last) == 0;
  }

  /** Codegen: the program it appends to and the next free register. */
  class Codegen {
    const prog: IR.Program
    var nextReg: int

    /** codegen_init: bound to prog, allocating from R0. */
    constructor Init(p: IR.Program)
      ensures prog == p && nextReg == 0
    {
      prog := p;
      nextReg := 0;
    }

    /** alloc_reg: returns the next free register and advances the counter. */
    method AllocReg() returns (reg: int)
      modifies this
      ensures reg == old(nextReg) && nextReg == old(nextReg) + 1
    {
      reg := nextReg;
      nextReg := nextReg + 1;
    }

    /**
     * codegen_expr: appends Compile(e, next_reg) to the program, consumes one
     * register per leaf, and returns the register that holds e's value, the
     * first one it allocated.
     */
    method CodegenExpr(e: Expr) returns (reg: int)
      requires prog.Valid() && prog.capacity > 0
      modifies this, prog, prog.data
      ensures prog.Valid() && prog.capacity > 0
      ensures prog.data == old(prog.data) || fresh(prog.data)
      ensures prog.Contents() == old(prog.Contents()) + Compile(e, old(nextReg))
      ensures nextReg == old(nextReg) + Leaves(e)
      ensures reg == old(nextReg)
      decreases e, 1
    {
      match e
      case Number(v) =>
        reg := AllocReg();
        prog.Append(LoadConstInstr(reg, v));
      case Binary(op, l, r) =>
        reg := CodegenBinary(op, l, r);
    }

    /**
     * The binary case of codegen_expr: left operand, right operand, then
     * the operator with dst = left register and src = right register.
     */
    method CodegenBinary(op: BinaryOp, l: Expr, r: Expr) returns (reg: int)
      requires prog.Valid() && prog.capacity > 0
      modifies this, prog, prog.data
      ensures prog.Valid() && prog.capacity > 0
      ensures prog.data == old(prog.data) || fresh(prog.data)
      ensures prog.Contents() == old(prog.Contents()) + Compile(Binary(op, l, r), old(nextReg))
      ensures nextReg == old(nextReg) + Leaves(Binary(op, l, r))
      ensures reg == old(nextReg)
      decreases Binary(op, l, r), 0
    {
      ghost var before := prog.Contents();
      var leftReg := CodegenExpr(l);
      var rightReg := CodegenExpr(r);
      ghost var afterRight := prog.Contents();
      var ins := OpInstr(op, leftReg, rightReg);
      prog.Append(ins);
      reg := leftReg;
      Util.Regroup(before, Compile(l, leftReg), Compile(r, rightReg), [ins]);
    }
  }
}
