/**
 * The whole pipeline the driver runs on one expression: the AST is compiled
 * to IR and executed on the CPU, and the CPU's answer is compared with the
 * evaluator's at the 32-bit level. WordValue is what the compiled code
 * computes, stated on the tree; the lemmas below prove that the CPU run of
 * the generated program delivers it, and that it agrees with the evaluator
 * whenever the expression has no division.
 */
module Pipeline {
  import opened Util
  import opened Alu
  import opened Ast
  import Eval
  import IR
  import opened Cpu
  import opened Codegen

  /**
   * The 32-bit value of e as the register machine computes it: constants
   * truncated to 32 bits, each operator through the ALU (division unsigned),
   * left operand before right, and None once a divisor is zero.
   */
  function WordValue(e: Expr): (r: Option<Word>)
    ensures DivisionFree(e) ==> r.Some?
  {
    match e
    case Number(v) => Some(Wrap(v))
    case Binary(op, l, r) =>
      var a, b := WordValue(l), WordValue(r);
      if a.None? || b.None? || (op.OpDiv? && b.value == 0) then None
      else Some(Arith(OpToIR(op), a.value, b.value).value)
  }

  /** seg occupies code[pc .. pc + |seg|]. */
  predicate At(code: seq<IR.Instr>, pc: nat, seg: seq<IR.Instr>)
  {
    pc + |seg| <= |code| && forall i :: 0 <= i < |seg| ==> code[pc + i] == seg[i]
  }

  lemma AtSplit(code: seq<IR.Instr>, pc: nat, a: seq<IR.Instr>, b: seq<IR.Instr>)
    requires At(code, pc, a + b)
    ensures At(code, pc, a) && At(code, pc + |a|, b)
  {
    forall i | 0 <= i < |a|
      ensures code[pc + i] == a[i]
    {
      assert (a + b)[i] == a[i];
    }
    forall i | 0 <= i < |b|
      ensures code[pc + |a| + i] == b[i]
    {
      assert code[pc + (|a| + i)] == (a + b)[|a| + i];
    }
  }

  /**
   * What running the code of one sub-expression does: either it faults on a
   * zero divisor, or after Size(e) steps it has left e's 32-bit value in
   * R[base], made R[base] the result register, kept every register below
   * base and the memory, and moved pc just past the code.
   */
  predicate Computed(e: Expr, base: nat, m: Machine, m': Machine, count: nat)
    requires WordValue(e).Some? && base < MaxRegs && WellFormed(m, count)
  {
    WellFormed(m', count) && m'.pc == m.pc + Size(e) &&
    m'.regs[base] == WordValue(e).value && m'.lastDst == base && m'.mem == m.mem &&
    forall k :: 0 <= k < base ==> m'.regs[k] == m.regs[k]
  }

  /** The outcome of the dispatch loop from m after steps dispatches, for any machine. */
  function RunFrom(code: seq<IR.Instr>, m: Machine, steps: nat): Outcome
  {
    if WellFormed(m, |code|) && steps <= MaxSteps then Run(code, m, steps) else Halted(m)
  }

  /** From machine m at step count steps the run goes on exactly as from m' at steps'. */
  predicate Leads(code: seq<IR.Instr>, m: Machine, steps: nat, m': Machine, steps': nat)
  {
    RunFrom(code, m, steps) == RunFrom(code, m', steps')
  }

  /** From machine m at step count steps the run faults on a zero divisor. */
  predicate DividesByZero(code: seq<IR.Instr>, m: Machine, steps: nat)
  {
    RunFrom(code, m, steps).Faulted? && RunFrom(code, m, steps).fault == DivisionByZero
  }

  lemma LeadsTrans(code: seq<IR.Instr>, m: Machine, s: nat, m1: Machine, s1: nat, m2: Machine, s2: nat)
    requires Leads(code, m, s, m1, s1) && Leads(code, m1, s1, m2, s2)
    ensures Leads(code, m, s, m2, s2)
  {
  }

  lemma LeadsToFault(code: seq<IR.Instr>, m: Machine, s: nat, m1: Machine, s1: nat)
    requires Leads(code, m, s, m1, s1) && DividesByZero(code, m1, s1)
    ensures DividesByZero(code, m, s)
  {
  }

  lemma LeafSegment(code: seq<IR.Instr>, v: int, base: nat, m: Machine, steps: nat)
    returns (m': Machine, steps': nat)
    requires WellFormed(m, |code|) && At(code, m.pc, Compile(Number(v), base))
    requires base < MaxRegs && steps < MaxSteps
    ensures steps' == steps + 1
    ensures Computed(Number(v), base, m, m', |code|) && Leads(code, m, steps, m', steps')
  {
    assert code[m.pc + 0] == Compile(Number(v), base)[0];
    RunLoadConst(code, m, steps);
    m', steps' := m.(regs := m.regs[base := Wrap(v)], lastDst := base, pc := m.pc + 1), steps + 1;
  }

  /** The operator at the end of a binary node's code, once both operands are in registers. */
  lemma OperatorStep(code: seq<IR.Instr>, op: BinaryOp, a: Word, b: Word, base: nat, right: nat,
                     m: Machine, steps: nat) returns (m': Machine, steps': nat)
    requires WellFormed(m, |code|) && m.pc < |code| && code[m.pc] == OpInstr(op, base, right)
    requires base < right < MaxRegs && steps < MaxSteps
    requires m.regs[base] == a && m.regs[right] == b
    ensures steps' == steps + 1
    ensures op.OpDiv? && b == 0 ==> DividesByZero(code, m, steps)
    ensures !(op.OpDiv? && b == 0) ==>
              WellFormed(m', |code|) && m'.pc == m.pc + 1 && m'.lastDst == base && m'.mem == m.mem &&
              m'.regs == m.regs[base := Arith(OpToIR(op), a, b).value] &&
              Leads(code, m, steps, m', steps')
  {
    m', steps' := m, steps + 1;
    if op.OpDiv? && b == 0 {
      RunUnfold(code, m, steps);
      assert Step(code, m) == Trap(DivisionByZero);
    } else {
      RunArith(code, m, steps);
      var res := Arith(OpToIR(op), a, b);
      m' := m.(regs := m.regs[base := res.value], flags := res.flags, lastDst := base, pc := m.pc + 1);
    }
  }

  /**
   * Running the code Compile(e, base) from wherever it sits in a program:
   * a zero divisor faults with DivisionByZero, otherwise the run reaches
   * the end of the code, Size(e) steps later, having computed WordValue(e)
   * into R[base].
   */
  lemma {:induction false} RunSegment(code: seq<IR.Instr>, e: Expr, base: nat, m: Machine, steps: nat)
    returns (m': Machine, steps': nat)
    requires WellFormed(m, |code|) && At(code, m.pc, Compile(e, base))
    requires base + Leaves(e) <= MaxRegs && steps + Size(e) <= MaxSteps
    ensures steps' == steps + Size(e)
    ensures WordValue(e).None? ==> DividesByZero(code, m, steps)
    ensures WordValue(e).Some? ==> Computed(e, base, m, m', |code|) && Leads(code, m, steps, m', steps')
    decreases e, 2
  {
    match e
    case Number(v) =>
      m', steps' := LeafSegment(code, v, base, m, steps);
    case Binary(op, l, r) =>
      m', steps' := BinarySegment(code, op, l, r, base, m, steps);
  }

  /** RunSegment for a binary node: both operands' code, then the operator. */
  lemma {:induction false} BinarySegment(code: seq<IR.Instr>, op: BinaryOp, l: Expr, r: Expr, base: nat,
                                         m: Machine, steps: nat) returns (m': Machine, steps': nat)
    requires WellFormed(m, |code|) && At(code, m.pc, Compile(Binary(op, l, r), base))
    requires base + Leaves(Binary(op, l, r)) <= MaxRegs && steps + Size(Binary(op, l, r)) <= MaxSteps
    ensures steps' == steps + Size(Binary(op, l, r))
    ensures WordValue(Binary(op, l, r)).None? ==> DividesByZero(code, m, steps)
    ensures WordValue(Binary(op, l, r)).Some? ==>
              Computed(Binary(op, l, r), base, m, m', |code|) && Leads(code, m, steps, m', steps')
    decreases Binary(op, l, r), 1
  {
    var right := base + Leaves(l);
    var cl, cr := Compile(l, base), Compile(r, right);
    AtSplit(code, m.pc, cl + cr, [OpInstr(op, base, right)]);
    assert code[m.pc + |cl + cr| + 0] == [OpInstr(op, base, right)][0];
    var m2, s2 := Operands(code, op, l, r, base, m, steps);
    m', steps' := OperatorSegment(code, op, l, r, base, m, steps, m2, s2);
  }

  /**
   * The operator of a binary node, given what running both operands' code
   * did: faults if an operand did or the divisor is zero, otherwise leaves
   * the node's value in R[base].
   */
  lemma OperatorSegment(code: seq<IR.Instr>, op: BinaryOp, l: Expr, r: Expr, base: nat, m: Machine, steps: nat,
                        m2: Machine, s2: nat) returns (m': Machine, steps': nat)
    requires WellFormed(m, |code|) && base + Leaves(Binary(op, l, r)) <= MaxRegs
    requires s2 == steps + Size(l) + Size(r) && s2 < MaxSteps
    requires m.pc + Size(l) + Size(r) < |code| && code[m.pc + Size(l) + Size(r)] == OpInstr(op, base, base + Leaves(l))
    requires WordValue(l).None? || WordValue(r).None? ==> DividesByZero(code, m, steps)
    requires WordValue(l).Some? && WordValue(r).Some? ==>
               WellFormed(m2, |code|) && m2.pc == m.pc + Size(l) + Size(r) && m2.mem == m.mem &&
               m2.regs[base] == WordValue(l).value && m2.regs[base + Leaves(l)] == WordValue(r).value &&
               (forall k :: 0 <= k < base ==> m2.regs[k] == m.regs[k]) &&
               Leads(code, m, steps, m2, s2)
    ensures steps' == steps + Size(Binary(op, l, r))
    ensures WordValue(Binary(op, l, r)).None? ==> DividesByZero(code, m, steps)
    ensures WordValue(Binary(op, l, r)).Some? ==>
              Computed(Binary(op, l, r), base, m, m', |code|) && Leads(code, m, steps, m', steps')
  {
    m', steps' := m, s2 + 1;
    if WordValue(l).Some? && WordValue(r).Some? {
      var a, b := WordValue(l).value, WordValue(r).value;
      var m3, s3 := OperatorStep(code, op, a, b, base, base + Leaves(l), m2, s2);
      m' := m3;
      if op.OpDiv? && b == 0 {
        LeadsToFault(code, m, steps, m2, s2);
      } else {
        LeadsTrans(code, m, steps, m2, s2, m3, s3);
      }
    }
  }

  /**
   * The code of both operands of a binary node, left then right: a zero
   * divisor in either faults, otherwise their values end up in R[base] and
   * R[base + Leaves(l)] with every register below base as it was.
   */
  lemma {:induction false} Operands(code: seq<IR.Instr>, op: BinaryOp, l: Expr, r: Expr, base: nat, m: Machine, steps: nat)
    returns (m2: Machine, s2: nat)
    requires WellFormed(m, |code|) && At(code, m.pc, Compile(l, base) + Compile(r, base + Leaves(l)))
    requires base + Leaves(l) + Leaves(r) <= MaxRegs && steps + Size(l) + Size(r) < MaxSteps
    ensures s2 == steps + Size(l) + Size(r)
    ensures WordValue(l).None? || WordValue(r).None? ==> DividesByZero(code, m, steps)
    ensures WordValue(l).Some? && WordValue(r).Some? ==>
              WellFormed(m2, |code|) && m2.pc == m.pc + Size(l) + Size(r) && m2.mem == m.mem &&
              m2.regs[base] == WordValue(l).value && m2.regs[base + Leaves(l)] == WordValue(r).value &&
              (forall k :: 0 <= k < base ==> m2.regs[k] == m.regs[k]) &&
              Leads(code, m, steps, m2, s2)
    decreases Binary(op, l, r), 0
  {
    var right := base + Leaves(l);
    AtSplit(code, m.pc, Compile(l, base), Compile(r, right));
    m2, s2 := m, steps + Size(l) + Size(r);
    var m1, s1 := RunSegment(code, l, base, m, steps);
    if WordValue(l).None? {
      return;
    }
    var m2', s2' := RunSegment(code, r, right, m1, s1);
    if WordValue(r).None? {
      LeadsToFault(code, m, steps, m1, s1);
      return;
    }
    LeadsTrans(code, m, steps, m1, s1, m2', s2');
    m2, s2 := m2', s2';
  }

  /**
   * The generated program for an expression of at most 32 leaves, run on a
   * fresh CPU: it reports WordValue(e) read as a signed 32-bit value, or
   * fails with DivisionByZero when WordValue has none. The result register
   * is R0, the one codegen_expr returns for the root.
   */
  lemma CompiledProgramResult(e: Expr, mem: Option<seq<Mem.Byte>>)
    requires Leaves(e) <= MaxRegs
    requires mem.Some? ==> |mem.value| == Mem.MemSize
    ensures var r := Report(Exec(Compile(e, 0), mem));
            if WordValue(e).Some? then r == Success(ToSigned(WordValue(e).value))
            else r == Failure(DivisionByZero)
  {
    var code := Compile(e, 0);
    var m := Initial(mem);
    assert At(code, 0, code);
    SizeLeaves(e);
    var m', steps := RunSegment(code, e, 0, m, 0);
    if WordValue(e).Some? {
      RunUnfold(code, m', steps);
    }
  }

  /** Without division, the 32-bit value is the evaluator's value truncated to 32 bits. */
  lemma {:induction false} WordValueOfDivisionFree(e: Expr)
    requires DivisionFree(e)
    ensures Eval.Defined(e) && WordValue(e) == Some(Wrap(Eval.Denote(e)))
  {
    Eval.DivisionFreeIsDefined(e);
    match e
    case Number(_) =>
    case Binary(op, l, r) =>
      WordValueOfDivisionFree(l);
      WordValueOfDivisionFree(r);
      var x, y := Eval.Denote(l), Eval.Denote(r);
      match op
      case OpAdd => WrapAdd(x, y);
      case OpSub => WrapSub(x, y);
      case OpMul => WrapMul(x, y);
  }

  /**
   * The driver's cross-check, proved for division-free expressions of at
   * most 32 leaves: eval succeeds, the CPU run of the generated code
   * succeeds, and the two results agree modulo 2^32.
   */
  lemma CrossCheckHolds(e: Expr)
    requires DivisionFree(e) && Leaves(e) <= MaxRegs
    ensures Eval.Evaluate(e).status == Eval.Ok
    ensures var r := Report(Exec(Compile(e, 0), None));
            r.Success? && Wrap(r.value) == Wrap(Eval.Evaluate(e).value)
  {
    WordValueOfDivisionFree(e);
    Eval.EvaluateMatchesDenote(e);
    CompiledProgramResult(e, None);
    WrapToSigned(Wrap(Eval.Denote(e)));
  }

  /**
   * Division is where the two sides part: the CPU divides unsigned 32-bit
   * words, eval truncates signed integers. For (1 - 3) / 2, eval gives -1
   * while the CPU divides 0xFFFFFFFE by 2 and reports 0x7FFFFFFF, so the
   * cross-check fails on this input.
   */
  lemma DivisionCrossCheckFails()
    ensures var e := Binary(OpDiv, Binary(OpSub, Number(1), Number(3)), Number(2));
            Eval.Evaluate(e) == Eval.EvalResult(-1, Eval.Ok) &&
            Report(Exec(Compile(e, 0), None)) == Success(0x7FFF_FFFF) &&
            Wrap(0x7FFF_FFFF) != Wrap(-1)
  {
    var e := Binary(OpDiv, Binary(OpSub, Number(1), Number(3)), Number(2));
    assert Wrap(1) == 1 && Wrap(3) == 3 && Wrap(2) == 2;
    DivModUnique(1 - 3, WordModulus, -1, 0xFFFF_FFFE);
    assert SubSpec(1, 3).value == 0xFFFF_FFFE;
    assert Div(0xFFFF_FFFE, 2).value == 0x7FFF_FFFF;
    assert WordValue(e) == Some(0x7FFF_FFFF);
    CompiledProgramResult(e, None);
    DivModUnique(-1, WordModulus, -1, 0xFFFF_FFFF);
  }

  /**
   * Steps 5 and 6 of the driver: a fresh IR program, a code generator bound
   * to it, the AST compiled into it, and the program run on a CPU with no
   * memory attached. The status and result are those of the generated code.
   */
  method CompileAndExecute(e: Expr) returns (r: Result<int, Fault>)
    ensures r == Report(Exec(Compile(e, 0), None))
  {
    var prog := new IR.Program.Init();
    var cg := new Codegen.Init(prog);
    var reg := cg.CodegenExpr(e);
    assert prog.Contents() == Compile(e, 0);
    assert View(null) == None;
    r := Execute(prog, null);
  }
}
