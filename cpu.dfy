/**
 * The virtual CPU: 32 word registers, the ALU flags, a program counter and an
 * optional attached memory, driven by a fetch-decode-execute loop over an IR
 * program. Step and Run are the machine's semantics; the method Execute is
 * the dispatch loop itself, proved to compute what Run describes.
 */
module Cpu {
  import opened Util
  import opened Alu
  import Mem
  import IR

  /** CPU_MAX_REGS */
  const MaxRegs: nat := 32
  /** CPU_MAX_STEPS: the infinite-loop guard. */
  const MaxSteps: nat := 1_000_000

  /** Why cpu_execute returned -1. */
  datatype Fault =
    | EmptyProgram
    | StepLimitExceeded
    | RegisterOutOfRange(reg: int)
    | JumpTargetOutOfRange(target: int)
    | DivisionByZero
    | MemoryNotAttached
    | MemoryFault(error: Mem.MemError)

  /**
   * Everything the dispatch loop changes: the register file, the flags, pc,
   * the last register written, and the contents of the attached memory
   * (None when no memory is attached).
   */
  datatype Machine = Machine(regs: seq<Word>, flags: Flags, pc: nat, lastDst: nat,
                             mem: Option<seq<Mem.Byte>>)

  predicate WellFormed(m: Machine, count: nat)
  {
    |m.regs| == MaxRegs && m.lastDst < MaxRegs && m.pc <= count &&
    (m.mem.Some? ==> |m.mem.value| == Mem.MemSize)
  }

  /** The zeroed CPU that cpu_execute starts from, with last_dst = 0. */
  function Initial(mem: Option<seq<Mem.Byte>>): (m: Machine)
  {
    Machine(seq(MaxRegs, _ => 0), ClearFlags, 0, 0, mem)
  }

  /** check_reg: a register operand names one of R0 .. R31. */
  predicate ValidReg(r: int)
  {
    0 <= r < MaxRegs
  }

  /** check_target: a jump lands on an instruction or just past the last one. */
  predicate ValidTarget(target: int, count: nat)
  {
    0 <= target <= count
  }

  /** The register operands an opcode checks, in the order it checks them. */
  function Operands(ins: IR.Instr): seq<int>
  {
    match ins.op
    case LoadConst => [ins.dst]
    case Add => [ins.dst, ins.src]
    case Sub => [ins.dst, ins.src]
    case Mul => [ins.dst, ins.src]
    case Div => [ins.dst, ins.src]
    case Cmp => [ins.dst, ins.src]
    case Jmp => []
    case Jz => []
    case Jnz => []
    case Load => [ins.dst, ins.addr]
    case Store => [ins.src, ins.addr]
  }

  predicate IsJump(op: IR.Opcode)
  {
    op.Jmp? || op.Jz? || op.Jnz?
  }

  /** The opcodes that go through the ALU and so replace the flags. */
  predicate SetsFlags(op: IR.Opcode)
  {
    op.Add? || op.Sub? || op.Mul? || op.Div? || op.Cmp?
  }

  /** The opcodes that write R[dst] and make it the result register. */
  predicate WritesRegister(op: IR.Opcode)
  {
    op.LoadConst? || op.Add? || op.Sub? || op.Mul? || op.Div? || op.Load?
  }

  predicate IsArith(op: IR.Opcode)
  {
    op.Add? || op.Sub? || op.Mul? || op.Div?
  }

  /** The ALU operation behind ADD, SUB, MUL and DIV. */
  function Arith(op: IR.Opcode, a: Word, b: Word): AluResult
    requires IsArith(op) && (op.Div? ==> b != 0)
  {
    if op.Add? then AddSpec(a, b)
    else if op.Sub? then SubSpec(a, b)
    else if op.Mul? then Mul(a, b)
    else Div(a, b)
  }

  datatype StepResult = Next(next: Machine) | Trap(fault: Fault)

  /** A jump to target, refused when target is out of range. */
  function Jump(code: seq<IR.Instr>, m: Machine, target: int): (r: StepResult)
  {
    if ValidTarget(target, |code|) then Next(m.(pc := target))
    else Trap(JumpTargetOutOfRange(target))
  }

  /**
   * One iteration of the dispatch loop (after the step-limit check): the
   * instruction at pc either traps, leaving the machine as it was, or yields
   * the next machine.
   */
  function Step(code: seq<IR.Instr>, m: Machine): (r: StepResult)
    requires WellFormed(m, |code|) && m.pc < |code|
    ensures r.Next? ==> WellFormed(r.next, |code|)
    ensures r.Next? && !IsJump(code[m.pc].op) ==> r.next.pc == m.pc + 1
    ensures r.Next? && !SetsFlags(code[m.pc].op) ==> r.next.flags == m.flags
    ensures r.Next? && !WritesRegister(code[m.pc].op) ==> r.next.regs == m.regs && r.next.lastDst == m.lastDst
    ensures r.Next? && !code[m.pc].op.Store? ==> r.next.mem == m.mem
  {
    var ins := code[m.pc];
    match ins.op
    case LoadConst =>
      if !ValidReg(ins.dst) then Trap(RegisterOutOfRange(ins.dst))
      else Next(m.(regs := m.regs[ins.dst := Wrap(ins.imm)], lastDst := ins.dst, pc := m.pc + 1))
    case Add => ArithStep(code, m)
    case Sub => ArithStep(code, m)
    case Mul => ArithStep(code, m)
    case Div => ArithStep(code, m)
    case Cmp =>
      if !ValidReg(ins.dst) then Trap(RegisterOutOfRange(ins.dst))
      else if !ValidReg(ins.src) then Trap(RegisterOutOfRange(ins.src))
      else Next(m.(flags := SubSpec(m.regs[ins.dst], m.regs[ins.src]).flags, pc := m.pc + 1))
    case Jmp => Jump(code, m, ins.target)
    case Jz => if m.flags.z then Jump(code, m, ins.target) else Next(m.(pc := m.pc + 1))
    case Jnz => if !m.flags.z then Jump(code, m, ins.target) else Next(m.(pc := m.pc + 1))
    case Load =>
      if !ValidReg(ins.dst) then Trap(RegisterOutOfRange(ins.dst))
      else if !ValidReg(ins.addr) then Trap(RegisterOutOfRange(ins.addr))
      else if m.mem.None? then Trap(MemoryNotAttached)
      else
        var a := m.regs[ins.addr];
        (match Mem.CheckAccess(a)
         case Some(e) => Trap(MemoryFault(e))
         case None => Next(m.(regs := m.regs[ins.dst := Mem.LoadLE(m.mem.value, a)],
                              lastDst := ins.dst, pc := m.pc + 1)))
    case Store =>
      if !ValidReg(ins.src) then Trap(RegisterOutOfRange(ins.src))
      else if !ValidReg(ins.addr) then Trap(RegisterOutOfRange(ins.addr))
      else if m.mem.None? then Trap(MemoryNotAttached)
      else
        var a := m.regs[ins.addr];
        match Mem.CheckAccess(a)
        case Some(e) => Trap(MemoryFault(e))
        case None => Next(m.(mem := Some(Mem.StoreLE(m.mem.value, a, m.regs[ins.src])), pc := m.pc + 1))
  }

  /** ADD, SUB, MUL and DIV: both registers checked, DIV's divisor checked before the ALU. */
  function ArithStep(code: seq<IR.Instr>, m: Machine): (r: StepResult)
    requires WellFormed(m, |code|) && m.pc < |code| && IsArith(code[m.pc].op)
  {
    var ins := code[m.pc];
    if !ValidReg(ins.dst) then Trap(RegisterOutOfRange(ins.dst))
    else if !ValidReg(ins.src) then Trap(RegisterOutOfRange(ins.src))
    else if ins.op.Div? && m.regs[ins.src] == 0 then Trap(DivisionByZero)
    else
      var res := Arith(ins.op, m.regs[ins.dst], m.regs[ins.src]);
      Next(m.(regs := m.regs[ins.dst := res.value], flags := res.flags, lastDst := ins.dst, pc := m.pc + 1))
  }

  /**
   * How a run ends: halted with pc just past the last instruction, or faulted
   * with the machine as it was before the offending dispatch (memory keeps
   * whatever earlier STOREs wrote).
   */
  datatype Outcome = Halted(final: Machine) | Faulted(fault: Fault, at: Machine)

  /** The dispatch loop from machine m after steps instructions have been dispatched. */
  function Run(code: seq<IR.Instr>, m: Machine, steps: nat): (o: Outcome)
    requires WellFormed(m, |code|) && steps <= MaxSteps
    ensures o.Halted? ==> WellFormed(o.final, |code|) && o.final.pc == |code|
    ensures o.Faulted? ==> WellFormed(o.at, |code|) && o.at.pc < |code| && o.fault != EmptyProgram
    decreases MaxSteps - steps
  {
    if m.pc >= |code| then Halted(m)
    else if steps == MaxSteps then Faulted(StepLimitExceeded, m)
    else
      match Step(code, m)
      case Trap(f) => Faulted(f, m)
      case Next(m') => Run(code, m', steps + 1)
  }

  /** One turn of the dispatch loop, as an equation on Run. */
  lemma RunUnfold(code: seq<IR.Instr>, m: Machine, steps: nat)
    requires WellFormed(m, |code|) && steps <= MaxSteps
    ensures m.pc >= |code| ==> Run(code, m, steps) == Halted(m)
    ensures m.pc < |code| && steps == MaxSteps ==> Run(code, m, steps) == Faulted(StepLimitExceeded, m)
    ensures m.pc < |code| && steps < MaxSteps && Step(code, m).Trap? ==>
              Run(code, m, steps) == Faulted(Step(code, m).fault, m)
    ensures m.pc < |code| && steps < MaxSteps && Step(code, m).Next? ==>
              Run(code, m, steps) == Run(code, Step(code, m).next, steps + 1)
  {
  }

  /** cpu_execute: refuses an empty program, otherwise runs from the zeroed CPU. */
  function Exec(code: seq<IR.Instr>, mem: Option<seq<Mem.Byte>>): (o: Outcome)
    requires mem.Some? ==> |mem.value| == Mem.MemSize
    ensures o.Faulted? && o.fault == EmptyProgram <==> |code| == 0
    ensures o.Halted? ==> WellFormed(o.final, |code|) && o.final.pc == |code|
  {
    if |code| == 0 then Faulted(EmptyProgram, Initial(mem))
    else Run(code, Initial(mem), 0)
  }

  /**
   * The status and *out_result of cpu_execute: on a halt, the last written
   * register read as a signed 32-bit value and widened to long.
   */
  function Report(o: Outcome): (r: Result<int, Fault>)
    requires o.Halted? ==> |o.final.regs| == MaxRegs && o.final.lastDst < MaxRegs
    ensures r.Success? <==> o.Halted?
    ensures r.Failure? ==> r.error == o.fault
    ensures r.Success? ==> InSignedRange(r.value) && Wrap(r.value) == o.final.regs[o.final.lastDst]
  {
    match o
    case Halted(m) =>
      WrapToSigned(m.regs[m.lastDst]);
      Success(ToSigned(m.regs[m.lastDst]))
    case Faulted(f, _) => Failure(f)
  }

  /** The memory contents a run leaves behind, halted or not. */
  function MemoryAfter(o: Outcome): Option<seq<Mem.Byte>>
  {
    match o
    case Halted(m) => m.mem
    case Faulted(_, m) => m.mem
  }

  /** The memory contents the CPU sees through a possibly-null memory pointer. */
  function View(mem: Mem.Memory?): (v: Option<seq<Mem.Byte>>)
    reads if mem != null then {mem.data} else {}
  {
    if mem == null then None else Some(mem.data[..])
  }

  /**
   * The body of the dispatch loop's switch: executes ins, the instruction at
   * pc, on the register array and attached memory, and returns the fault or
   * the new flags, pc and last_dst. It does what Step describes, and a
   * faulting instruction changes nothing.
   */
  method Dispatch(ghost code: seq<IR.Instr>, ghost steps: nat, count: nat, ins: IR.Instr, regs: array<Word>,
                  mem: Mem.Memory?, flags: Flags, pc: nat, lastDst: nat)
    returns (fault: Option<Fault>, flags': Flags, pc': nat, lastDst': nat)
    requires count == |code| && pc < count && code[pc] == ins && steps < MaxSteps
    requires regs.Length == MaxRegs && (mem != null ==> mem.Valid())
    requires WellFormed(Machine(regs[..], flags, pc, lastDst, View(mem)), |code|)
    modifies regs, if mem != null then {mem.data} else {}
    ensures fault.Some? ==> Step(code, Machine(old(regs[..]), flags, pc, lastDst, old(View(mem)))) == Trap(fault.value)
    ensures fault.Some? ==> regs[..] == old(regs[..]) && View(mem) == old(View(mem))
    ensures fault.Some? ==> flags' == flags && pc' == pc && lastDst' == lastDst
    ensures fault.Some? ==> Run(code, Machine(regs[..], flags, pc, lastDst, View(mem)), steps)
                            == Faulted(fault.value, Machine(regs[..], flags, pc, lastDst, View(mem)))
    ensures fault.None? ==> Step(code, Machine(old(regs[..]), flags, pc, lastDst, old(View(mem))))
                            == Next(Machine(regs[..], flags', pc', lastDst', View(mem)))
    ensures fault.None? ==> WellFormed(Machine(regs[..], flags', pc', lastDst', View(mem)), |code|)
    ensures fault.None? ==> Run(code, Machine(old(regs[..]), flags, pc, lastDst, old(View(mem))), steps)
                            == Run(code, Machine(regs[..], flags', pc', lastDst', View(mem)), steps + 1)
  {
    RunUnfold(code, Machine(regs[..], flags, pc, lastDst, View(mem)), steps);
    fault, flags', pc', lastDst' := None, flags, pc + 1, lastDst;
    match ins.op {
      case LoadConst =>
        if !ValidReg(ins.dst) { return Some(RegisterOutOfRange(ins.dst)), flags, pc, lastDst; }
        regs[ins.dst] := Wrap(ins.imm);
        lastDst' := ins.dst;
      case Add =>
        if !ValidReg(ins.dst) { return Some(RegisterOutOfRange(ins.dst)), flags, pc, lastDst; }
        if !ValidReg(ins.src) { return Some(RegisterOutOfRange(ins.src)), flags, pc, lastDst; }
        var res := Add(regs[ins.dst], regs[ins.src]);
        regs[ins.dst] := res.value;
        flags', lastDst' := res.flags, ins.dst;
      case Sub =>
        if !ValidReg(ins.dst) { return Some(RegisterOutOfRange(ins.dst)), flags, pc, lastDst; }
        if !ValidReg(ins.src) { return Some(RegisterOutOfRange(ins.src)), flags, pc, lastDst; }
        var res := Sub(regs[ins.dst], regs[ins.src]);
        regs[ins.dst] := res.value;
        flags', lastDst' := res.flags, ins.dst;
      case Mul =>
        if !ValidReg(ins.dst) { return Some(RegisterOutOfRange(ins.dst)), flags, pc, lastDst; }
        if !ValidReg(ins.src) { return Some(RegisterOutOfRange(ins.src)), flags, pc, lastDst; }
        var res := Mul(regs[ins.dst], regs[ins.src]);
        regs[ins.dst] := res.value;
        flags', lastDst' := res.flags, ins.dst;
      case Div =>
        if !ValidReg(ins.dst) { return Some(RegisterOutOfRange(ins.dst)), flags, pc, lastDst; }
        if !ValidReg(ins.src) { return Some(RegisterOutOfRange(ins.src)), flags, pc, lastDst; }
        if regs[ins.src] == 0 { return Some(DivisionByZero), flags, pc, lastDst; }
        var res := Div(regs[ins.dst], regs[ins.src]);
        regs[ins.dst] := res.value;
        flags', lastDst' := res.flags, ins.dst;
      case Cmp =>
        if !ValidReg(ins.dst) { return Some(RegisterOutOfRange(ins.dst)), flags, pc, lastDst; }
        if !ValidReg(ins.src) { return Some(RegisterOutOfRange(ins.src)), flags, pc, lastDst; }
        var res := Sub(regs[ins.dst], regs[ins.src]);
        flags' := res.flags;
      case Jmp =>
        if !ValidTarget(ins.target, count) { return Some(JumpTargetOutOfRange(ins.target)), flags, pc, lastDst; }
        pc' := ins.target;
      case Jz =>
        if flags.z {
          if !ValidTarget(ins.target, count) { return Some(JumpTargetOutOfRange(ins.target)), flags, pc, lastDst; }
          pc' := ins.target;
        }
      case Jnz =>
        if !flags.z {
          if !ValidTarget(ins.target, count) { return Some(JumpTargetOutOfRange(ins.target)), flags, pc, lastDst; }
          pc' := ins.target;
        }
      case Load =>
        if !ValidReg(ins.dst) { return Some(RegisterOutOfRange(ins.dst)), flags, pc, lastDst; }
        if !ValidReg(ins.addr) { return Some(RegisterOutOfRange(ins.addr)), flags, pc, lastDst; }
        if mem == null { return Some(MemoryNotAttached), flags, pc, lastDst; }
        var value := mem.ReadWord(regs[ins.addr]);
        if value.Failure? { return Some(MemoryFault(value.error)), flags, pc, lastDst; }
        regs[ins.dst] := value.value;
        lastDst' := ins.dst;
      case Store =>
        if !ValidReg(ins.src) { return Some(RegisterOutOfRange(ins.src)), flags, pc, lastDst; }
        if !ValidReg(ins.addr) { return Some(RegisterOutOfRange(ins.addr)), flags, pc, lastDst; }
        if mem == null { return Some(MemoryNotAttached), flags, pc, lastDst; }
        var err := mem.WriteWord(regs[ins.addr], regs[ins.src]);
        if err.Some? { return Some(MemoryFault(err.value)), flags, pc, lastDst; }
    }
  }

  /**
   * The while loop of cpu_execute, from the zeroed CPU until pc leaves the
   * program or an instruction faults: the flags, pc and last_dst it returns,
   * with the registers and memory it leaves, are the machine Run ends in.
   */
  method Loop(code: seq<IR.Instr>, regs: array<Word>, mem: Mem.Memory?)
    returns (fault: Option<Fault>, flags: Flags, pc: nat, lastDst: nat)
    requires regs.Length == MaxRegs && regs[..] == Initial(None).regs
    requires mem != null ==> mem.Valid()
    modifies regs, if mem != null then {mem.data} else {}
    ensures lastDst < MaxRegs
    ensures Run(code, Initial(old(View(mem))), 0) ==
              var m := Machine(regs[..], flags, pc, lastDst, View(mem));
              if fault.Some? then Faulted(fault.value, m) else Halted(m)
  {
    ghost var outcome := Run(code, Initial(View(mem)), 0);
    flags, pc, lastDst := ClearFlags, 0, 0;
    var stepCount: nat := 0;
    fault := None;
    while pc < |code|
      invariant stepCount <= MaxSteps && fault.None?
      invariant WellFormed(Machine(regs[..], flags, pc, lastDst, View(mem)), |code|)
      invariant Run(code, Machine(regs[..], flags, pc, lastDst, View(mem)), stepCount) == outcome
      decreases MaxSteps - stepCount
    {
      ghost var steps := stepCount;
      stepCount := stepCount + 1;
      if stepCount > MaxSteps {
        RunUnfold(code, Machine(regs[..], flags, pc, lastDst, View(mem)), steps);
        fault := Some(StepLimitExceeded);
        return;
      }
      fault, flags, pc, lastDst := Dispatch(code, steps, |code|, code[pc], regs, mem, flags, pc, lastDst);
      if fault.Some? {
        return;
      }
    }
    RunUnfold(code, Machine(regs[..], flags, pc, lastDst, View(mem)), stepCount);
  }

  /**
   * cpu_execute: rejects an empty program, otherwise runs the dispatch loop
   * on a zeroed register file; proved to report exactly what Exec describes
   * and to leave the attached memory as Exec leaves it.
   */
  method Execute(prog: IR.Program, mem: Mem.Memory?) returns (r: Result<int, Fault>)
    requires prog.Valid()
    requires mem != null ==> mem.Valid()
    modifies if mem != null then {mem.data} else {}
    ensures r == Report(Exec(old(prog.Contents()), old(View(mem))))
    ensures View(mem) == MemoryAfter(Exec(old(prog.Contents()), old(View(mem))))
  {
    // the program is only ever read: the loop fetches from its contents
    var code := prog.data[..prog.count];
    if |code| == 0 {
      return Failure(EmptyProgram);
    }
    var regs := new Word[MaxRegs](_ => 0);
    assert regs[..] == Initial(None).regs;
    var fault, flags, pc, lastDst := Loop(code, regs, mem);
    r := if fault.Some? then Failure(fault.value) else Success(ToSigned(regs[lastDst]));
  }

  // ---------------------------------------------------------------------------
  // Properties of one step
  // ---------------------------------------------------------------------------

  /**
   * check_reg: an instruction traps with RegisterOutOfRange exactly when one
   * of its register operands lies outside R0 .. R31. It names the first
   * such operand: dst is checked before src.
   */
  lemma RegisterCheck(code: seq<IR.Instr>, m: Machine)
    requires WellFormed(m, |code|) && m.pc < |code|
    ensures var ins := code[m.pc];
            (exists i :: 0 <= i < |Operands(ins)| && !ValidReg(Operands(ins)[i]))
            <==> Step(code, m).Trap? && Step(code, m).fault.RegisterOutOfRange?
    ensures var ins := code[m.pc];
            Step(code, m).Trap? && Step(code, m).fault.RegisterOutOfRange? ==>
              Step(code, m).fault.reg in Operands(ins) && !ValidReg(Step(code, m).fault.reg)
    ensures var ops := Operands(code[m.pc]);
            Step(code, m).Trap? && Step(code, m).fault.RegisterOutOfRange? ==>
              Step(code, m).fault.reg == (if !ValidReg(ops[0]) then ops[0] else ops[1])
  {
    var ins := code[m.pc];
    var ops := Operands(ins);
    if |ops| > 0 && !ValidReg(ops[0]) {
      assert Step(code, m) == Trap(RegisterOutOfRange(ops[0]));
    } else if |ops| > 1 && !ValidReg(ops[1]) {
      assert Step(code, m) == Trap(RegisterOutOfRange(ops[1]));
    } else {
      assert forall i :: 0 <= i < |ops| ==> ValidReg(ops[i]) by {
        assert |ops| <= 2;
      }
    }
  }

  /** Whether the jump at pc transfers control: always for JMP, on Z for JZ, on !Z for JNZ. */
  predicate Taken(ins: IR.Instr, flags: Flags)
  {
    ins.op.Jmp? || (ins.op.Jz? && flags.z) || (ins.op.Jnz? && !flags.z)
  }

  /**
   * check_target: a taken jump traps exactly when its target is outside
   * [0, count] and otherwise moves pc to the target; a jump that is not
   * taken goes on to pc + 1 without looking at its target.
   */
  lemma JumpCheck(code: seq<IR.Instr>, m: Machine)
    requires WellFormed(m, |code|) && m.pc < |code| && IsJump(code[m.pc].op)
    ensures var ins := code[m.pc];
            Taken(ins, m.flags) ==>
              (Step(code, m) == Trap(JumpTargetOutOfRange(ins.target)) <==> !ValidTarget(ins.target, |code|))
    ensures var ins := code[m.pc];
            Taken(ins, m.flags) && ValidTarget(ins.target, |code|) ==>
              Step(code, m).Next? && Step(code, m).next == m.(pc := ins.target)
    ensures !Taken(code[m.pc], m.flags) ==> Step(code, m) == Next(m.(pc := m.pc + 1))
  {
  }

  /** A taken jump to target == count ends the run normally. */
  lemma JumpToEndHalts(code: seq<IR.Instr>, m: Machine, steps: nat)
    requires WellFormed(m, |code|) && m.pc < |code| && steps < MaxSteps
    requires Taken(code[m.pc], m.flags) && code[m.pc].target == |code|
    ensures Run(code, m, steps) == Halted(m.(pc := |code|))
  {
    var m' := m.(pc := |code|);
    assert Step(code, m) == Next(m');
    assert Run(code, m', steps + 1) == Halted(m');
  }

  /**
   * LOAD_CONST writes the immediate truncated to 32 bits into R[dst], makes
   * dst the result register and leaves the flags and every other register
   * as they were.
   */
  lemma LoadConstEffect(code: seq<IR.Instr>, m: Machine)
    requires WellFormed(m, |code|) && m.pc < |code| && code[m.pc].op.LoadConst?
    requires ValidReg(code[m.pc].dst)
    ensures Step(code, m).Next?
    ensures var ins, m' := code[m.pc], Step(code, m).next;
            m'.regs[ins.dst] == ins.imm % WordModulus && m'.lastDst == ins.dst && m'.flags == m.flags &&
            (forall k :: 0 <= k < MaxRegs && k != ins.dst ==> m'.regs[k] == m.regs[k])
  {
  }

  /**
   * ADD, SUB, MUL and DIV with valid registers (and, for DIV, a non-zero
   * divisor) put the ALU result in R[dst], take the ALU flags and make dst
   * the result register.
   */
  lemma ArithEffect(code: seq<IR.Instr>, m: Machine)
    requires WellFormed(m, |code|) && m.pc < |code| && IsArith(code[m.pc].op)
    requires ValidReg(code[m.pc].dst) && ValidReg(code[m.pc].src)
    requires code[m.pc].op.Div? ==> m.regs[code[m.pc].src] != 0
    ensures Step(code, m).Next?
    ensures var ins, m' := code[m.pc], Step(code, m).next;
            var res := Arith(ins.op, m.regs[ins.dst], m.regs[ins.src]);
            m'.regs == m.regs[ins.dst := res.value] && m'.flags == res.flags && m'.lastDst == ins.dst
  {
  }

  /**
   * DIV checks its divisor before the ALU is reached: with valid registers
   * it traps with DivisionByZero exactly when R[src] is 0.
   */
  lemma DivisionCheck(code: seq<IR.Instr>, m: Machine)
    requires WellFormed(m, |code|) && m.pc < |code| && code[m.pc].op.Div?
    requires ValidReg(code[m.pc].dst) && ValidReg(code[m.pc].src)
    ensures Step(code, m) == Trap(DivisionByZero) <==> m.regs[code[m.pc].src] == 0
    ensures Step(code, m).Next? <==> m.regs[code[m.pc].src] != 0
  {
  }

  /**
   * CMP sets the flags exactly as SUB of the same registers would, but
   * writes no register and leaves the result register alone.
   */
  lemma CompareIsSubtractWithoutWrite(code: seq<IR.Instr>, m: Machine)
    requires WellFormed(m, |code|) && m.pc < |code| && code[m.pc].op.Cmp?
    requires ValidReg(code[m.pc].dst) && ValidReg(code[m.pc].src)
    ensures Step(code, m).Next?
    ensures var ins, m' := code[m.pc], Step(code, m).next;
            var sub := code[m.pc := ins.(op := IR.Sub)];
            Step(sub, m).Next? &&
            m'.flags == Step(sub, m).next.flags &&
            m'.regs == m.regs && m'.lastDst == m.lastDst &&
            Step(sub, m).next.regs == m.regs[ins.dst := Wrap(m.regs[ins.dst] as int - m.regs[ins.src] as int)]
  {
    var ins := code[m.pc];
    var sub := code[m.pc := ins.(op := IR.Sub)];
    assert sub[m.pc] == ins.(op := IR.Sub);
    assert WellFormed(m, |sub|);
  }

  /**
   * LOAD and STORE with valid registers: no attached memory traps, a
   * refused address traps with the memory's own error (leaving memory as it
   * was), and otherwise LOAD reads the little-endian word at the address into
   * R[dst] while STORE writes R[src] there so that it reads back unchanged.
   */
  lemma MemoryAccess(code: seq<IR.Instr>, m: Machine)
    requires WellFormed(m, |code|) && m.pc < |code|
    requires var ins := code[m.pc];
             (ins.op.Load? && ValidReg(ins.dst) && ValidReg(ins.addr)) ||
             (ins.op.Store? && ValidReg(ins.src) && ValidReg(ins.addr))
    ensures m.mem.None? ==> Step(code, m) == Trap(MemoryNotAttached)
    ensures var a := m.regs[code[m.pc].addr];
            m.mem.Some? && Mem.CheckAccess(a).Some? ==>
              Step(code, m) == Trap(MemoryFault(Mem.CheckAccess(a).value))
    ensures var ins, a := code[m.pc], m.regs[code[m.pc].addr];
            m.mem.Some? && Mem.CheckAccess(a).None? && ins.op.Load? ==>
              Step(code, m).Next? && Step(code, m).next.regs[ins.dst] == Mem.LoadLE(m.mem.value, a) &&
              Step(code, m).next.mem == m.mem
    ensures var ins, a := code[m.pc], m.regs[code[m.pc].addr];
            m.mem.Some? && Mem.CheckAccess(a).None? && ins.op.Store? ==>
              Step(code, m).Next? && Step(code, m).next.mem.Some? &&
              Mem.LoadLE(Step(code, m).next.mem.value, a) == m.regs[ins.src] &&
              Step(code, m).next.regs == m.regs
  {
    var ins, a := code[m.pc], m.regs[code[m.pc].addr];
    if m.mem.Some? && Mem.CheckAccess(a).None? && ins.op.Store? {
      Mem.LoadAfterStore(m.mem.value, a, m.regs[ins.src]);
    }
  }

  // ---------------------------------------------------------------------------
  // Properties of whole runs
  // ---------------------------------------------------------------------------

  /**
   * The step ceiling: a program whose instruction at pc jumps to itself
   * faults with StepLimitExceeded instead of running forever.
   */
  lemma {:induction false} SelfJumpHitsStepLimit(code: seq<IR.Instr>, m: Machine, steps: nat)
    requires WellFormed(m, |code|) && m.pc < |code| && steps <= MaxSteps
    requires code[m.pc].op.Jmp? && code[m.pc].target == m.pc
    ensures Run(code, m, steps) == Faulted(StepLimitExceeded, m)
    decreases MaxSteps - steps
  {
    if steps < MaxSteps {
      assert Step(code, m) == Next(m);
      SelfJumpHitsStepLimit(code, m, steps + 1);
    }
  }

  /** The one-instruction program `0: JMP 0` is rejected after 1,000,000 dispatches. */
  lemma SelfJumpProgramFails()
    ensures Report(Exec([IR.Instr(IR.Jmp, 0, 0, 0, 0, 0)], None)) == Failure(StepLimitExceeded)
  {
    var code := [IR.Instr(IR.Jmp, 0, 0, 0, 0, 0)];
    SelfJumpHitsStepLimit(code, Initial(None), 0);
  }

  // ---------------------------------------------------------------------------
  // One dispatch of each kind, as an equation on Run
  // ---------------------------------------------------------------------------

  /** A LOAD_CONST with a valid dst: the run goes on from the machine it leaves. */
  lemma RunLoadConst(code: seq<IR.Instr>, m: Machine, steps: nat)
    requires WellFormed(m, |code|) && m.pc < |code| && steps < MaxSteps
    requires code[m.pc].op.LoadConst? && ValidReg(code[m.pc].dst)
    ensures var ins := code[m.pc];
            Run(code, m, steps) ==
            Run(code, m.(regs := m.regs[ins.dst := Wrap(ins.imm)], lastDst := ins.dst, pc := m.pc + 1), steps + 1)
  {
    RunUnfold(code, m, steps);
  }

  /** ADD, SUB, MUL or DIV with valid registers and, for DIV, a non-zero divisor. */
  lemma RunArith(code: seq<IR.Instr>, m: Machine, steps: nat)
    requires WellFormed(m, |code|) && m.pc < |code| && steps < MaxSteps
    requires IsArith(code[m.pc].op) && ValidReg(code[m.pc].dst) && ValidReg(code[m.pc].src)
    requires code[m.pc].op.Div? ==> m.regs[code[m.pc].src] != 0
    ensures var ins := code[m.pc];
            var res := Arith(ins.op, m.regs[ins.dst], m.regs[ins.src]);
            Run(code, m, steps) ==
            Run(code, m.(regs := m.regs[ins.dst := res.value], flags := res.flags, lastDst := ins.dst, pc := m.pc + 1),
                steps + 1)
  {
    RunUnfold(code, m, steps);
  }

  /** CMP with valid registers: only the flags change. */
  lemma RunCmp(code: seq<IR.Instr>, m: Machine, steps: nat)
    requires WellFormed(m, |code|) && m.pc < |code| && steps < MaxSteps
    requires code[m.pc].op.Cmp? && ValidReg(code[m.pc].dst) && ValidReg(code[m.pc].src)
    ensures var ins := code[m.pc];
            Run(code, m, steps) ==
            Run(code, m.(flags := SubSpec(m.regs[ins.dst], m.regs[ins.src]).flags, pc := m.pc + 1), steps + 1)
  {
    RunUnfold(code, m, steps);
  }

  /** A taken jump to a valid target. */
  lemma RunTaken(code: seq<IR.Instr>, m: Machine, steps: nat)
    requires WellFormed(m, |code|) && m.pc < |code| && steps < MaxSteps
    requires Taken(code[m.pc], m.flags) && ValidTarget(code[m.pc].target, |code|)
    ensures Run(code, m, steps) == Run(code, m.(pc := code[m.pc].target), steps + 1)
  {
    RunUnfold(code, m, steps);
  }

  /** A conditional jump that is not taken. */
  lemma RunNotTaken(code: seq<IR.Instr>, m: Machine, steps: nat)
    requires WellFormed(m, |code|) && m.pc < |code| && steps < MaxSteps
    requires IsJump(code[m.pc].op) && !Taken(code[m.pc], m.flags)
    ensures Run(code, m, steps) == Run(code, m.(pc := m.pc + 1), steps + 1)
  {
    RunUnfold(code, m, steps);
  }

  /** A LOAD or STORE whose registers are valid but whose address the memory refuses. */
  lemma RunMemoryFault(code: seq<IR.Instr>, m: Machine, steps: nat)
    requires WellFormed(m, |code|) && m.pc < |code| && steps < MaxSteps
    requires var ins := code[m.pc];
             (ins.op.Load? && ValidReg(ins.dst) && ValidReg(ins.addr)) ||
             (ins.op.Store? && ValidReg(ins.src) && ValidReg(ins.addr))
    requires m.mem.Some? && Mem.CheckAccess(m.regs[code[m.pc].addr]).Some?
    ensures Run(code, m, steps) == Faulted(MemoryFault(Mem.CheckAccess(m.regs[code[m.pc].addr]).value), m)
  {
    RunUnfold(code, m, steps);
  }

  /** A LOAD from an address the memory accepts. */
  lemma RunLoad(code: seq<IR.Instr>, m: Machine, steps: nat)
    requires WellFormed(m, |code|) && m.pc < |code| && steps < MaxSteps
    requires code[m.pc].op.Load? && ValidReg(code[m.pc].dst) && ValidReg(code[m.pc].addr)
    requires m.mem.Some? && Mem.CheckAccess(m.regs[code[m.pc].addr]).None?
    ensures var ins := code[m.pc];
            Run(code, m, steps) ==
            Run(code, m.(regs := m.regs[ins.dst := Mem.LoadLE(m.mem.value, m.regs[ins.addr])],
                         lastDst := ins.dst, pc := m.pc + 1), steps + 1)
  {
    RunUnfold(code, m, steps);
  }

  /** A STORE to an address the memory accepts. */
  lemma RunStore(code: seq<IR.Instr>, m: Machine, steps: nat)
    requires WellFormed(m, |code|) && m.pc < |code| && steps < MaxSteps
    requires code[m.pc].op.Store? && ValidReg(code[m.pc].src) && ValidReg(code[m.pc].addr)
    requires m.mem.Some? && Mem.CheckAccess(m.regs[code[m.pc].addr]).None?
    ensures var ins := code[m.pc];
            Run(code, m, steps) ==
            Run(code, m.(mem := Some(Mem.StoreLE(m.mem.value, m.regs[ins.addr], m.regs[ins.src])), pc := m.pc + 1),
                steps + 1)
  {
    RunUnfold(code, m, steps);
  }

  // ---------------------------------------------------------------------------
  // The demonstration programs
  // ---------------------------------------------------------------------------

  /** An instruction with every field it does not name zeroed, as a C designated initializer leaves it. */
  function I(op: IR.Opcode, dst: int := 0, src: int := 0, imm: int := 0, target: int := 0, addr: int := 0): IR.Instr
  {
    IR.Instr(op, dst, src, imm, target, addr)
  }

  /** R1 = 3; R2 = second; CMP R1, R2; JZ 6; R3 = 99; JMP 7; R3 = 42. */
  function BranchDemo(second: int): seq<IR.Instr>
  {
    [I(IR.LoadConst, dst := 1, imm := 3),
     I(IR.LoadConst, dst := 2, imm := second),
     I(IR.Cmp, dst := 1, src := 2),
     I(IR.Jz, target := 6),
     I(IR.LoadConst, dst := 3, imm := 99),
     I(IR.Jmp, target := 7),
     I(IR.LoadConst, dst := 3, imm := 42)]
  }

  /** The machine after BranchDemo's first three instructions: R1 = 3, R2 = second, flags of 3 - second. */
  function BranchDemoCompared(second: int): Machine
  {
    Machine(Initial(None).regs[1 := 3][2 := Wrap(second)], SubSpec(3, Wrap(second)).flags, 3, 2, None)
  }

  lemma BranchDemoPrefix(second: int)
    ensures WellFormed(BranchDemoCompared(second), 7)
    ensures Run(BranchDemo(second), Initial(None), 0) == Run(BranchDemo(second), BranchDemoCompared(second), 3)
  {
    var code := BranchDemo(second);
    var m0 := Initial(None);
    var m1 := m0.(regs := m0.regs[1 := 3], lastDst := 1, pc := 1);
    var m2 := m1.(regs := m1.regs[2 := Wrap(second)], lastDst := 2, pc := 2);
    RunLoadConst(code, m0, 0);
    RunLoadConst(code, m1, 1);
    RunCmp(code, m2, 2);
  }

  /**
   * The branch demonstration: the JZ is taken exactly when R2 equals R1 = 3,
   * so the program yields 42 for equal operands and 99 otherwise.
   */
  lemma BranchDemoResult(second: int)
    ensures Report(Exec(BranchDemo(second), None)) == Success(if Wrap(second) == 3 then 42 else 99)
  {
    var code := BranchDemo(second);
    var m3 := BranchDemoCompared(second);
    BranchDemoPrefix(second);
    assert m3.flags.z <==> Wrap(second) == 3;
    if Wrap(second) == 3 {
      var m4 := m3.(pc := 6);
      RunTaken(code, m3, 3);
      RunLoadConst(code, m4, 4);
      RunUnfold(code, m4.(regs := m4.regs[3 := 42], lastDst := 3, pc := 7), 5);
    } else {
      var m4 := m3.(pc := 4);
      var m5 := m4.(regs := m4.regs[3 := 99], lastDst := 3, pc := 5);
      RunNotTaken(code, m3, 3);
      RunLoadConst(code, m4, 4);
      RunTaken(code, m5, 5);
      RunUnfold(code, m5.(pc := 7), 6);
    }
  }

  /** main.c's two runs: equal operands give 42, operands 3 and 5 give 99. */
  lemma BranchDemos()
    ensures Report(Exec(BranchDemo(3), None)) == Success(42)
    ensures Report(Exec(BranchDemo(5), None)) == Success(99)
  {
    BranchDemoResult(3);
    BranchDemoResult(5);
  }

  /** R0 = n; R1 = 1; loop: SUB R0, R1; JNZ loop. */
  function Countdown(n: int): seq<IR.Instr>
  {
    [I(IR.LoadConst, dst := 0, imm := n),
     I(IR.LoadConst, dst := 1, imm := 1),
     I(IR.Sub, dst := 0, src := 1),
     I(IR.Jnz, target := 2)]
  }

  /**
   * The countdown loop from the SUB at pc 2 with R0 = k > 0 and R1 = 1: it
   * goes round k times (two dispatches each) and halts with R0 = 0 as the
   * result register.
   */
  lemma {:induction false} CountdownLoop(n: int, m: Machine, steps: nat, k: nat)
    requires WellFormed(m, 4) && m.pc == 2 && m.regs[0] == k && m.regs[1] == 1
    requires 0 < k && steps + 2 * k <= MaxSteps
    ensures Run(Countdown(n), m, steps).Halted?
    ensures var f := Run(Countdown(n), m, steps).final; f.regs[0] == 0 && f.lastDst == 0
    decreases k
  {
    var code := Countdown(n);
    var res := SubSpec(k, 1);
    assert res.value == k - 1;
    var m3 := m.(regs := m.regs[0 := res.value], flags := res.flags, lastDst := 0, pc := 3);
    RunArith(code, m, steps);
    if k == 1 {
      RunNotTaken(code, m3, steps + 1);
      RunUnfold(code, m3.(pc := 4), steps + 2);
    } else {
      RunTaken(code, m3, steps + 1);
      CountdownLoop(n, m3.(pc := 2), steps + 2, k - 1);
    }
  }

  /** The countdown demonstration: from any start 1 <= n within the step budget it yields 0; main.c uses 5. */
  lemma CountdownResult(n: int)
    requires 1 <= n && 2 + 2 * n <= MaxSteps
    ensures Report(Exec(Countdown(n), None)) == Success(0)
  {
    var code := Countdown(n);
    var m0 := Initial(None);
    assert Wrap(n) == n by {
      DivModUnique(n, WordModulus, 0, n);
    }
    var m1 := m0.(regs := m0.regs[0 := n], lastDst := 0, pc := 1);
    var m2 := m1.(regs := m1.regs[1 := 1], lastDst := 1, pc := 2);
    RunLoadConst(code, m0, 0);
    RunLoadConst(code, m1, 1);
    CountdownLoop(n, m2, 2, n);
  }

  /**
   * R[ra] = addr; R[rv] = value; STORE R[rv] at [R[ra]]; LOAD R[rd] from [R[ra]]
   * (main.c uses registers 1, 2, 3 with 0x100 and 42, and 0, 1, 2 with
   * 0x200 and 0xDEADBEEF).
   */
  function StoreLoadDemo(ra: int, rv: int, rd: int, addr: int, value: int): seq<IR.Instr>
  {
    [I(IR.LoadConst, dst := ra, imm := addr),
     I(IR.LoadConst, dst := rv, imm := value),
     I(IR.Store, src := rv, addr := ra),
     I(IR.Load, dst := rd, addr := ra)]
  }

  /**
   * A word stored to an address the memory accepts loads back unchanged:
   * the run yields value truncated to 32 bits, read as signed.
   */
  lemma StoreLoadResult(ra: int, rv: int, rd: int, addr: int, value: int, mem: seq<Mem.Byte>)
    requires ValidReg(ra) && ValidReg(rv) && ValidReg(rd) && ra != rv
    requires |mem| == Mem.MemSize && Mem.CheckAccess(Wrap(addr)).None?
    ensures Report(Exec(StoreLoadDemo(ra, rv, rd, addr, value), Some(mem))) == Success(ToSigned(Wrap(value)))
  {
    var code := StoreLoadDemo(ra, rv, rd, addr, value);
    var m0 := Initial(Some(mem));
    var m1 := m0.(regs := m0.regs[ra := Wrap(addr)], lastDst := ra, pc := 1);
    var m2 := m1.(regs := m1.regs[rv := Wrap(value)], lastDst := rv, pc := 2);
    var stored := Mem.StoreLE(mem, Wrap(addr), Wrap(value));
    var m3 := m2.(mem := Some(stored), pc := 3);
    RunLoadConst(code, m0, 0);
    RunLoadConst(code, m1, 1);
    RunStore(code, m2, 2);
    RunLoad(code, m3, 3);
    Mem.LoadAfterStore(mem, Wrap(addr), Wrap(value));
    RunUnfold(code, m3.(regs := m3.regs[rd := Wrap(value)], lastDst := rd, pc := 4), 4);
  }

  /** main.c's two store/load runs on a freshly initialised memory. */
  lemma StoreLoadDemos()
    ensures Report(Exec(StoreLoadDemo(1, 2, 3, 0x100, 42), Some(Mem.ZeroMemory()))) == Success(42)
    ensures var r := Report(Exec(StoreLoadDemo(0, 1, 2, 0x200, 0xDEAD_BEEF), Some(Mem.ZeroMemory())));
            r.Success? && Wrap(r.value) == 0xDEAD_BEEF
  {
    StoreLoadResult(1, 2, 3, 0x100, 42, Mem.ZeroMemory());
    StoreLoadResult(0, 1, 2, 0x200, 0xDEAD_BEEF, Mem.ZeroMemory());
  }

  /** R0 = 0x102; R1 = 7; STORE R1 at [R0]: the store is refused as unaligned and memory is untouched. */
  lemma UnalignedStoreDemo()
    ensures var code := [I(IR.LoadConst, dst := 0, imm := 0x102), I(IR.LoadConst, dst := 1, imm := 7),
                         I(IR.Store, src := 1, addr := 0)];
            var o := Exec(code, Some(Mem.ZeroMemory()));
            Report(o) == Failure(MemoryFault(Mem.Unaligned)) && MemoryAfter(o) == Some(Mem.ZeroMemory())
  {
    var code := [I(IR.LoadConst, dst := 0, imm := 0x102), I(IR.LoadConst, dst := 1, imm := 7),
                 I(IR.Store, src := 1, addr := 0)];
    var m0 := Initial(Some(Mem.ZeroMemory()));
    var m1 := m0.(regs := m0.regs[0 := 0x102], lastDst := 0, pc := 1);
    var m2 := m1.(regs := m1.regs[1 := 7], lastDst := 1, pc := 2);
    RunLoadConst(code, m0, 0);
    RunLoadConst(code, m1, 1);
    RunMemoryFault(code, m2, 2);
  }

  /** R0 = 0x10000; LOAD R1 from [R0]: the word would end past the 64 KiB, so the load is refused. */
  lemma OutOfBoundsLoadDemo()
    ensures var code := [I(IR.LoadConst, dst := 0, imm := 0x1_0000), I(IR.Load, dst := 1, addr := 0)];
            Report(Exec(code, Some(Mem.ZeroMemory()))) == Failure(MemoryFault(Mem.OutOfBounds))
  {
    var code := [I(IR.LoadConst, dst := 0, imm := 0x1_0000), I(IR.Load, dst := 1, addr := 0)];
    var m0 := Initial(Some(Mem.ZeroMemory()));
    var m1 := m0.(regs := m0.regs[0 := 0x1_0000], lastDst := 0, pc := 1);
    RunLoadConst(code, m0, 0);
    RunMemoryFault(code, m1, 1);
  }
}
