/**
 * The instruction representation between the code generator and the CPU:
 * eleven opcodes, a flat instruction record, and a growable instruction
 * buffer that doubles its capacity when full.
 */
module IR {

  /** IR_INITIAL_CAPACITY */
  const InitialCapacity: nat := 16

  datatype Opcode =
    | LoadConst   // R[dst] = imm
    | Add         // R[dst] = R[dst] + R[src]
    | Sub         // R[dst] = R[dst] - R[src]
    | Mul         // R[dst] = R[dst] * R[src]
    | Div         // R[dst] = R[dst] / R[src]
    | Cmp         // flags = R[dst] - R[src], result discarded
    | Jmp         // pc = target
    | Jz          // if Z then pc = target
    | Jnz         // if !Z then pc = target
    | Load        // R[dst] = MEM[R[addr]]
    | Store       // MEM[R[addr]] = R[src]

  /**
   * One instruction. Register numbers and the jump target are C ints and
   * may be out of range: the CPU, not the IR, validates them. The immediate
   * is a C long, kept here as a mathematical integer.
   */
  datatype Instr = Instr(op: Opcode, dst: int, src: int, imm: int, target: int, addr: int)

  /** ir_opcode_name: the mnemonic printed in traces and dumps. */
  function OpcodeName(op: Opcode): (name: string)
    ensures |name| >= 2
    ensures name != "???"
  {
    match op
    case LoadConst => "LOAD_CONST"
    case Add => "ADD"
    case Sub => "SUB"
    case Mul => "MUL"
    case Div => "DIV"
    case Cmp => "CMP"
    case Jmp => "JMP"
    case Jz => "JZ"
    case Jnz => "JNZ"
    case Load => "LOAD"
    case Store => "STORE"
  }

  /** Different opcodes have different names, so a name identifies its opcode. */
  lemma OpcodeNameInjective(a: Opcode, b: Opcode)
    ensures OpcodeName(a) == OpcodeName(b) ==> a == b
  {
  }

  /** IRProgram: a heap buffer of capacity slots whose first count hold the program. */
  class Program {
    var data: array<Instr>
    var count: nat
    var capacity: nat

    ghost predicate Valid()
      reads this
    {
      count <= capacity && capacity == data.Length
    }

    /** The instructions appended so far, in order. */
    function Contents(): seq<Instr>
      reads this, data
      requires Valid()
    {
      data[..count]
    }

    /** ir_program_init: an empty program with room for 16 instructions. */
    constructor Init()
      ensures Valid() && fresh(data)
      ensures count == 0 && capacity == InitialCapacity
      ensures Contents() == []
    {
      data := new Instr[InitialCapacity];
      count := 0;
      capacity := InitialCapacity;
    }

    /**
     * ir_program_free: releases the buffer; the program is empty with no
     * capacity. The NULL data pointer is an array of length 0.
     */
    method Free()
      modifies this
      ensures Valid() && fresh(data)
      ensures count == 0 && capacity == 0
      ensures Contents() == []
    {
      data := new Instr[0];
      count := 0;
      capacity := 0;
    }

    /**
     * ir_program_append: when the buffer is full its capacity doubles (the
     * realloc keeps the stored instructions), then instr goes into slot count.
     * A freed program (capacity 0) would "double" to 0 and have no slot to
     * write into, so the buffer must have some capacity.
     */
    method Append(instr: Instr)
      requires Valid() && capacity > 0
      modifies this, data
      ensures Valid()
      ensures Contents() == old(Contents()) + [instr]
      ensures count == old(count) + 1
      ensures old(count) == old(capacity) ==> capacity == 2 * old(capacity) && fresh(data)
      ensures old(count) < old(capacity) ==> capacity == old(capacity) && data == old(data)
    {
      if count == capacity {
        var newCap := capacity * 2;
        var grown := new Instr[newCap];
        var i := 0;
        while i < count
          invariant 0 <= i <= count
          invariant grown[..i] == data[..i]
          modifies grown
        {
          grown[i] := data[i];
          i := i + 1;
        }
        data := grown;
        capacity := newCap;
      }
      data[count] := instr;
      count := count + 1;
    }
  }
}
