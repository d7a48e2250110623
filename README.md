# math_sim in Dafny

A model of the core of math_sim, a small 32-bit register machine with a toy
expression front end. A line of arithmetic goes through these stages:

1. The lexer turns it into tokens.
2. A recursive-descent parser builds an AST from them.
3. A tree-walking evaluator computes the AST's value over C `long`s.
4. A code generator compiles the same AST to IR.
5. The CPU executes the IR.
6. The driver compares the CPU's answer with the evaluator's at the 32-bit level.

The model has one module per C source file:

| module | file | what it holds |
|---|---|---|
| `Util` | — | Option and Result wrappers |
| `Alu` | `alu.c` | ripple-carry adder and the four operations with their Z/N/C/V flags |
| `Mem` | `memory.c` | 64 KiB little-endian word memory, a class over a byte array |
| `IR` | `ir.c` | opcodes, instructions, and the growable instruction buffer |
| `Cpu` | `cpu.c` | the step relation and the dispatch loop over a register array |
| `Ast` | `ast.h` | the tree datatype |
| `Eval` | `eval.c` | the evaluator, with C's truncating division |
| `Lexer` | `lexer.c` | the token stream with its one-token look-ahead cache |
| `Parser` | `parser.c` | the three productions |
| `Codegen` | `codegen.c` | the post-order compiler and its register counter |
| `Pipeline` | `main.c` | compiler correctness and the 32-bit cross-check |

Each imperative operation of the source is a method that works on the same
state. Each method is proved against a specification function over values:

| method | proved against |
|---|---|
| `RippleAdd` | `(a + b + cin) mod 2^32` |
| `Memory.WriteWord` | `StoreLE` |
| `Program.Append` | `Contents() + [instr]` |
| `Cpu.Execute` | `Exec`/`Run`/`Step` |
| `TokenStream.Next` | `Scan` and the token list |
| `Parser.ParseExpr` | `Expression` |
| `Codegen.CodegenExpr` | `Compile` |

The lemmas then state what the source promises about those specification
functions.

The main results:

- The CPU run of the code generated for any tree of at most 32 leaves either
  reports the tree's 32-bit value or fails with a division by zero
  (`Pipeline.CompiledProgramResult`).
- For division-free trees, the CPU's answer agrees with the evaluator's
  modulo 2^32 (`Pipeline.CrossCheckHolds`).
- With division, the two can disagree. The CPU divides unsigned words,
  while the evaluator truncates signed longs. For `(1-3)/2` the evaluator
  gives -1 and the CPU gives 0x7FFFFFFF, so the driver's cross-check
  rejects that input (`Pipeline.DivisionCrossCheckFails`).
- Printing a tree with minimal parentheses and parsing it back gives the
  same tree (`Parser.ParseRoundTrip`).
- The lexer reads the decimal numeral of n back as n when n fits a long
  (`Lexer.ScanDecimal`).

## Model

| member | source | states |
|---|---|---|
| Alu.RippleAdd | alu.c:29-55 | The bit-by-bit loop computes `(a + b + carry_in) mod 2^32`. The carry out of bit 31 is 1 exactly when the unsigned sum reaches 2^32. |
| Alu.Add | alu.c:66-78 | alu_add: result `a + b mod 2^32`. Z iff the result is 0. N iff it is negative as signed. C iff the unsigned sum overflows. V iff the signed sum does not fit 32 bits. |
| Alu.AddOverflowRule | alu.c:70-75 | The source's V rule for addition holds exactly when the signed sum of the operands lies outside the 32-bit range. The rule is: equal operand signs and a result sign that differs. |
| Alu.AddSignedExact | alu.c:66-78 | With V clear, the result read as signed is exactly the signed sum. |
| Alu.Sub | alu.c:97-113 | alu_sub, computed as `a + ~b + 1`: result `a - b mod 2^32`. Z and N come from the result. C iff `a >= b` unsigned (no borrow). V iff the signed difference does not fit 32 bits. |
| Alu.SubOverflowRule | alu.c:105-110 | The source's V rule for subtraction holds exactly when the signed difference lies outside the 32-bit range. The rule is: different operand signs and a result sign that differs from a. |
| Alu.SubSignedExact | alu.c:97-113 | With V clear, the result read as signed is exactly the signed difference. |
| Alu.Mul | alu.c:122-133 | alu_mul: the low 32 bits of the product. Z iff the result is 0, N iff it is negative. C and V are always clear. |
| Alu.Div | alu.c:141-151 | alu_div with a non-zero divisor: the unsigned floor quotient, `q*b <= a < (q+1)*b`. Z iff `a < b`, N from the result. C and V are always clear. |
| Alu.ZeroNegativeFlags | alu.c:46-52 | For all four operations, Z is set iff the result is 0 and N equals bit 31 of the result. |
| Mem.CheckAccess | memory.c:24-43 | Unaligned iff `addr % 4 != 0`. The access is accepted iff it is aligned and `addr + 4 <= 65536`. Otherwise it is OutOfBounds. |
| Mem.WrappingTestWouldAdmitTopAddress | memory.c:32-36 | A bounds test computing `addr + 4` in 32-bit arithmetic would accept 0xFFFFFFFC. The source's `addr > MEM_SIZE - 4` test refuses it as OutOfBounds. |
| Mem.StoreLE | memory.c:84-87 | Storing a word sets bytes addr..addr+3 to its four little-endian bytes and leaves every other byte alone. |
| Mem.LoadAfterStore | memory.c:61-89 | Round trip: after storing v at addr, loading from addr gives v. |
| Mem.LoadAfterStoreElsewhere | memory.c:84-87 | A store leaves every word that does not overlap it unchanged. |
| Mem.Memory.Init | memory.c:8-11 | mem_init: every one of the 65536 bytes is 0. |
| Mem.Memory.ReadWord | memory.c:61-74 | mem_read_word: it succeeds iff check_access accepts the address, and otherwise fails with check_access's error. On success the value is the little-endian word at addr. It reads only. |
| Mem.Memory.WriteWord | memory.c:76-89 | mem_write_word returns check_access's verdict. On success the array becomes StoreLE of the old array. On failure it is unchanged. |
| IR.OpcodeName | ir.c:43-59 | Every opcode has a name of at least two characters. None maps to the "???" fallback. |
| IR.OpcodeNameInjective | ir.c:43-58 | Different opcodes have different names. |
| IR.Program.Init | ir.c:11-17 | ir_program_init: count 0, capacity 16, no instructions. |
| IR.Program.Free | ir.c:19-25 | ir_program_free: count 0, capacity 0, no instructions. |
| IR.Program.Append | ir.c:29-39 | Contents become the old contents followed by instr, and count grows by one. A full buffer doubles its capacity and keeps every earlier instruction. A buffer with room keeps its capacity. `count <= capacity` is preserved. |
| Cpu.Step | cpu.c:78-274 | One dispatch keeps the machine well formed, with these frame facts. pc advances by one unless a jump is taken. The flags change only for ADD/SUB/MUL/DIV/CMP. Registers and last_dst change only for instructions that write a register. Memory changes only for STORE. |
| Cpu.Run | cpu.c:69-275 | The loop halts only with pc at count. A fault is reported at the machine as it was before the faulting instruction. |
| Cpu.Exec | cpu.c:43-48 | cpu_execute fails with EmptyProgram exactly when the program has no instructions. |
| Cpu.Report | cpu.c:277-278 | The status is 0 iff the run halted, and a failure carries the run's fault. The result lies in the signed 32-bit range, and its low 32 bits are `regs[last_dst]`. |
| Cpu.Dispatch | cpu.c:78-274 | The switch body does what Step describes to the register array and attached memory. A faulting instruction changes nothing, and the run from the new state is the run from the old one. |
| Cpu.Loop | cpu.c:50-275 | The while loop from zeroed registers, flags, pc and last_dst ends in the machine and outcome that Run describes. The outcome is a halt, a fault, or the step ceiling. |
| Cpu.Execute | cpu.c:43-281 | cpu_execute returns exactly `Report(Exec(program, memory))` and leaves the attached memory as that run leaves it. |
| Cpu.RegisterCheck | cpu.c:12-21 | An instruction traps with RegisterOutOfRange iff one of its register operands is outside R0..R31. The fault names the first such operand: when both dst and src are out of range, it names dst. |
| Cpu.JumpCheck | cpu.c:179-218 | A taken jump traps iff its target is outside [0, count], and otherwise moves pc to the target. A JZ/JNZ that is not taken goes to pc + 1 without checking its target. |
| Cpu.JumpToEndHalts | cpu.c:30-39 | A taken jump to target == count ends the run normally. |
| Cpu.LoadConstEffect | cpu.c:84-92 | LOAD_CONST writes `imm mod 2^32` to dst and makes dst the result register. Flags and all other registers are unchanged. |
| Cpu.ArithEffect | cpu.c:95-158 | ADD/SUB/MUL/DIV with valid registers (and a non-zero divisor) write the ALU result to dst, take the ALU flags and make dst the result register. |
| Cpu.DivisionCheck | cpu.c:140-148 | With valid registers, DIV traps with DivisionByZero iff R[src] is 0, before the ALU is reached. |
| Cpu.CompareIsSubtractWithoutWrite | cpu.c:167-176 | CMP sets the flags as SUB of the same registers would. It writes no register and leaves last_dst alone. |
| Cpu.MemoryAccess | cpu.c:226-264 | With no memory attached, LOAD and STORE trap. A refused address traps with the memory's own error. Otherwise LOAD reads the little-endian word into R[dst], and STORE writes R[src] so that it reads back. |
| Cpu.SelfJumpHitsStepLimit | cpu.c:69-76 | A jump to itself faults with StepLimitExceeded instead of running forever. |
| Cpu.SelfJumpProgramFails | cpu.c:71-75 | The program `0: JMP 0` is rejected after 1,000,000 dispatches. |
| Cpu.RunLoadConst | cpu.c:84-92 | A valid LOAD_CONST continues the run from the machine it leaves, one step later. |
| Cpu.RunArith | cpu.c:95-158 | A valid arithmetic instruction continues the run from the machine with the ALU result and flags. |
| Cpu.RunCmp | cpu.c:167-176 | A valid CMP continues the run with only the flags changed. |
| Cpu.RunTaken | cpu.c:179-218 | A taken jump to a valid target continues the run at the target. |
| Cpu.RunNotTaken | cpu.c:191-218 | A JZ/JNZ that is not taken continues the run at pc + 1. |
| Cpu.RunMemoryFault | cpu.c:226-264 | A LOAD/STORE whose address the memory refuses ends the run with that memory fault. |
| Cpu.RunLoad | cpu.c:226-242 | A LOAD from an accepted address continues the run with the loaded word in R[dst]. |
| Cpu.RunStore | cpu.c:249-264 | A STORE to an accepted address continues the run with the word stored in memory. |
| Cpu.BranchDemoResult | main.c:50-116 | The CMP/JZ program yields 42 when the second operand equals 3 (mod 2^32) and 99 otherwise. |
| Cpu.BranchDemos | main.c:70-105 | The two branch runs of the demo give 42 and 99. |
| Cpu.CountdownLoop | main.c:142-164 | From R0 = k > 0 and R1 = 1, the SUB/JNZ loop goes round k times and halts with R0 = 0 as the result. |
| Cpu.CountdownResult | main.c:151-154 | The countdown program yields 0 for any start 1 <= n within the step ceiling. |
| Cpu.StoreLoadResult | main.c:180-233 | A store to an accepted address followed by a load from it yields the stored word, read as signed. |
| Cpu.StoreLoadDemos | main.c:196-233 | The two store/load runs on a fresh memory give 42 and 0xDEADBEEF. |
| Cpu.UnalignedStoreDemo | main.c:256-261 | A STORE to 0x102 fails as Unaligned and leaves memory untouched. |
| Cpu.OutOfBoundsLoadDemo | main.c:282-285 | A LOAD from 0x10000 fails as OutOfBounds. |
| Ast.SizeLeaves | ast.h:20-33 | A tree of binary nodes has `2 * leaves - 1` nodes. |
| Eval.TruncDiv | eval.c:77 | C's signed `/`: the remainder is smaller than the divisor in magnitude and is zero or has the dividend's sign. |
| Eval.TruncationDiffersFromEuclid | eval.c:77 | The C quotient differs from Dafny's Euclidean one on negative operands: -7 / 2 is -3 against -4. |
| Eval.Evaluate | eval.c:30-92 | eval: every failure carries value 0 and status EVAL_ERR_DIV_ZERO. Overflow and internal errors never arise from a tree. |
| Eval.EvaluateMatchesDenote | eval.c:43-87 | eval succeeds iff no divisor in the tree denotes 0, and then its value is the tree's integer denotation with C division. |
| Eval.DivisionFreeIsDefined | eval.c:59-78 | A tree without division never fails. |
| Eval.LeftErrorShortCircuits | eval.c:50-51 | A failure of the left child is the node's failure, whatever the right child holds. |
| Eval.ZeroDivisorFails | eval.c:72-76 | A divisor that evaluates to 0 makes the division fail with EVAL_ERR_DIV_ZERO. |
| Lexer.StrLen | lexer.c:29 | strlen: the offset of the first NUL, or the whole string when there is none. |
| Lexer.SpaceEnd | lexer.c:17-22 | The whitespace run starting at pos ends at the first non-space character or at len. |
| Lexer.SkipWs | lexer.c:17-22 | skip_ws's loop returns the end of the whitespace run. |
| Lexer.DigitEnd | lexer.c:57-73 | The digit run starting at pos ends at the first non-digit or at len. |
| Lexer.Scan | lexer.c:46-90 | Every token but EOF consumes at least one character, and nothing reaches past len. |
| Lexer.ScanClassifies | lexer.c:46-90 | EOF comes iff only whitespace is left, and then it sits at len. A maximal digit run is NUMBER with its value when that fits a long, and INVALID otherwise, with the whole run consumed either way. Any other character is one token of one character: INVALID unless it is an operator or a parenthesis. |
| Lexer.ScanSkipsSpace | lexer.c:46 | Scanning from inside leading whitespace gives the same token. |
| Lexer.MultiByteCharacter | lexer.c:77-90 | The source is read one byte per element: the two UTF-8 bytes of 'é' are two INVALID tokens at offsets 0 and 1, then EOF at 2. |
| Lexer.ScanDecimal | lexer.c:55-74 | The numeral of n scans back as NUMBER n when n <= LONG_MAX, and as INVALID otherwise, consuming all of it. |
| Lexer.OverflowTest | lexer.c:64 | `value > (LONG_MAX - digit) / 10` holds exactly when `value * 10 + digit > LONG_MAX`. |
| Lexer.Tokens | lexer.c:38-91 | The tokens lexer_next delivers from pos form a list that ends with its only EOF and starts with the scanned token. |
| Lexer.TokensStep | lexer.c:46-49 | Scanning takes one token off the list. At the end of input, EOF stays at len and is returned again. |
| Lexer.TokenStream.Init | lexer.c:26-32 | lexer_init: len is strlen of the source, pos is 0, the cache is empty, and the remaining tokens are those of the whole source. |
| Lexer.TokenStream.Next | lexer.c:38-91 | lexer_next returns the first remaining token and consumes it (EOF is never consumed). With a full cache it returns the cached token without moving pos and clears the cache. Otherwise it returns the scanned token and its end position. pos never decreases or passes len. |
| Lexer.TokenStream.ScanToken | lexer.c:46-90 | With an empty cache, the scanning branch yields exactly the token and end position of Scan. |
| Lexer.TokenStream.ScanNumber | lexer.c:55-74 | The overflow-checked digit loop yields the token and end of Scan: the number, or INVALID after draining the run. |
| Lexer.TokenStream.SkipDigits | lexer.c:67-68 | The drain loop stops at the end of the digit run. |
| Lexer.TokenStream.Peek | lexer.c:93-100 | lexer_peek returns the token lexer_next will return and leaves the remaining tokens unchanged. With a full cache it changes nothing, so repeated peeks agree. pos never decreases or passes len. |
| Parser.Parse | parser.c:140-154 | A tree is returned only when the token after the expression is EOF. |
| Parser.SyntaxErrors | parser.c:52-69 | A factor that starts with neither a number nor '(' fails and consumes that token. A missing ')' fails. An expression followed by anything but EOF is refused. |
| Parser.EmptyInputRejected | parser.c:66-69 | Input that is only EOF does not parse. |
| Parser.ParseRoundTrip | parser.c:78-154 | Every tree printed with minimal parentheses parses back to the same tree. |
| Parser.ExprRoundTrip | parser.c:108-130 | A printed expression followed by a token that cannot continue it parses back to itself and stops at that token. |
| Parser.LeftAssociative | parser.c:85-97 | `a-b-c` parses as `(a-b)-c`, and `a/b/c` as `(a/b)/c`. |
| Parser.Precedence | parser.c:78-130 | `*` binds tighter than `+` on either side, and parentheses override it. |
| Parser.Parser.Init | parser.c:134-138 | parser_init: bound to the stream with the error flag clear. |
| Parser.Parser.Expect | parser.c:23-33 | expect consumes the next token whatever it is, and sets the error flag iff its type is not the expected one. |
| Parser.Parser.ParseFactor | parser.c:46-70 | With the flag already set, it returns NULL, consumes nothing, and the flag stays set. Otherwise it returns what Factor computes on the remaining tokens and consumes what Factor consumes, and the flag is set iff the result is NULL. |
| Parser.Parser.ParseTerm | parser.c:78-100 | The same for Term. |
| Parser.Parser.TermLoop | parser.c:85-97 | The `*`/`/` loop folds factors into the left operand exactly as TermRest does. |
| Parser.Parser.ParseExpr | parser.c:108-130 | The same as ParseFactor, for Expression. |
| Parser.Parser.ExprLoop | parser.c:115-127 | The `+`/`-` loop folds terms into the left operand exactly as ExprRest does. |
| Parser.Parser.ParseAll | parser.c:140-154 | parser_parse returns what Parse computes, and the error flag is set iff it returns NULL. With the flag already set, it returns NULL without reading the stream. |
| Codegen.OpToIR | codegen.c:24-35 | Every operator maps to an arithmetic opcode. |
| Codegen.OpToIRNames | codegen.c:26-31 | ADD→IR_ADD, SUB→IR_SUB, MUL→IR_MUL, DIV→IR_DIV. |
| Codegen.Compile | codegen.c:39-94 | The emitted code has one instruction per tree node. |
| Codegen.CompileRegisters | codegen.c:48-88 | Every instruction writes a register in `base .. base + leaves - 1`. Every operator reads a register above the one it writes. The last instruction writes base, the register returned for the root. |
| Codegen.CompileLoads | codegen.c:48-62 | The code holds exactly one LOAD_CONST per leaf. |
| Codegen.Codegen.Init | codegen.c:8-12 | codegen_init: bound to the program, with next_reg 0. |
| Codegen.Codegen.AllocReg | codegen.c:17-20 | alloc_reg returns next_reg and advances it by one. |
| Codegen.Codegen.CodegenExpr | codegen.c:39-94 | The program grows by `Compile(e, old next_reg)` and next_reg grows by the number of leaves. The returned register is the first one allocated. A leaf emits one LOAD_CONST into it. A binary node emits the left code, then the right code, then `op left_reg, right_reg`. |
| Codegen.Codegen.CodegenBinary | codegen.c:64-89 | The binary case: left operand, right operand, then the operator with dst = left register and src = right register. It returns the left register. |
| Pipeline.WordValue | main.c:356-362 | A division-free tree always has a 32-bit value. |
| Pipeline.RunSegment | codegen.c:39-94 | Running a tree's code from anywhere in a program does one of two things. Either it faults with DivisionByZero, or after one step per node it has put the tree's 32-bit value in R[base]. Registers below base and memory are kept. |
| Pipeline.CompiledProgramResult | main.c:351-367 | For a tree of at most 32 leaves, the generated program reports the tree's 32-bit value read as signed, or fails with DivisionByZero. |
| Pipeline.WordValueOfDivisionFree | main.c:369-370 | Without division, the 32-bit value is the evaluator's value truncated to 32 bits. |
| Pipeline.CrossCheckHolds | main.c:369-376 | For a division-free tree of at most 32 leaves, eval succeeds, the CPU run succeeds, and the two agree modulo 2^32. |
| Pipeline.DivisionCrossCheckFails | main.c:369-376 | For `(1-3)/2`, eval gives -1 and the CPU gives 0x7FFFFFFF, so the cross-check fails. |
| Pipeline.CompileAndExecute | main.c:351-362 | Compile into a fresh program and run with no memory: the status and result are those of the generated code. |

## Left out

- All `printf`/`fprintf` trace and error output and the message text are left out. So are `alu_flags_str`, `ir_program_dump`, `token_type_name` and `ast_dump`. Errors are modelled as kinds (Fault, MemError, EvalStatus, the parser's error flag).
- `main.c`'s I/O is left out: fgets, newline stripping, the lexer probe loop and exit codes. Its demo programs appear as lemmas on concrete programs.
- malloc/realloc failure and the `exit(EXIT_FAILURE)` paths in `ir.c`, `codegen.c` and `ast.c` are left out. `ast.c`'s allocation and `ast_free` are replaced by the `Expr` datatype. The parser's `ast_free` on error paths has no counterpart.
- Unreachable cases have no counterpart:
  - a NULL node in `eval` and `codegen_expr` (EVAL_ERR_INTERNAL);
  - an unknown node type or operator;
  - the CPU's unknown-opcode default branch.

  The datatypes cannot express them.
- NULL-pointer checks of a program or memory pointer are not modelled: `mem_read_word`/`mem_write_word` on a NULL memory, and a NULL program or result pointer in `cpu_execute`. The CPU's own "no memory attached" case is modelled.
- Eval.Evaluate: uses mathematical integers, so signed `long` overflow in eval (undefined behaviour in the source) is not modelled, and EVAL_ERR_OVERFLOW is never produced.
- Codegen.Codegen.CodegenExpr: next_reg is an unbounded integer, so C `int` overflow of the counter is not modelled. The method requires a program with non-zero capacity, as IR.Program.Append does.
- IR.Program.Append: requires a non-zero capacity. After `ir_program_free` the source would double 0 to 0 and write past the buffer, and no caller does that.
- Cpu.Execute: takes the program's contents as one snapshot before the loop. The source reads `prog->data` on every fetch, but nothing writes the program during a run.
- Pipeline.CrossCheckHolds: covers only division-free trees of at most 32 leaves. With division, the unsigned CPU DIV and the signed evaluator can disagree, as Pipeline.DivisionCrossCheckFails shows. With more than 32 leaves, the generated code names registers beyond R31, which the CPU refuses.
- The lexer's source text is a sequence of `CChar`, one element per C byte (0 .. 255). No character encoding is decoded.
- The lexer's `Token.value` is an unbounded integer. Only values up to LONG_MAX (2^63 - 1) are produced.
