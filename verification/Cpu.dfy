// Execution: what each instruction does, one instruction, and runs of instructions between traps.
module Cpu {
  import opened Codec
  import opened Paging
  import opened Multiply
  import opened Words
  import opened Instructions
  import opened Machines

  const R31 := 31

  /** IndexToAddr. */
  function IndexToAddr(x: int32): int32 {
    Wrap(x * 4)
  }

  /** The program counter after the next, unless there is a branch. */
  function Sequential(r: Regs): int32 {
    Plus(r[NEXT_PC_REG], 4)
  }

  /** What an instruction does if it traps, and if it does not: what it writes at once, the load it leaves
      pending, and where it goes. */
  datatype Effect =
    | Trap(which: ExceptionType, badVAddr: int32, pt: seq<Pte>)
    | Act(regs: Regs, loadReg: RegNum, loadValue: int32, pcAfter: int32, m: Memory, pt: seq<Pte>)

  // ---- computing -----------------------------------------------------------------------------------------

  predicate Immediate(op: Op) {
    op in {ADDI, ADDIU, ANDI, LUI, ORI, SLTI, SLTIU, XORI}
  }

  predicate Register(op: Op) {
    op in {ADD, ADDU, AND, MFHI, MFLO, NOR, OR, SLL, SLLV, SLT, SLTU, SRA, SRAV, SRL, SRLV, SUB, SUBU, XOR}
  }

  predicate Computing(op: Op) {
    Immediate(op) || Register(op)
  }

  /** The value an operation gives, apart from traps. */
  function Result(op: Op, s: int32, t: int32, x: int32, hi: int32, lo: int32): int32
    requires Computing(op)
  {
    match op
    case ADDI | ADDIU => Plus(s, x)
    case ANDI => Logical(Both, s, x % 0x10000)
    case LUI => Wrap(x * 0x10000)
    case ORI => Logical(Either, s, x % 0x10000)
    case SLTI => if s < x then 1 else 0
    case SLTIU => if Unsigned(s) < Unsigned(x) then 1 else 0
    case XORI => Logical(Differ, s, x % 0x10000)
    case ADD | ADDU => Plus(s, t)
    case AND => Logical(Both, s, t)
    case MFHI => hi
    case MFLO => lo
    case NOR => Logical(Neither, s, t)
    case OR => Logical(Either, s, t)
    case SLL => ShiftLeft(t, x % 32)
    case SLLV => ShiftLeft(t, s % 32)
    case SLT => if s < t then 1 else 0
    case SLTU => if Unsigned(s) < Unsigned(t) then 1 else 0
    case SRA | SRL => ShiftRight(t, x % 32)
    case SRAV | SRLV => ShiftRight(t, s % 32)
    case SUB | SUBU => Minus(s, t)
    case XOR => Logical(Differ, s, t)
  }

  function ResultOf(i: Decoded, r: Regs): int32
    requires Computing(i.op)
  {
    Result(i.op, r[i.rs], r[i.rt], i.extra, r[HI_REG], r[LO_REG])
  }

  /** ADD, ADDI and SUB trap exactly when the true sum or difference is no int. */
  predicate Overflows(i: Decoded, r: Regs) {
    match i.op
    case ADD => !(INT_MIN <= r[i.rs] as int + r[i.rt] as int <= INT_MAX)
    case ADDI => !(INT_MIN <= r[i.rs] as int + i.extra as int <= INT_MAX)
    case SUB => !(INT_MIN <= r[i.rs] as int - r[i.rt] as int <= INT_MAX)
    case _ => false
  }

  function Computed(i: Decoded, r: Regs, m: Memory, pt: seq<Pte>): Effect
    requires Computing(i.op)
  {
    if Overflows(i, r) then Trap(OverflowException, 0, pt)
    else Act(r[if Immediate(i.op) then i.rt else i.rd := ResultOf(i, r)], 0, 0, Sequential(r), m, pt)
  }

  method ComputeImmediate(machine: Machine, i: Decoded) returns (ok: bool)
    requires machine.Valid() && 0 <= machine.registers[LOAD_REG] < 32 && Immediate(i.op)
    modifies machine`handling, machine.registers
    ensures ok <==> !Overflows(i, old(machine.registers[..]))
    ensures ok ==> machine.registers[..] == old(machine.registers[..])[i.rt := ResultOf(i, old(machine.registers[..]))]
    ensures ok ==> machine.handling == old(machine.handling)
    ensures !ok ==> machine.Trapped(old(machine.registers[..]), OverflowException, 0)
  {
    hide Logical, Wrap, Plus, Minus, Unsigned;
    var registers := machine.registers;
    var value: int32;
    match i.op {
      case ADDI =>
        var sum := Plus(registers[i.rs], i.extra);
        AddTest(i.extra, registers[i.rs]);
        PlusSwap(registers[i.rs], i.extra);
        LogicalSwap(registers[i.rs], i.extra);
        if !(Logical(Differ, registers[i.rs], i.extra) < 0) && Logical(Differ, i.extra, sum) < 0 {
          machine.RaiseException(OverflowException, 0);
          return false;
        }
        value := sum;
      case ADDIU => value := Plus(registers[i.rs], i.extra);
      case ANDI => value := Logical(Both, registers[i.rs], i.extra % 0x10000);
      case LUI => value := Wrap(i.extra * 0x10000);
      case ORI => value := Logical(Either, registers[i.rs], i.extra % 0x10000);
      case SLTI => value := if registers[i.rs] < i.extra then 1 else 0;
      case SLTIU => value := if Unsigned(registers[i.rs]) < Unsigned(i.extra) then 1 else 0;
      case XORI => value := Logical(Differ, registers[i.rs], i.extra % 0x10000);
    }
    registers[i.rt] := value;
    return true;
  }

  lemma PlusSwap(a: int32, b: int32)
    ensures Plus(a, b) == Plus(b, a)
  {
  }

  lemma LogicalSwap(a: int32, b: int32)
    ensures Logical(Differ, a, b) < 0 <==> Logical(Differ, b, a) < 0
  {
    LogicalSign(Differ, a, b);
    LogicalSign(Differ, b, a);
  }

  method ComputeRegister(machine: Machine, i: Decoded) returns (ok: bool)
    requires machine.Valid() && 0 <= machine.registers[LOAD_REG] < 32 && Register(i.op)
    modifies machine`handling, machine.registers
    ensures ok <==> !Overflows(i, old(machine.registers[..]))
    ensures ok ==> machine.registers[..] == old(machine.registers[..])[i.rd := ResultOf(i, old(machine.registers[..]))]
    ensures ok ==> machine.handling == old(machine.handling)
    ensures !ok ==> machine.Trapped(old(machine.registers[..]), OverflowException, 0)
  {
    hide Logical, Wrap, Plus, Minus, Unsigned, ShiftLeft, ShiftRight;
    var registers := machine.registers;
    var value: int32;
    match i.op {
      case ADD =>
        var sum := Plus(registers[i.rs], registers[i.rt]);
        AddTest(registers[i.rs], registers[i.rt]);
        if !(Logical(Differ, registers[i.rs], registers[i.rt]) < 0) && Logical(Differ, registers[i.rs], sum) < 0 {
          machine.RaiseException(OverflowException, 0);
          return false;
        }
        value := sum;
      case ADDU => value := Plus(registers[i.rs], registers[i.rt]);
      case AND => value := Logical(Both, registers[i.rs], registers[i.rt]);
      case MFHI => value := registers[HI_REG];
      case MFLO => value := registers[LO_REG];
      case NOR => value := Logical(Neither, registers[i.rs], registers[i.rt]);
      case OR => value := Logical(Either, registers[i.rs], registers[i.rt]);
      case SLL => value := ShiftLeft(registers[i.rt], i.extra % 32);
      case SLLV => value := ShiftLeft(registers[i.rt], registers[i.rs] % 32);
      case SLT => value := if registers[i.rs] < registers[i.rt] then 1 else 0;
      case SLTU => value := if Unsigned(registers[i.rs]) < Unsigned(registers[i.rt]) then 1 else 0;
      case SRA => value := ShiftRight(registers[i.rt], i.extra % 32);
      case SRAV => value := ShiftRight(registers[i.rt], registers[i.rs] % 32);
      case SRL =>
        var tmp := registers[i.rt];
        value := ShiftRight(tmp, i.extra % 32);
      case SRLV =>
        var tmp := registers[i.rt];
        value := ShiftRight(tmp, registers[i.rs] % 32);
      case SUB =>
        var diff := Minus(registers[i.rs], registers[i.rt]);
        SubTest(registers[i.rs], registers[i.rt]);
        if Logical(Differ, registers[i.rs], registers[i.rt]) < 0 && Logical(Differ, registers[i.rs], diff) < 0 {
          machine.RaiseException(OverflowException, 0);
          return false;
        }
        value := diff;
      case SUBU => value := Minus(registers[i.rs], registers[i.rt]);
      case XOR => value := Logical(Differ, registers[i.rs], registers[i.rt]);
    }
    registers[i.rd] := value;
    return true;
  }

  // ---- multiplication and division -----------------------------------------------------------------------

  predicate Multiplying(op: Op) {
    op in {DIV, DIVU, MULT, MULTU, MTHI, MTLO}
  }

  /** Hi and Lo afterwards. */
  function HiLo(i: Decoded, r: Regs): (int32, int32)
    requires Multiplying(i.op) && Defined(i, r)
  {
    var s, t := r[i.rs], r[i.rt];
    match i.op
    case DIV => if t == 0 then (0, 0) else QuotientInt(s, t); RemainderSmall(s, t); (Mod(s, t), Div(s, t))
    case DIVU =>
      if t == 0 then (0, 0)
      else Quotient(Unsigned(s), Unsigned(t)); (AsInt(Unsigned(s) % Unsigned(t)), AsInt(Unsigned(s) / Unsigned(t)))
    case MULT => (Wrap(s as int * t as int / W), Wrap(s as int * t as int))
    case MULTU => (Wrap(Unsigned(s) * Unsigned(t) / W), Wrap(Unsigned(s) * Unsigned(t)))
    case MTHI => (s, r[LO_REG])
    case MTLO => (r[HI_REG], s)
  }

  /** What the simulator is defined on: the host's own division does not overflow, and, as an ASSERT demands,
      LWL, LWR, SWL and SWR are used on whole words only. */
  predicate Defined(i: Decoded, r: Regs) {
    && (i.op == DIV ==> !(r[i.rs] == INT_MIN && r[i.rt] == -1))
    && (i.op in {LWL, LWR, SWL, SWR} ==> Plus(r[i.rs], i.extra) % 4 == 0)
  }

  method MultiplyDivide(machine: Machine, i: Decoded)
    requires machine.Valid() && Multiplying(i.op) && Defined(i, machine.registers[..])
    modifies machine.registers
    ensures machine.registers[..] ==
      (var (hi, lo) := HiLo(i, old(machine.registers[..])); old(machine.registers[..])[HI_REG := hi][LO_REG := lo])
  {
    hide Wrap, AsInt, Div, Mod, Abs;
    var registers := machine.registers;
    match i.op {
      case DIV =>
        if registers[i.rt] == 0 {
          registers[LO_REG] := 0;
          registers[HI_REG] := 0;
        } else {
          QuotientInt(registers[i.rs], registers[i.rt]);
          RemainderSmall(registers[i.rs], registers[i.rt]);
          var s, t := registers[i.rs], registers[i.rt];
          registers[LO_REG] := Div(s, t);
          registers[HI_REG] := Mod(s, t);
        }
      case DIVU =>
        var rs, rt := Unsigned(registers[i.rs]), Unsigned(registers[i.rt]);
        if rt == 0 {
          registers[LO_REG] := 0;
          registers[HI_REG] := 0;
        } else {
          Quotient(rs, rt);
          registers[LO_REG] := AsInt(rs / rt);
          registers[HI_REG] := AsInt(rs % rt);
        }
      case MULT =>
        var hi, lo := Mult(registers[i.rs], registers[i.rt], true);
        SignedWords(registers[i.rs] as int * registers[i.rt] as int, hi, lo);
        registers[HI_REG], registers[LO_REG] := hi, lo;
      case MULTU =>
        var hi, lo := Mult(registers[i.rs], registers[i.rt], false);
        UnsignedWords(Unsigned(registers[i.rs]) * Unsigned(registers[i.rt]), hi, lo);
        registers[HI_REG], registers[LO_REG] := hi, lo;
      case MTHI => registers[HI_REG] := registers[i.rs];
      case MTLO => registers[LO_REG] := registers[i.rs];
    }
  }

  lemma SignedWords(p: int, hi: int32, lo: int32)
    requires hi * W + Unsigned(lo) == p
    ensures hi == Wrap(p / W) && lo == Wrap(p)
  {
  }

  lemma UnsignedWords(p: int, hi: int32, lo: int32)
    requires Unsigned(hi) * W + Unsigned(lo) == p
    ensures hi == Wrap(p / W) && lo == Wrap(p)
  {
  }

  // ---- branches and jumps ------------------------------------------------------------------------------------

  predicate Branching(op: Op) {
    op in {BEQ, BGEZ, BGEZAL, BGTZ, BLEZ, BLTZ, BLTZAL, BNE, J, JAL, JALR, JR}
  }

  /** The register that gets the return address, if any. */
  function Link(i: Decoded): int {
    match i.op
    case BGEZAL | BLTZAL | JAL => R31
    case JALR => i.rd
    case _ => -1
  }

  function Linked(i: Decoded, r: Regs): Regs {
    if Link(i) < 0 then r else r[Link(i) := Sequential(r)]
  }

  /** Where to go; the condition is looked at after the return address has been written. */
  function Destination(i: Decoded, r: Regs): int32
    requires Branching(i.op)
  {
    var target := Plus(r[NEXT_PC_REG], IndexToAddr(i.extra));
    match i.op
    case BEQ => if r[i.rs] == r[i.rt] then target else Sequential(r)
    case BNE => if r[i.rs] != r[i.rt] then target else Sequential(r)
    case BGEZ | BGEZAL => if r[i.rs] >= 0 then target else Sequential(r)
    case BLTZ | BLTZAL => if r[i.rs] < 0 then target else Sequential(r)
    case BGTZ => if r[i.rs] > 0 then target else Sequential(r)
    case BLEZ => if r[i.rs] <= 0 then target else Sequential(r)
    case J | JAL => Wrap(Unsigned(Sequential(r)) / 0x10000000 * 0x10000000 + i.extra * 4 % 0x10000000)
    case JALR | JR => r[i.rs]
  }

  method Branch(machine: Machine, i: Decoded) returns (pcAfter: int32)
    requires machine.Valid() && Branching(i.op)
    modifies machine.registers
    ensures machine.registers[..] == Linked(i, old(machine.registers[..]))
    ensures pcAfter == Destination(i, machine.registers[..])
  {
    hide Wrap, Plus, Unsigned;
    var registers := machine.registers;
    pcAfter := Plus(registers[NEXT_PC_REG], 4);
    var target := Plus(registers[NEXT_PC_REG], IndexToAddr(i.extra));
    match i.op {
      case BEQ => if registers[i.rs] == registers[i.rt] { pcAfter := target; }
      case BNE => if registers[i.rs] != registers[i.rt] { pcAfter := target; }
      case BGEZAL =>
        registers[R31] := Plus(registers[NEXT_PC_REG], 4);
        if !(registers[i.rs] < 0) { pcAfter := target; }
      case BGEZ => if !(registers[i.rs] < 0) { pcAfter := target; }
      case BGTZ => if registers[i.rs] > 0 { pcAfter := target; }
      case BLEZ => if registers[i.rs] <= 0 { pcAfter := target; }
      case BLTZAL =>
        registers[R31] := Plus(registers[NEXT_PC_REG], 4);
        if registers[i.rs] < 0 { pcAfter := target; }
      case BLTZ => if registers[i.rs] < 0 { pcAfter := target; }
      case JAL =>
        registers[R31] := Plus(registers[NEXT_PC_REG], 4);
        pcAfter := Wrap(Unsigned(pcAfter) / 0x10000000 * 0x10000000 + i.extra * 4 % 0x10000000);
      case J => pcAfter := Wrap(Unsigned(pcAfter) / 0x10000000 * 0x10000000 + i.extra * 4 % 0x10000000);
      case JALR =>
        registers[i.rd] := Plus(registers[NEXT_PC_REG], 4);
        pcAfter := registers[i.rs];
      case JR => pcAfter := registers[i.rs];
    }
  }

  // ---- loads ---------------------------------------------------------------------------------------------------

  predicate Loading(op: Op) {
    op in {LB, LBU, LH, LHU, LW, LWL, LWR}
  }

  function LoadSize(op: Op): int {
    if op in {LB, LBU} then 1 else if op in {LH, LHU} then 2 else 4
  }

  /** What a load makes of the value read; `now` is what the target holds or is about to. */
  function Extended(op: Op, value: int32, now: int32): int32 {
    match op
    case LB => if value % 0x100 >= 0x80 then value % 0x100 - 0x100 else value % 0x100
    case LBU => value % 0x100
    case LH => if value % 0x10000 >= 0x8000 then value % 0x10000 - 0x10000 else value % 0x10000
    case LHU => value % 0x10000
    case LWR => Wrap(Unsigned(now) / 0x100 * 0x100 + Unsigned(value) / 0x1000000)
    case _ => value
  }

  function Pending(r: Regs, reg: RegNum): int32 {
    if r[LOAD_REG] == reg then r[LOAD_VALUE_REG] else r[reg]
  }

  function Loaded(i: Decoded, r: Regs, m: Memory, pt: seq<Pte>): Effect
    requires Loading(i.op)
  {
    var addr := Plus(r[i.rs], i.extra);
    match Reading(m, pt, addr, LoadSize(i.op))
    case Fault(e) => Trap(e, addr, pt)
    case Got(value, after) => Act(r, i.rt, Extended(i.op, value, Pending(r, i.rt)), Sequential(r), m, after)
  }

  /** The checks and the read of a load from `tmp`. */
  method ReadOperand(machine: Machine, op: Op, tmp: int32) returns (ok: bool, value: int32)
    requires machine.Valid() && 0 <= machine.registers[LOAD_REG] < 32 && Loading(op)
    modifies machine`handling, machine.registers, machine.pageTable
    ensures match Reading(machine.Memory(), old(machine.pageTable[..]), tmp, LoadSize(op))
      case Fault(e) => !ok && machine.Trapped(old(machine.registers[..]), e, tmp)
        && machine.pageTable[..] == old(machine.pageTable[..])
      case Got(v, pt) =>
        && ok && value == v && machine.pageTable[..] == pt
        && machine.registers[..] == old(machine.registers[..]) && machine.handling == old(machine.handling)
  {
    hide Reading, Raised;
    value := 0;
    if op == LB || op == LBU {
      ok, value := machine.ReadMem(tmp, 1);
    } else if op == LH || op == LHU {
      if tmp % 2 != 0 {
        Misaligned(machine.Memory(), machine.pageTable[..], tmp, 2);
        machine.RaiseException(AddressErrorException, tmp);
        return false, value;
      }
      ok, value := machine.ReadMem(tmp, 2);
    } else {
      if op == LW && tmp % 4 != 0 {
        Misaligned(machine.Memory(), machine.pageTable[..], tmp, 4);
        machine.RaiseException(AddressErrorException, tmp);
        return false, value;
      }
      ok, value := machine.ReadMem(tmp, 4);
    }
  }

  /** A trap, or the pending load that the instruction leaves. */
  method LoadMemory(machine: Machine, i: Decoded) returns (ok: bool, nextLoadReg: RegNum, nextLoadValue: int32)
    requires machine.Valid() && 0 <= machine.registers[LOAD_REG] < 32 && Loading(i.op)
             && Defined(i, machine.registers[..])
    modifies machine`handling, machine.registers, machine.pageTable
    ensures match Loaded(i, old(machine.registers[..]), machine.Memory(), old(machine.pageTable[..]))
      case Trap(e, bad, pt) => !ok && machine.Trapped(old(machine.registers[..]), e, bad) && machine.pageTable[..] == pt
      case Act(regs, reg, value, _, _, pt) =>
        && ok && nextLoadReg == reg && nextLoadValue == value
        && machine.registers[..] == regs && machine.pageTable[..] == pt && machine.handling == old(machine.handling)
  {
    hide Wrap, Plus, Unsigned, Reading, Raised;
    var registers := machine.registers;
    var value: int32;
    ok, value := ReadOperand(machine, i.op, Plus(registers[i.rs], i.extra));
    if !ok {
      return ok, 0, 0;
    }
    match i.op {
      case LB => value := if value % 0x100 >= 0x80 then value % 0x100 - 0x100 else value % 0x100;
      case LBU => value := value % 0x100;
      case LH => value := if value % 0x10000 >= 0x8000 then value % 0x10000 - 0x10000 else value % 0x10000;
      case LHU => value := value % 0x10000;
      case LW | LWL =>
      case LWR =>
        var now := if registers[LOAD_REG] == i.rt then registers[LOAD_VALUE_REG] else registers[i.rt];
        value := Wrap(Unsigned(now) / 0x100 * 0x100 + Unsigned(value) / 0x1000000);
    }
    return true, i.rt, value;
  }

  lemma Misaligned(m: Memory, pt: seq<Pte>, addr: int32, size: int)
    requires size in {2, 4} && addr % size != 0
    ensures Reading(m, pt, addr, size) == Fault(AddressErrorException)
  {
  }

  // ---- stores -----------------------------------------------------------------------------------------------------

  predicate Storing(op: Op) {
    op in {SB, SH, SW, SWL, SWR}
  }

  function StoreSize(op: Op): int {
    if op == SB then 1 else if op == SH then 2 else 4
  }

  function Stored(i: Decoded, r: Regs, m: Memory, pt: seq<Pte>): Effect
    requires Storing(i.op)
  {
    var addr, t := Plus(r[i.rs], i.extra), r[i.rt];
    if i.op in {SWL, SWR} then
      match Reading(m, pt, addr, 4)
      case Fault(e) => Trap(e, addr, pt)
      case Got(value, read) => Written(i, r, m, read, addr, if i.op == SWL then t else TopByte(value, t))
    else
      Written(i, r, m, pt, addr, t)
  }

  function TopByte(value: int32, t: int32): int32 {
    Wrap(Unsigned(value) % 0x1000000 + t % 0x100 * 0x1000000)
  }

  function Written(i: Decoded, r: Regs, m: Memory, pt: seq<Pte>, addr: int32, value: int32): Effect
    requires Storing(i.op)
  {
    match Writing(m, pt, addr, StoreSize(i.op), value)
    case Fault(e) => Trap(e, addr, pt)
    case Put(n, after) => Act(r, 0, 0, Sequential(r), n, after)
  }

  method StoreMemory(machine: Machine, i: Decoded) returns (ok: bool)
    requires machine.Valid() && 0 <= machine.registers[LOAD_REG] < 32 && Storing(i.op)
             && Defined(i, machine.registers[..])
    modifies machine`handling, machine.registers, machine.mainMemory, machine.pageTable
    ensures match Stored(i, old(machine.registers[..]), old(machine.Memory()), old(machine.pageTable[..]))
      case Trap(e, bad, pt) =>
        !ok && machine.Trapped(old(machine.registers[..]), e, bad) && machine.pageTable[..] == pt
        && machine.Memory() == old(machine.Memory())
      case Act(regs, _, _, _, m, pt) =>
        && ok && machine.registers[..] == regs && machine.Memory() == m && machine.pageTable[..] == pt
        && machine.handling == old(machine.handling)
  {
    hide Wrap, Plus, Unsigned, Reading, Writing, Raised;
    var registers := machine.registers;
    var tmp := Plus(registers[i.rs], i.extra);
    if i.op == SB {
      ok := machine.WriteMem(tmp, 1, registers[i.rt]);
    } else if i.op == SH {
      ok := machine.WriteMem(tmp, 2, registers[i.rt]);
    } else if i.op == SW {
      ok := machine.WriteMem(tmp, 4, registers[i.rt]);
    } else {
      var value;
      ok, value := machine.ReadMem(tmp, 4);
      if ok {
        if i.op == SWL {
          value := registers[i.rt];
        } else {
          value := TopByte(value, registers[i.rt]);
        }
        ok := machine.WriteMem(tmp, 4, value);
      }
    }
  }

  // ---- one instruction --------------------------------------------------------------------------------------------

  function EffectOf(i: Decoded, r: Regs, m: Memory, pt: seq<Pte>): Effect
    requires Executable(i.op) && Defined(i, r)
  {
    if Computing(i.op) then Computed(i, r, m, pt)
    else if Multiplying(i.op) then
      var (hi, lo) := HiLo(i, r);
      Act(r[HI_REG := hi][LO_REG := lo], 0, 0, Sequential(r), m, pt)
    else if Branching(i.op) then
      Act(Linked(i, r), 0, 0, Destination(i, Linked(i, r)), m, pt)
    else if Loading(i.op) then Loaded(i, r, m, pt)
    else if Storing(i.op) then Stored(i, r, m, pt)
    else if i.op == SYSCALL then Trap(SyscallException, 0, pt)
    else Trap(IllegalInstrException, 0, pt)
  }

  datatype State = State(r: Regs, m: Memory, pt: seq<Pte>)

  /** The program counters move on. */
  function Advanced(r: Regs, pcAfter: int32): Regs {
    r[PREV_PC_REG := r[PC_REG]][PC_REG := r[NEXT_PC_REG]][NEXT_PC_REG := pcAfter]
  }

  function Finished(s: State, e: Effect): State
    requires 0 <= s.r[LOAD_REG] < 32 && (e.Act? ==> e.regs[LOAD_REG] == s.r[LOAD_REG])
  {
    match e
    case Trap(_, bad, pt) => State(Raised(s.r, bad), s.m, pt)
    case Act(regs, loadReg, loadValue, pcAfter, m, pt) => State(Advanced(Delayed(regs, loadReg, loadValue), pcAfter),
      m, pt)
  }

  /** The instruction, and the page table once it has been fetched; or the trap of the fetch. */
  function Fetched(s: State): Access {
    Reading(s.m, s.pt, s.r[PC_REG], 4)
  }

  predicate Runnable(s: State) {
    match Fetched(s)
    case Got(raw, _) => Defined(DecodedOf(Unsigned(raw)), s.r)
    case Fault(_) => true
  }

  /** What one instruction comes to, before the kernel's handler gets to work if it traps. */
  function StepEffect(s: State): Effect
    requires Runnable(s)
  {
    match Fetched(s)
    case Fault(e) => Trap(e, s.r[PC_REG], s.pt)
    case Got(raw, pt) => DecodeExecutable(Unsigned(raw)); EffectOf(DecodedOf(Unsigned(raw)), s.r, s.m, pt)
  }

  /** No instruction writes the program counters or the load registers itself. */
  predicate KeepsControl(r: Regs, e: Effect) {
    e.Act? ==> forall k :: k in {PC_REG, NEXT_PC_REG, LOAD_REG, LOAD_VALUE_REG} ==> e.regs[k] == r[k]
  }

  lemma EffectKeepsControl(i: Decoded, r: Regs, m: Memory, pt: seq<Pte>)
    requires Executable(i.op) && Defined(i, r)
    ensures KeepsControl(r, EffectOf(i, r, m, pt))
  {
    hide ResultOf, HiLo, Destination, Reading, Writing, Sequential, Extended, TopByte, Plus;
  }

  lemma StepKeepsControl(s: State)
    requires Runnable(s)
    ensures KeepsControl(s.r, StepEffect(s))
  {
    hide EffectOf, Reading, Defined;
    match Fetched(s)
    case Got(raw, pt) =>
      DecodeExecutable(Unsigned(raw));
      EffectKeepsControl(DecodedOf(Unsigned(raw)), s.r, s.m, pt);
    case Fault(_) =>
  }

  function Step(s: State): State
    requires 0 <= s.r[LOAD_REG] < 32 && Runnable(s)
  {
    StepKeepsControl(s);
    Finished(s, StepEffect(s))
  }

  /** OneInstruction, up to the call of the kernel's handler if there is a trap. */
  method OneInstruction(machine: Machine, instr: Instruction)
    requires machine.Valid() && machine.Ready()
    requires Runnable(Now(machine))
    modifies machine`handling, machine.registers, machine.mainMemory, machine.pageTable, instr
    ensures Now(machine) == Step(old(Now(machine)))
    ensures machine.handling == if StepEffect(old(Now(machine))).Trap? then StepEffect(old(Now(machine))).which
            else NoException
  {
    ghost var s := Now(machine);
    hide Reading, EffectOf, DecodedOf, Executable, Defined, Delayed, Raised, OpTable, Unsigned;
    var registers := machine.registers;
    var ok, raw := machine.ReadMem(registers[PC_REG], 4);
    if !ok {
      return;
    }
    instr.value := Unsigned(raw);
    instr.Decode();
    var i := instr.Fields();
    ghost var pt := machine.pageTable[..];
    StepKeepsControl(s);
    var nextLoadReg, nextLoadValue, pcAfter;
    ok, nextLoadReg, nextLoadValue, pcAfter := Execute(machine, i);
    if !ok {
      return;
    }
    ghost var e := StepEffect(s);
    machine.DelayedLoad(nextLoadReg, nextLoadValue);
    registers[PREV_PC_REG] := registers[PC_REG];
    registers[PC_REG] := registers[NEXT_PC_REG];
    registers[NEXT_PC_REG] := pcAfter;
    assert registers[..] == Advanced(Delayed(e.regs, e.loadReg, e.loadValue), pcAfter);
  }

  ghost function Now(machine: Machine): State
    requires machine.Valid()
    reads machine, machine.registers, machine.mainMemory, machine.pageTable
  {
    State(machine.registers[..], machine.Memory(), machine.pageTable[..])
  }

  /** The switch of OneInstruction. */
  method Execute(machine: Machine, i: Decoded)
    returns (ok: bool, nextLoadReg: RegNum, nextLoadValue: int32, pcAfter: int32)
    requires machine.Valid() && 0 <= machine.registers[LOAD_REG] < 32 && Executable(i.op)
             && Defined(i, machine.registers[..])
    modifies machine`handling, machine.registers, machine.mainMemory, machine.pageTable
    ensures match EffectOf(i, old(machine.registers[..]), old(machine.Memory()), old(machine.pageTable[..]))
      case Trap(e, bad, pt) =>
        && !ok && machine.Trapped(old(machine.registers[..]), e, bad)
        && machine.pageTable[..] == pt && machine.Memory() == old(machine.Memory())
      case Act(regs, reg, value, after, m, pt) =>
        && ok && nextLoadReg == reg && nextLoadValue == value && pcAfter == after
        && machine.registers[..] == regs && machine.Memory() == m && machine.pageTable[..] == pt
        && machine.handling == old(machine.handling)
  {
    hide Plus, Raised, Defined, ResultOf, HiLo, Destination, Linked, Reading, Writing, Overflows;
    ok, nextLoadReg, nextLoadValue, pcAfter := true, 0, 0, Plus(machine.registers[NEXT_PC_REG], 4);
    if Immediate(i.op) {
      ok := ComputeImmediate(machine, i);
    } else if Register(i.op) {
      ok := ComputeRegister(machine, i);
    } else if Multiplying(i.op) {
      MultiplyDivide(machine, i);
    } else if Branching(i.op) {
      pcAfter := Branch(machine, i);
    } else if Loading(i.op) {
      ok, nextLoadReg, nextLoadValue := LoadMemory(machine, i);
    } else if Storing(i.op) {
      ok := StoreMemory(machine, i);
    } else if i.op == SYSCALL {
      machine.RaiseException(SyscallException, 0);
      ok := false;
    } else {
      machine.RaiseException(IllegalInstrException, 0);
      ok := false;
    }
  }

  // ---- what holds of every instruction ----------------------------------------------------------------------------

  /** A trap is precise: memory is as it was, and so is every register, the program counters among them, but for
      the target of the load that was pending, the load registers and BadVAddr. */
  lemma TrapsPrecisely(s: State)
    requires Settled(s.r) && Runnable(s) && StepEffect(s).Trap?
    ensures var n := Step(s);
      && n.m == s.m && n.r[LOAD_REG] == 0 && n.r[BAD_V_ADDR_REG] == StepEffect(s).badVAddr
      && (s.r[LOAD_REG] != 0 ==> n.r[s.r[LOAD_REG]] == s.r[LOAD_VALUE_REG])
      && forall k | 0 <= k < NUM_TOTAL_REGS && k !in {s.r[LOAD_REG] as int, LOAD_REG, LOAD_VALUE_REG, BAD_V_ADDR_REG} ::
           n.r[k] == s.r[k]
  {
    hide StepEffect, Runnable, Raised;
    RaisedPrecisely(s.r, StepEffect(s).badVAddr);
  }

  /** R0 is zero and LOAD_REG names a general register at every boundary, trap or not; and a pending load has
      landed by the next one, even over what the instruction itself wrote to its target. */
  lemma StepSettles(s: State)
    requires Settled(s.r) && Runnable(s)
    ensures Settled(Step(s).r)
    ensures s.r[LOAD_REG] != 0 ==> Step(s).r[s.r[LOAD_REG]] == s.r[LOAD_VALUE_REG]
  {
    StepKeepsControl(s);
    hide StepEffect, Runnable;
  }

  /** Without a trap: the program counters move on, to a branch's destination after the delay slot. */
  lemma StepAdvances(s: State)
    requires Settled(s.r) && Runnable(s) && StepEffect(s).Act?
    ensures var n := Step(s);
      && n.r[PREV_PC_REG] == s.r[PC_REG] && n.r[PC_REG] == s.r[NEXT_PC_REG]
      && Fetched(s).Got?
      && var i := DecodedOf(Unsigned(Fetched(s).value));
      && n.r[NEXT_PC_REG] == if Branching(i.op) then Destination(i, Linked(i, s.r)) else Sequential(s.r)
  {
    StepKeepsControl(s);
    GoesTo(s);
    hide StepEffect, DecodedOf, Destination, Linked, Reading, Sequential, Unsigned, Runnable;
  }

  lemma GoesTo(s: State)
    requires Runnable(s) && StepEffect(s).Act?
    ensures Fetched(s).Got?
    ensures var i := DecodedOf(Unsigned(Fetched(s).value));
      StepEffect(s).pcAfter == if Branching(i.op) then Destination(i, Linked(i, s.r)) else Sequential(s.r)
  {
    hide DecodedOf, Destination, Linked, HiLo, ResultOf, Reading, Writing, Sequential, Extended, TopByte, Plus,
      Unsigned;
  }

  /** A load is delayed: the instruction after it still finds the old value in the target, unless another load
      to it was pending; the one after that finds the value loaded, whatever the one in between is, unless it
      is the kernel's handler that is between them. */
  lemma LoadIsDelayed(s: State)
    requires Settled(s.r) && Runnable(s) && StepEffect(s).Act? && Fetched(s).Got?
    requires Loading(DecodedOf(Unsigned(Fetched(s).value)).op) && DecodedOf(Unsigned(Fetched(s).value)).rt != 0
    requires Runnable(Step(s))
    ensures var i, n := DecodedOf(Unsigned(Fetched(s).value)), Step(s);
      && (s.r[LOAD_REG] != i.rt ==> n.r[i.rt] == s.r[i.rt])
      && 0 <= n.r[LOAD_REG] < 32 && Step(n).r[i.rt] == StepEffect(s).loadValue
  {
    var i := DecodedOf(Unsigned(Fetched(s).value));
    LoadPends(s, i);
    StepSettles(s);
    StepSettles(Step(s));
  }

  lemma LoadPends(s: State, i: Decoded)
    requires Settled(s.r) && Runnable(s) && StepEffect(s).Act? && Fetched(s).Got?
    requires i == DecodedOf(Unsigned(Fetched(s).value)) && Loading(i.op) && i.rt != 0
    ensures var n := Step(s);
      && n.r[LOAD_REG] == i.rt && n.r[LOAD_VALUE_REG] == StepEffect(s).loadValue
      && (s.r[LOAD_REG] != i.rt ==> n.r[i.rt] == s.r[i.rt])
  {
    LoadEffect(s, i);
    StepKeepsControl(s);
    hide StepEffect, Runnable, DecodedOf;
  }

  lemma LoadEffect(s: State, i: Decoded)
    requires Runnable(s) && StepEffect(s).Act? && Fetched(s).Got?
    requires i == DecodedOf(Unsigned(Fetched(s).value)) && Loading(i.op)
    ensures StepEffect(s).regs == s.r && StepEffect(s).loadReg == i.rt
  {
    hide DecodedOf, Reading, Sequential, Extended, Plus, Unsigned, Computed, HiLo, Linked, Destination, Stored, Defined;
  }

  /** JALR goes where `rs` pointed exactly if it does not overwrite `rs` first, or with what is there. */
  lemma JalrExactly(i: Decoded, r: Regs)
    requires i.op == JALR
    ensures Destination(i, Linked(i, r)) == r[i.rs] <==> i.rd != i.rs || Sequential(r) == r[i.rs]
  {
    hide Plus;
  }

  /** SRL and SRLV give the logical shift exactly on a nonnegative operand or a shift by nothing. */
  lemma SrlExactly(i: Decoded, r: Regs)
    requires i.op == SRL || i.op == SRLV
    ensures var n := (if i.op == SRL then i.extra else r[i.rs]) % 32;
      ResultOf(i, r) == LogicalShiftRight(r[i.rt], n) <==> r[i.rt] >= 0 || n == 0
  {
    ShiftsAgree(r[i.rt], (if i.op == SRL then i.extra else r[i.rs]) % 32);
    hide ShiftRight, LogicalShiftRight;
  }

  // ---- a process cannot get out of its frames ---------------------------------------------------------------------

  /** One instruction writes to the frames of its own page table only, and only use and dirty bits of that. */
  lemma StepInFrames(s: State)
    requires 0 <= s.r[LOAD_REG] < 32 && Runnable(s)
    ensures Elsewhere(s.pt, s.m, Step(s).m) && SameMap(s.pt, Step(s).pt)
  {
    ReadingKeeps(s.m, s.pt, s.r[PC_REG], 4);
    match Fetched(s)
    case Fault(_) =>
    case Got(raw, pt) =>
      var i := DecodedOf(Unsigned(raw));
      DecodeExecutable(Unsigned(raw));
      EffectInFrames(i, s.r, s.m, pt);
      ElsewhereThrough(s.pt, pt, s.m, Step(s).m);
  }

  lemma ElsewhereThrough(pt: seq<Pte>, qt: seq<Pte>, m: Memory, n: Memory)
    requires SameMap(pt, qt) && Elsewhere(qt, m, n)
    ensures Elsewhere(pt, m, n)
  {
    forall p | 0 <= p < MEMORY_SIZE && !InFrames(pt, p / PAGE_SIZE) ensures n[p] == m[p] {
      assert !InFrames(qt, p / PAGE_SIZE);
    }
  }

  lemma EffectInFrames(i: Decoded, r: Regs, m: Memory, pt: seq<Pte>)
    requires Executable(i.op) && Defined(i, r)
    ensures match EffectOf(i, r, m, pt)
      case Trap(_, _, after) => SameMap(pt, after)
      case Act(_, _, _, _, n, after) => Elsewhere(pt, m, n) && SameMap(pt, after)
  {
    hide ResultOf, HiLo, Destination, Linked, Reading, Writing, Sequential, Extended, TopByte, Plus, Overflows;
    if Loading(i.op) {
      ReadingKeeps(m, pt, Plus(r[i.rs], i.extra), LoadSize(i.op));
    } else if Storing(i.op) {
      StoredInFrames(i, r, m, pt);
    }
  }

  lemma StoredInFrames(i: Decoded, r: Regs, m: Memory, pt: seq<Pte>)
    requires Storing(i.op)
    ensures match Stored(i, r, m, pt)
      case Trap(_, _, after) => SameMap(pt, after)
      case Act(_, _, _, _, n, after) => Elsewhere(pt, m, n) && SameMap(pt, after)
  {
    var addr, t := Plus(r[i.rs], i.extra), r[i.rt];
    ReadingKeeps(m, pt, addr, 4);
    hide Reading, Writing, Plus, Elsewhere, SameMap;
    if i.op in {SWL, SWR} {
      match Reading(m, pt, addr, 4)
      case Fault(_) =>
      case Got(value, read) =>
        var v := if i.op == SWL then t else TopByte(value, t);
        WritingKeeps(m, read, addr, StoreSize(i.op), v);
        SameMaps(pt, read, m, Writing(m, read, addr, StoreSize(i.op), v));
    } else {
      WritingKeeps(m, pt, addr, StoreSize(i.op), t);
    }
  }

  /** What an access has done, if it has done something. */
  ghost predicate KeepsFrames(m: Memory, pt: seq<Pte>, a: Access) {
    match a
    case Fault(_) => SameMap(pt, pt) && Elsewhere(pt, m, m)
    case Got(_, after) => SameMap(pt, after) && Elsewhere(pt, m, m)
    case Put(n, after) => SameMap(pt, after) && Elsewhere(pt, m, n)
  }

  lemma SameMaps(pt: seq<Pte>, qt: seq<Pte>, m: Memory, a: Access)
    requires SameMap(pt, qt) && KeepsFrames(m, qt, a)
    ensures KeepsFrames(m, pt, a) && SameMap(pt, qt)
  {
    match a
    case Fault(_) =>
    case Got(_, _) =>
    case Put(n, after) => ElsewhereThrough(pt, qt, m, n);
  }

  lemma ReadingKeeps(m: Memory, pt: seq<Pte>, addr: int32, size: int)
    requires size in {1, 2, 4}
    ensures KeepsFrames(m, pt, Reading(m, pt, addr, size))
  {
    hide Load, HardwareStatus, Physical;
    if Reading(m, pt, addr, size).Got? {
      HardwareLetsThrough(pt, addr, size, false);
    }
  }

  lemma WritingKeeps(m: Memory, pt: seq<Pte>, addr: int32, size: int, value: int32)
    requires size in {1, 2, 4}
    ensures KeepsFrames(m, pt, Writing(m, pt, addr, size, value))
  {
    if Writing(m, pt, addr, size, value).Put? {
      HardwareLetsThrough(pt, addr, size, true);
      WithinFrame(pt, Unsigned(addr), size, true);
      StoreInFrame(m, pt, Unsigned(addr) / PAGE_SIZE, Physical(pt, Unsigned(addr)), size, value);
    }
  }

  // ---- runs -------------------------------------------------------------------------------------------------------

  /** What the kernel makes of a process's state in the trap at the k-th turn, before it returns to user mode:
      anything that keeps R0 and LOAD_REG right, the mapping as it is, and to the process's own frames. */
  ghost predicate Proper(handler: (nat, State, ExceptionType) -> State) {
    forall k: nat, s: State, e: ExceptionType :: Settled(s.r) ==>
      var t := handler(k, s, e); Settled(t.r) && SameMap(s.pt, t.pt) && Elsewhere(s.pt, s.m, t.m)
  }

  /** One instruction, and the kernel's handler if it traps. */
  function Turn(s: State, k: nat, handler: (nat, State, ExceptionType) -> State): State
    requires 0 <= s.r[LOAD_REG] < 32 && Runnable(s)
  {
    if StepEffect(s).Trap? then handler(k, Step(s), StepEffect(s).which) else Step(s)
  }

  /** `n` turns of a process. */
  function Run(s: State, n: nat, handler: (nat, State, ExceptionType) -> State): State {
    if n == 0 then s
    else
      var was := Run(s, n - 1, handler);
      if 0 <= was.r[LOAD_REG] < 32 && Runnable(was) then Turn(was, n, handler) else was
  }

  /** However long a process runs, and however often it traps: R0 and LOAD_REG are right, its page table maps
      as before, and a process with no frame in common with it sees its own memory unchanged. */
  lemma {:induction false} RunIsolated(s: State, n: nat, handler: (nat, State, ExceptionType) -> State, qt: seq<Pte>,
    v: int)
    requires Settled(s.r) && Apart(s.pt, qt) && Readable(qt, v) && Proper(handler)
    ensures Settled(Run(s, n, handler).r) && SameMap(s.pt, Run(s, n, handler).pt)
    ensures Seen(Run(s, n, handler).m, qt, v) == Seen(s.m, qt, v)
  {
    hide Turn, Runnable, Settled, Apart, SameMap, Seen, Readable, Proper;
    if n == 0 {
      MapsSame(s.pt);
    } else {
      RunIsolated(s, n - 1, handler, qt, v);
      var was := Run(s, n - 1, handler);
      StillApart(s.pt, was.pt, qt);
      if Run(s, n, handler) != was {
        TurnIsolated(was, n, handler, qt, v);
        MapsOn(s.pt, was.pt, Run(s, n, handler).pt);
      }
    }
  }

  lemma MapsSame(pt: seq<Pte>)
    ensures SameMap(pt, pt)
  {
  }

  lemma TurnIsolated(s: State, k: nat, handler: (nat, State, ExceptionType) -> State, qt: seq<Pte>, v: int)
    requires Settled(s.r) && Apart(s.pt, qt) && Readable(qt, v) && Runnable(s) && Proper(handler)
    ensures var n := Turn(s, k, handler); Settled(n.r) && SameMap(s.pt, n.pt) && Seen(n.m, qt, v) == Seen(s.m, qt, v)
  {
    StepIsolated(s, qt, v);
    hide Step, StepEffect, Runnable, Settled, Apart, SameMap, Seen, Readable, Elsewhere;
    if StepEffect(s).Trap? {
      var m, n := Step(s), Turn(s, k, handler);
      StillApart(s.pt, m.pt, qt);
      ElsewhereIsolated(m.pt, qt, m.m, n.m, v);
      MapsOn(s.pt, m.pt, n.pt);
    }
  }

  lemma StepIsolated(s: State, qt: seq<Pte>, v: int)
    requires Settled(s.r) && Apart(s.pt, qt) && Readable(qt, v) && Runnable(s)
    ensures Settled(Step(s).r) && SameMap(s.pt, Step(s).pt) && Seen(Step(s).m, qt, v) == Seen(s.m, qt, v)
  {
    StepSettles(s);
    StepInFrames(s);
    hide *;
    ElsewhereIsolated(s.pt, qt, s.m, Step(s).m, v);
  }

  lemma StillApart(pt: seq<Pte>, now: seq<Pte>, qt: seq<Pte>)
    requires SameMap(pt, now) && Apart(pt, qt)
    ensures Apart(now, qt)
  {
  }

  lemma MapsOn(a: seq<Pte>, b: seq<Pte>, c: seq<Pte>)
    requires SameMap(a, b) && SameMap(b, c)
    ensures SameMap(a, c)
  {
  }
}
