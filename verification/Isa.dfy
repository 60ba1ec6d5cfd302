// The instruction set as its manual has it (Kane, MIPS RISC Architecture): what each instruction is for, in
// registers, numbers and bytes, and how it is encoded. Execution is held to that here.
module Isa {
  import opened Codec
  import opened Paging
  import opened Multiply
  import opened Words
  import opened Instructions
  import opened Machines
  import opened Cpu

  /** The same 32 bits. */
  predicate Same(x: int, y: int) {
    (x - y) % 0x1_0000_0000 == 0
  }

  lemma SameUnsigned(x: int32)
    ensures Same(Unsigned(x), x) && 0 <= Unsigned(x) < 0x1_0000_0000
  {
  }

  lemma SameWrap(x: int)
    ensures Same(Wrap(x), x)
  {
  }

  // ---- arithmetic, logic and shifts ----------------------------------------------------------------------

  lemma Adds(i: Decoded, r: Regs)
    requires i.op in {ADD, ADDU, ADDI, ADDIU, SUB, SUBU}
    ensures i.op in {ADD, ADDU} ==> Same(ResultOf(i, r), r[i.rs] as int + r[i.rt] as int)
    ensures i.op in {ADDI, ADDIU} ==> Same(ResultOf(i, r), r[i.rs] as int + i.extra as int)
    ensures i.op in {SUB, SUBU} ==> Same(ResultOf(i, r), r[i.rs] as int - r[i.rt] as int)
  {
    hide Wrap, Same;
    SameWrap(r[i.rs] as int + r[i.rt] as int);
    SameWrap(r[i.rs] as int + i.extra as int);
    SameWrap(r[i.rs] as int - r[i.rt] as int);
  }

  lemma Compares(i: Decoded, r: Regs)
    requires i.op in {SLT, SLTU, SLTI, SLTIU}
    ensures ResultOf(i, r) == 0 || ResultOf(i, r) == 1
    ensures i.op == SLT ==> (ResultOf(i, r) == 1 <==> r[i.rs] < r[i.rt])
    ensures i.op == SLTI ==> (ResultOf(i, r) == 1 <==> r[i.rs] < i.extra)
    ensures i.op == SLTU ==> (ResultOf(i, r) == 1 <==> Unsigned(r[i.rs]) < Unsigned(r[i.rt]))
    ensures i.op == SLTIU ==> (ResultOf(i, r) == 1 <==> Unsigned(r[i.rs]) < Unsigned(i.extra))
  {
  }

  lemma LogicalBit(l: Logic, a: int32, b: int32, k: nat)
    requires k < 32
    ensures Bit(Unsigned(Logical(l, a, b)), k) <==> Combined(l, Bit(Unsigned(a), k), Bit(Unsigned(b), k))
  {
    BitwiseBit(l, Unsigned(a), Unsigned(b), 32, k);
    Pow2Bound(32);
  }

  /** Bit by bit; immediates are extended with zeros. */
  lemma Combines(i: Decoded, r: Regs, k: nat)
    requires i.op in {AND, OR, XOR, NOR, ANDI, ORI, XORI} && k < 32
    ensures var a, b, c := Bit(Unsigned(r[i.rs]), k), Bit(Unsigned(r[i.rt]), k), Bit(i.extra % 0x10000, k);
      var z := Bit(Unsigned(ResultOf(i, r)), k);
      && (i.op == AND ==> (z <==> a && b)) && (i.op == ANDI ==> (z <==> a && c))
      && (i.op == OR ==> (z <==> a || b)) && (i.op == ORI ==> (z <==> a || c))
      && (i.op == XOR ==> (z <==> a != b)) && (i.op == XORI ==> (z <==> a != c))
      && (i.op == NOR ==> (z <==> !a && !b))
  {
    hide Logical, Bit;
    var l := if i.op in {AND, ANDI} then Both else if i.op in {OR, ORI} then Either
             else if i.op == NOR then Neither else Differ;
    LogicalBit(l, r[i.rs], r[i.rt], k);
    LogicalBit(l, r[i.rs], i.extra % 0x10000, k);
  }

  /** Shifts left, and arithmetic shifts right, by the low five bits of the amount; LUI is a shift by sixteen. SRL and
      SRLV are arithmetic here too. */
  lemma Shifts(i: Decoded, r: Regs)
    requires i.op in {SLL, SLLV, SRA, SRAV, SRL, SRLV, LUI}
    ensures var n := (if i.op in {SLL, SRA, SRL} then i.extra else r[i.rs]) % 32;
      && (i.op in {SLL, SLLV} ==> Same(ResultOf(i, r), Unsigned(r[i.rt]) * Pow2(n)))
      && (i.op in {SRA, SRAV, SRL, SRLV} ==> 0 <= r[i.rt] - ResultOf(i, r) * Pow2(n) < Pow2(n))
    ensures i.op == LUI ==> Same(ResultOf(i, r), i.extra * 0x10000)
  {
    hide Wrap, Unsigned;
    var n := (if i.op in {SLL, SRA, SRL} then i.extra else r[i.rs]) % 32;
    SameWrap(Unsigned(r[i.rt]) * Pow2(n));
    SameWrap(i.extra * 0x10000);
    DivisionIs(r[i.rt], Pow2(n));
  }

  lemma DivisionIs(a: int, d: nat)
    requires d > 0
    ensures 0 <= a - a / d * d < d
  {
    assert a == a / d * d + a % d;
  }

  lemma Moves(i: Decoded, r: Regs)
    requires i.op in {MFHI, MFLO}
    ensures ResultOf(i, r) == if i.op == MFHI then r[HI_REG] else r[LO_REG]
  {
  }

  /** Where the result goes, and when there is none: ADD, ADDI and SUB trap exactly if the true result is no int. */
  lemma Computes(i: Decoded, r: Regs, m: Memory, pt: seq<Pte>)
    requires Executable(i.op) && Defined(i, r)
    requires i.op in {ADDI, ADDIU, ANDI, LUI, ORI, SLTI, SLTIU, XORI, ADD, ADDU, AND, MFHI, MFLO, NOR, OR, SLL, SLLV,
                      SLT, SLTU, SRA, SRAV, SRL, SRLV, SUB, SUBU, XOR}
    ensures Computing(i.op)
    ensures var e := EffectOf(i, r, m, pt);
      var sum := if i.op == SUB then r[i.rs] as int - r[i.rt] as int
                 else if i.op == ADD then r[i.rs] as int + r[i.rt] as int else r[i.rs] as int + i.extra as int;
      var to := if i.op in {ADDI, ADDIU, ANDI, LUI, ORI, SLTI, SLTIU, XORI} then i.rt else i.rd;
      if i.op in {ADD, ADDI, SUB} && !(-0x8000_0000 <= sum < 0x8000_0000) then
        e.Trap? && e.which == OverflowException && e.pt == pt
      else
        e.Act? && e.regs == r[to := ResultOf(i, r)] && e.m == m && e.pt == pt && e.loadReg == 0
        && Same(e.pcAfter, r[NEXT_PC_REG] as int + 4)
  {
    hide Result, ResultOf, Sequential, Same, Defined;
    SequentialIs(r);
  }

  // ---- multiplication and division -----------------------------------------------------------------------

  /** Hi and Lo hold the product, or remainder and quotient as C has them; a division by zero gives zeros. */
  lemma Multiplies(i: Decoded, r: Regs)
    requires i.op in {MULT, MULTU, DIV, DIVU, MTHI, MTLO} && Defined(i, r)
    ensures var (hi, lo) := HiLo(i, r); var s, t := r[i.rs], r[i.rt];
      && (i.op == MULT ==> hi * 0x1_0000_0000 + Unsigned(lo) == s as int * t as int)
      && (i.op == MULTU ==> Unsigned(hi) * 0x1_0000_0000 + Unsigned(lo) == Unsigned(s) * Unsigned(t))
      && (i.op in {DIV, DIVU} && t == 0 ==> hi == 0 && lo == 0)
      && (i.op == MTHI ==> hi == s && lo == r[LO_REG]) && (i.op == MTLO ==> hi == r[HI_REG] && lo == s)
  {
    var s, t := r[i.rs], r[i.rt];
    if i.op == MULT {
      SignedProduct(s, t);
    } else if i.op == MULTU {
      UnsignedProduct(Unsigned(s), Unsigned(t));
    }
  }

  lemma SignedProduct(s: int32, t: int32)
    ensures var p := s as int * t as int; Wrap(p / W) * W + Unsigned(Wrap(p)) == p
  {
    hide Wrap, Unsigned;
    SignedBounds(s, t);
    TwoWords(s as int * t as int);
  }

  lemma SignedBounds(s: int32, t: int32)
    ensures -0x4000_0000_0000_0000 <= s as int * t as int <= 0x4000_0000_0000_0000
  {
    var a: nat, b: nat := if s < 0 then 0 - s as int else s, if t < 0 then 0 - t as int else t;
    Bounded(a, b, 0x8000_0000);
    assert s as int * t as int == a * b || 0 - s as int * t as int == a * b;
  }

  lemma TwoWords(p: int)
    requires -0x4000_0000_0000_0000 <= p <= 0x4000_0000_0000_0000
    ensures Wrap(p / W) * W + Unsigned(Wrap(p)) == p
  {
  }

  lemma UnsignedProduct(s: nat, t: nat)
    requires s < W && t < W
    ensures Unsigned(Wrap(s * t / W)) * W + Unsigned(Wrap(s * t)) == s * t
  {
    Bounded(s, t, W - 1);
  }

  lemma Bounded(a: nat, b: nat, n: nat)
    requires a <= n && b <= n
    ensures 0 <= a * b <= n * n
  {
    assert a * b <= n * b <= n * n;
  }

  lemma Divides(i: Decoded, r: Regs)
    requires i.op == DIV && Defined(i, r) && r[i.rt] != 0
    ensures var (hi, lo) := HiLo(i, r); var s, t := r[i.rs], r[i.rt];
      && s as int == lo as int * t as int + hi as int && (hi == 0 || (hi < 0 <==> s < 0))
      && 0 - (Abs(t) as int) < hi < Abs(t)
  {
    var s, t := r[i.rs], r[i.rt];
    hide Div, Mod;
    Division(s, t);
    RemainderSmall(s, t);
    QuotientInt(s, t);
  }

  lemma DividesUnsigned(i: Decoded, r: Regs)
    requires i.op == DIVU && Defined(i, r) && r[i.rt] != 0
    ensures var (hi, lo) := HiLo(i, r); var s, t := Unsigned(r[i.rs]), Unsigned(r[i.rt]);
      s == Unsigned(lo) * t + Unsigned(hi) && Unsigned(hi) < t
  {
    var s, t := Unsigned(r[i.rs]), Unsigned(r[i.rt]);
    DivisionIs(s, t);
    Quotient(s, t);
    IntUnsigned(s / t);
    IntUnsigned(s % t);
    hide AsInt, Unsigned;
  }

  lemma IntUnsigned(u: nat)
    requires u < 0x1_0000_0000
    ensures Unsigned(AsInt(u)) == u
  {
  }

  lemma MultipliesInto(i: Decoded, r: Regs, m: Memory, pt: seq<Pte>)
    requires i.op in {MULT, MULTU, DIV, DIVU, MTHI, MTLO} && Defined(i, r)
    ensures var (hi, lo) := HiLo(i, r); var e := EffectOf(i, r, m, pt);
      && e.Act? && e.regs == r[HI_REG := hi][LO_REG := lo] && e.m == m && e.pt == pt && e.loadReg == 0
      && Same(e.pcAfter, r[NEXT_PC_REG] as int + 4)
  {
    SameWrap(r[NEXT_PC_REG] as int + 4);
    hide HiLo, Same, Wrap, Defined;
  }

  // ---- branches and jumps --------------------------------------------------------------------------------

  /** The registers after a branch: the return address, which is that of the instruction behind the delay slot,
      goes to R31, or where JALR wants it. */
  predicate LinkedIs(i: Decoded, r: Regs, n: Regs) {
    if i.op in {BGEZAL, BLTZAL, JAL} then Same(n[31], r[NEXT_PC_REG] as int + 4) && n == r[31 := n[31]]
    else if i.op == JALR then Same(n[i.rd], r[NEXT_PC_REG] as int + 4) && n == r[i.rd := n[i.rd]]
    else n == r
  }

  /** What a branch finds in `rs`: its own return address, if that has just gone there. */
  function Tested(i: Decoded, r: Regs): nat {
    if i.rs == if i.op in {BGEZAL, BLTZAL} then 31 else if i.op == JALR then i.rd else 32 then
      (r[NEXT_PC_REG] as int + 4) % 0x1_0000_0000
    else Unsigned(r[i.rs])
  }

  /** Is a branch taken? By the bits: a word from 2^31 on is a negative int. */
  predicate Taken(i: Decoded, r: Regs) {
    var u := Tested(i, r);
    (i.op == BEQ && u == Unsigned(r[i.rt])) || (i.op == BNE && u != Unsigned(r[i.rt]))
    || (i.op in {BGEZ, BGEZAL} && u < 0x8000_0000) || (i.op in {BLTZ, BLTZAL} && u >= 0x8000_0000)
    || (i.op == BGTZ && 0 < u < 0x8000_0000) || (i.op == BLEZ && (u == 0 || u >= 0x8000_0000))
  }

  /** The next program counter but one after an instruction, in numbers: from the delay slot, as many words on as a
      branch that is taken says; the word that a jump names in the region of 2^28 bytes behind the delay slot; where
      the register of JR and JALR points; and behind the delay slot otherwise. */
  predicate WentTo(i: Decoded, r: Regs, pc: int32) {
    var next := r[NEXT_PC_REG] as int;
    if i.op in {J, JAL} then
      && Unsigned(pc) % 0x1000_0000 == 4 * i.extra % 0x1000_0000
      && Unsigned(pc) / 0x1000_0000 == (next + 4) % 0x1_0000_0000 / 0x1000_0000
    else if i.op in {JR, JALR} then Unsigned(pc) == Tested(i, r)
    else if Taken(i, r) then Same(pc, next + 4 * i.extra as int)
    else Same(pc, next + 4)
  }

  lemma Branches(i: Decoded, r: Regs, m: Memory, pt: seq<Pte>)
    requires i.op in {BEQ, BGEZ, BGEZAL, BGTZ, BLEZ, BLTZ, BLTZAL, BNE, J, JAL, JALR, JR} && Defined(i, r)
    ensures var e := EffectOf(i, r, m, pt);
      e.Act? && LinkedIs(i, r, e.regs) && WentTo(i, r, e.pcAfter) && e.m == m && e.pt == pt && e.loadReg == 0
  {
    EffectOfBranch(i, r, m, pt);
    Links(i, r);
    BranchGoes(i, r);
    hide Linked, Destination, LinkedIs, WentTo, EffectOf, Tested, Defined;
  }

  lemma EffectOfBranch(i: Decoded, r: Regs, m: Memory, pt: seq<Pte>)
    requires Branching(i.op) && Defined(i, r)
    ensures EffectOf(i, r, m, pt) == Act(Linked(i, r), 0, 0, Destination(i, Linked(i, r)), m, pt)
  {
    hide Linked, Destination, Computed, HiLo, Cpu.Loaded, Stored, Defined;
  }

  lemma Links(i: Decoded, r: Regs)
    requires Branching(i.op)
    ensures LinkedIs(i, r, Linked(i, r))
    ensures i.op !in {J, JAL} ==> Unsigned(Linked(i, r)[i.rs]) == Tested(i, r)
    ensures i.op in {BEQ, BNE} ==> Linked(i, r)[i.rt] == r[i.rt]
  {
    UnsignedIs(Sequential(r), r[NEXT_PC_REG] as int + 4);
    SameWrap(r[NEXT_PC_REG] as int + 4);
    hide Wrap, Same, Unsigned;
  }

  lemma BranchGoes(i: Decoded, r: Regs)
    requires Branching(i.op)
    ensures WentTo(i, r, Destination(i, Linked(i, r)))
  {
    Links(i, r);
    var l := Linked(i, r);
    assert l[NEXT_PC_REG] == r[NEXT_PC_REG];
    hide Linked, LinkedIs, Tested, Same;
    if i.op in {J, JAL} {
      JumpGoes(i, l);
    } else {
      SameWrap(r[NEXT_PC_REG] as int + 4);
      TargetIs(r[NEXT_PC_REG], i.extra);
      hide Wrap, Plus, IndexToAddr;
    }
  }

  lemma TargetIs(next: int32, extra: int32)
    ensures Same(Plus(next, IndexToAddr(extra)), next as int + 4 * extra as int)
  {
    var x := extra * 4;
    SameWrap(x);
    SameWrap(next as int + Wrap(x) as int);
    SameSum(Plus(next, IndexToAddr(extra)), next as int, Wrap(x), x);
  }

  lemma SameSum(z: int, a: int, b: int, c: int)
    requires Same(z, a + b) && Same(b, c)
    ensures Same(z, a + c)
  {
  }

  lemma JumpGoes(i: Decoded, r: Regs)
    requires i.op in {J, JAL}
    ensures WentTo(i, r, Destination(i, r))
  {
    var p := Sequential(r);
    UnsignedIs(p, r[NEXT_PC_REG] as int + 4);
    Region(Unsigned(p), i.extra * 4 % 0x1000_0000);
    hide Wrap, Unsigned;
  }

  lemma UnsignedIs(p: int32, x: int)
    requires p == Wrap(x) || Same(p, x)
    ensures Unsigned(p) == x % 0x1_0000_0000
  {
    SameWrap(x);
    SameUnsigned(p);
    ModIs(Unsigned(p), p, x);
    hide Unsigned, Wrap;
  }

  lemma ModIs(u: int, p: int, x: int)
    requires 0 <= u < 0x1_0000_0000 && Same(u, p) && Same(p, x)
    ensures u == x % 0x1_0000_0000
  {
  }

  lemma Region(p: nat, low: nat)
    requires p < 0x1_0000_0000 && low < 0x1000_0000
    ensures var d := Unsigned(Wrap(p / 0x1000_0000 * 0x1000_0000 + low));
      d % 0x1000_0000 == low && d / 0x1000_0000 == p / 0x1000_0000
  {
  }

  // ---- loads and stores ------------------------------------------------------------------------------------

  function Width(op: Op): int {
    if op in {LB, LBU, SB} then 1 else if op in {LH, LHU, SH} then 2 else 4
  }

  /** The k-th byte of a word, least significant first. */
  function ByteOf(u: nat, k: nat): byte
    requires k < 4
  {
    (if k == 0 then u % 0x100
     else if k == 1 then u / 0x100 % 0x100
     else if k == 2 then u / 0x10000 % 0x100
     else u / 0x1000000 % 0x100) as byte
  }

  /** Where in memory an address is. */
  function Place(pt: seq<Pte>, addr: int32): int
    requires Unsigned(addr) / PAGE_SIZE < |pt|
  {
    pt[Unsigned(addr) / PAGE_SIZE].physicalPage * PAGE_SIZE + Unsigned(addr) % PAGE_SIZE
  }

  /** The page table after a read or a write. */
  function Marked(pt: seq<Pte>, addr: int32, write: bool): seq<Pte>
    requires Unsigned(addr) / PAGE_SIZE < |pt|
  {
    var p := Unsigned(addr) / PAGE_SIZE;
    pt[p := if write then pt[p].(use := true, dirty := true) else pt[p].(use := true)]
  }

  lemma Placed(pt: seq<Pte>, addr: int32, size: int, write: bool)
    requires size in {1, 2, 4} && Backed(pt, Unsigned(addr), size, write)
    ensures Aligned(Unsigned(addr), size) && KernelStatus(pt, Unsigned(addr), write) == OK
    ensures Place(pt, addr) == Physical(pt, Unsigned(addr))
    ensures Marked(pt, addr, write) == Touched(pt, Unsigned(addr), write)
    ensures 0 <= Place(pt, addr) && Place(pt, addr) + size <= MEMORY_SIZE
  {
    HardwareAnswers(pt, addr, size, write);
    HardwareLetsThrough(pt, addr, size, write);
    WithinFrame(pt, Unsigned(addr), size, write);
  }

  /** The bytes at `p` as a number. */
  function Number(m: Memory, p: nat, size: int): (n: nat)
    requires size in {1, 2, 4} && p + size <= MEMORY_SIZE
    ensures n < if size == 1 then 0x100 else if size == 2 then 0x10000 else 0x1_0000_0000
  {
    m[p] as int + (if size >= 2 then 0x100 * m[p + 1] as int else 0)
    + if size == 4 then 0x10000 * m[p + 2] as int + 0x1000000 * m[p + 3] as int else 0
  }

  /** A read: when it is refused, and what it gives. */
  lemma Reads(m: Memory, pt: seq<Pte>, addr: int32, size: int)
    requires size in {1, 2, 4}
    ensures var a := Reading(m, pt, addr, size);
      if Backed(pt, Unsigned(addr), size, false) then
        && 0 <= Place(pt, addr) && Place(pt, addr) + size <= MEMORY_SIZE
        && a.Got? && a.pt == Marked(pt, addr, false)
        && var n := Number(m, Place(pt, addr), size); a.value == if size == 1 && n >= 0x80 then n - 0x100
             else if n >= 0x8000_0000 then n - 0x1_0000_0000 else n
      else
        a.Fault? && Answer(a.exception, pt, Unsigned(addr), size, false)
  {
    HardwareAnswers(pt, addr, size, false);
    if Backed(pt, Unsigned(addr), size, false) {
      Placed(pt, addr, size, false);
      LoadNumber(m, Place(pt, addr), size);
    }
  }

  lemma LoadNumber(m: Memory, p: nat, size: int)
    requires size in {1, 2, 4} && p + size <= MEMORY_SIZE
    ensures var n := Number(m, p, size);
      Load(m, p, size) == if size == 1 && n >= 0x80 then n - 0x100
                          else if n >= 0x8000_0000 then n - 0x1_0000_0000 else n
  {
  }

  /** What a load leaves pending, by the bytes at the place it reads; LWR puts the last of them into the lowest of
      what the target holds or is about to. */
  lemma Loads(i: Decoded, r: Regs, m: Memory, pt: seq<Pte>, addr: int32)
    requires i.op in {LB, LBU, LH, LHU, LW, LWL, LWR} && Defined(i, r)
    requires Same(addr, r[i.rs] as int + i.extra as int)
    ensures var e := EffectOf(i, r, m, pt);
      if Backed(pt, Unsigned(addr), Width(i.op), false) then
        && 0 <= Place(pt, addr) && Place(pt, addr) + Width(i.op) <= MEMORY_SIZE
        && e.Act? && e.regs == r && e.m == m && e.pt == Marked(pt, addr, false) && e.loadReg == i.rt
        && Same(e.pcAfter, r[NEXT_PC_REG] as int + 4)
        && LoadedIs(i.op, e.loadValue, Number(m, Place(pt, addr), Width(i.op)),
                    if r[LOAD_REG] == i.rt then r[LOAD_VALUE_REG] else r[i.rt])
      else
        e.Trap? && e.badVAddr == addr && e.pt == pt && Answer(e.which, pt, Unsigned(addr), Width(i.op), false)
  {
    hide Same, Plus, Sequential, Answer, Marked, Place, Reading, EffectOf, Defined, Extended, Number, Unsigned,
      LoadedIs;
    LoadEffectIs(i, r, m, pt, addr);
    SequentialIs(r);
    Reads(m, pt, addr, Width(i.op));
    if Backed(pt, Unsigned(addr), Width(i.op), false) {
      ExtendedIs(i.op, Number(m, Place(pt, addr), Width(i.op)), Reading(m, pt, addr, Width(i.op)).value,
        if r[LOAD_REG] == i.rt then r[LOAD_VALUE_REG] else r[i.rt]);
    }
  }

  /** The address of a load or store, and where the program goes on. */
  lemma Effective(i: Decoded, r: Regs, addr: int32)
    requires Same(addr, r[i.rs] as int + i.extra as int)
    ensures addr == Plus(r[i.rs], i.extra)
  {
  }

  lemma SequentialIs(r: Regs)
    ensures Same(Sequential(r), r[NEXT_PC_REG] as int + 4)
  {
  }

  lemma LoadEffectIs(i: Decoded, r: Regs, m: Memory, pt: seq<Pte>, addr: int32)
    requires i.op in {LB, LBU, LH, LHU, LW, LWL, LWR} && Defined(i, r)
    requires Same(addr, r[i.rs] as int + i.extra as int)
    ensures EffectOf(i, r, m, pt) == match Reading(m, pt, addr, Width(i.op))
      case Fault(e) => Trap(e, addr, pt)
      case Got(v, after) =>
        Act(r, i.rt, Extended(i.op, v, if r[LOAD_REG] == i.rt then r[LOAD_VALUE_REG] else r[i.rt]), Sequential(r), m,
          after)
  {
    Effective(i, r, addr);
    EffectOfLoad(i, r, m, pt);
    hide Same, Plus, Sequential, Reading, EffectOf, Defined, Extended;
  }

  /** Loading apart from the other instructions. */
  lemma EffectOfLoad(i: Decoded, r: Regs, m: Memory, pt: seq<Pte>)
    requires i.op in {LB, LBU, LH, LHU, LW, LWL, LWR} && Defined(i, r)
    ensures EffectOf(i, r, m, pt) == Cpu.Loaded(i, r, m, pt) && LoadSize(i.op) == Width(i.op)
  {
    hide Computed, HiLo, Linked, Destination, Cpu.Loaded, Stored, Defined;
  }

  predicate LoadedIs(op: Op, v: int32, n: int, now: int32) {
    && (op == LB ==> (v - n) % 0x100 == 0 && -0x80 <= v < 0x80)
    && (op == LH ==> (v - n) % 0x10000 == 0 && -0x8000 <= v < 0x8000)
    && (op in {LBU, LHU} ==> v == n)
    && (op in {LW, LWL} ==> Same(v, n))
    && (op == LWR ==> Unsigned(v) % 0x100 == n / 0x1000000 && Unsigned(v) / 0x100 == Unsigned(now) / 0x100)
  }

  lemma ExtendedIs(op: Op, n: nat, value: int32, now: int32)
    requires op in {LB, LBU, LH, LHU, LW, LWL, LWR}
    requires n < (if Width(op) == 1 then 0x100 else if Width(op) == 2 then 0x10000 else 0x1_0000_0000)
    requires value == if Width(op) == 1 && n >= 0x80 then n - 0x100
                      else if n >= 0x8000_0000 then n - 0x1_0000_0000 else n
    ensures LoadedIs(op, Extended(op, value, now), n, now)
  {
    if op == LWR {
      LastByte(n, value, now);
      hide Wrap, Unsigned;
    } else {
      assert Width(op) == 1 ==> value % 0x100 == n;
      hide Wrap, Unsigned;
    }
  }

  lemma LastByte(n: nat, value: int32, now: int32)
    requires n < 0x1_0000_0000 && value == if n >= 0x8000_0000 then n - 0x1_0000_0000 else n
    ensures LoadedIs(LWR, Extended(LWR, value, now), n, now)
  {
    assert Unsigned(value) == n;
    LowByte(Unsigned(now), n / 0x1000000);
    hide Wrap, Unsigned;
  }

  lemma LowByte(u: nat, b: nat)
    requires u < 0x1_0000_0000 && b < 0x100
    ensures var v := Unsigned(Wrap(u / 0x100 * 0x100 + b)); v % 0x100 == b && v / 0x100 == u / 0x100
  {
    UnsignedIs(Wrap(u / 0x100 * 0x100 + b), u / 0x100 * 0x100 + b);
  }

  /** The memory after a store of the bytes `b` at `p`. */
  ghost predicate Puts(m: Memory, n: Memory, p: int, b: seq<byte>) {
    && 0 <= p && p + |b| <= MEMORY_SIZE
    && (forall k :: p <= k < p + |b| ==> n[k] == b[k - p])
    && forall k :: 0 <= k < MEMORY_SIZE && !(p <= k < p + |b|) ==> n[k] == m[k]
  }

  /** The low bytes of a word. */
  function LowBytes(v: int32, size: int): seq<byte>
    requires size in {1, 2, 4}
  {
    seq(size, k requires 0 <= k < size => ByteOf(Unsigned(v), k))
  }

  lemma LowBytesAre(v: int32, size: int)
    requires size in {1, 2, 4}
    ensures LowBytes(v, size) == Paging.Bytes(size, v)
  {
    EncodedBytes(v);
    TwoBytes(v, Unsigned(v));
    hide EncodeInt, ByteOf, Unsigned;
  }

  lemma TwoBytes(v: int32, u: nat)
    requires u == v || u == v + 0x1_0000_0000
    ensures ByteOf(u, 0) as int == v % 256 && ByteOf(u, 1) as int == v / 256 % 256
  {
  }

  lemma EncodedBytes(v: int32)
    ensures var u := Unsigned(v); EncodeInt(v) == [ByteOf(u, 0), ByteOf(u, 1), ByteOf(u, 2), ByteOf(u, 3)]
  {
  }

  lemma Writes(m: Memory, pt: seq<Pte>, addr: int32, size: int, value: int32)
    requires size in {1, 2, 4}
    ensures var a := Writing(m, pt, addr, size, value);
      if Backed(pt, Unsigned(addr), size, true) then
        a.Put? && a.pt == Marked(pt, addr, true) && Puts(m, a.m, Place(pt, addr), LowBytes(value, size))
      else
        a.Fault? && Answer(a.exception, pt, Unsigned(addr), size, true)
  {
    HardwareAnswers(pt, addr, size, true);
    if Backed(pt, Unsigned(addr), size, true) {
      Placed(pt, addr, size, true);
      LowBytesAre(value, size);
      StorePuts(m, Place(pt, addr), size, value);
    }
  }

  lemma StorePuts(m: Memory, p: nat, size: int, value: int32)
    requires size in {1, 2, 4} && p + size <= MEMORY_SIZE
    ensures Puts(m, Store(m, p, size, value), p, Paging.Bytes(size, value))
  {
    hide Paging.Bytes;
  }

  lemma EffectOfStore(i: Decoded, r: Regs, m: Memory, pt: seq<Pte>)
    requires i.op in {SB, SH, SW, SWL, SWR} && Defined(i, r)
    ensures EffectOf(i, r, m, pt) == Stored(i, r, m, pt) && StoreSize(i.op) == Width(i.op)
  {
    hide Computed, HiLo, Linked, Destination, Cpu.Loaded, Stored, Defined;
  }

  /** A store writes the low bytes of the register at the address and nothing else. */
  lemma Stores(i: Decoded, r: Regs, m: Memory, pt: seq<Pte>, addr: int32)
    requires i.op in {SB, SH, SW} && Defined(i, r) && Same(addr, r[i.rs] as int + i.extra as int)
    ensures var e := EffectOf(i, r, m, pt);
      if Backed(pt, Unsigned(addr), Width(i.op), true) then
        && e.Act? && e.regs == r && e.pt == Marked(pt, addr, true) && e.loadReg == 0
        && Same(e.pcAfter, r[NEXT_PC_REG] as int + 4)
        && Puts(m, e.m, Place(pt, addr), LowBytes(r[i.rt], Width(i.op)))
      else
        e.Trap? && e.badVAddr == addr && e.pt == pt && Answer(e.which, pt, Unsigned(addr), Width(i.op), true)
  {
    hide Same, Plus, Sequential, Answer, Marked, Backed, Place, Writing, Reading, EffectOf, Defined, LowBytes, Puts,
      Unsigned;
    Effective(i, r, addr);
    EffectOfStore(i, r, m, pt);
    SequentialIs(r);
    Writes(m, pt, addr, Width(i.op), r[i.rt]);
  }

  /** SWL writes the whole register, SWR its lowest byte alone, to the last of the four places; both read first, and
      then find a page that they may not write. */
  lemma StoresPart(i: Decoded, r: Regs, m: Memory, pt: seq<Pte>, addr: int32)
    requires i.op in {SWL, SWR} && Defined(i, r) && Same(addr, r[i.rs] as int + i.extra as int)
    ensures var e := EffectOf(i, r, m, pt);
      if Backed(pt, Unsigned(addr), 4, true) then
        && e.Act? && e.regs == r && e.pt == Marked(pt, addr, true) && e.loadReg == 0
        && Same(e.pcAfter, r[NEXT_PC_REG] as int + 4)
        && (i.op == SWL ==> Puts(m, e.m, Place(pt, addr), LowBytes(r[i.rt], 4)))
        && (i.op == SWR ==> Puts(m, e.m, Place(pt, addr) + 3, LowBytes(r[i.rt], 1)))
      else if Backed(pt, Unsigned(addr), 4, false) then
        e == Trap(ReadOnlyException, addr, Marked(pt, addr, false))
      else
        e.Trap? && e.badVAddr == addr && e.pt == pt && Answer(e.which, pt, Unsigned(addr), 4, false)
  {
    hide EffectOf, Reading, Answer, Marked, Place, LowBytes, Puts, TopByte, Same, Defined, Backed;
    StoredPart(i, r, m, pt, addr);
    Reads(m, pt, addr, 4);
    if Backed(pt, Unsigned(addr), 4, false) {
      if i.op == SWL {
        WritesAgain(m, pt, addr, r[i.rt]);
      } else {
        WritesTop(m, pt, addr, r[i.rt]);
      }
    } else {
      ReadFirst(pt, addr);
    }
  }

  lemma WritesTop(m: Memory, pt: seq<Pte>, addr: int32, t: int32)
    requires Backed(pt, Unsigned(addr), 4, false)
    ensures Reading(m, pt, addr, 4).Got?
    ensures var b := Writing(m, Marked(pt, addr, false), addr, 4, TopByte(Reading(m, pt, addr, 4).value, t));
      if Backed(pt, Unsigned(addr), 4, true) then
        b.Put? && b.pt == Marked(pt, addr, true) && Puts(m, b.m, Place(pt, addr) + 3, LowBytes(t, 1))
      else b == Fault(ReadOnlyException)
  {
    Rereads(m, pt, addr);
    hide Reading, Writing, Marked, Place, LowBytes, Puts, TopByte, Same, Number;
    var was := Reading(m, pt, addr, 4).value;
    WritesAgain(m, pt, addr, TopByte(was, t));
    if Backed(pt, Unsigned(addr), 4, true) {
      TopPuts(m, Writing(m, Marked(pt, addr, false), addr, 4, TopByte(was, t)).m, Place(pt, addr), was, t);
    }
  }

  lemma StoredPart(i: Decoded, r: Regs, m: Memory, pt: seq<Pte>, addr: int32)
    requires i.op in {SWL, SWR} && Defined(i, r) && Same(addr, r[i.rs] as int + i.extra as int)
    ensures var e, a := EffectOf(i, r, m, pt), Reading(m, pt, addr, 4);
      if a.Got? then
        var b := Writing(m, a.pt, addr, 4, if i.op == SWL then r[i.rt] else TopByte(a.value, r[i.rt]));
        if b.Put? then
          && e.Act? && e.regs == r && e.pt == b.pt && e.m == b.m && e.loadReg == 0
          && Same(e.pcAfter, r[NEXT_PC_REG] as int + 4)
        else e == Trap(b.exception, addr, a.pt)
      else e == Trap(a.exception, addr, pt)
  {
    hide Same, Plus, Sequential, Writing, Reading, EffectOf, Defined, TopByte;
    Effective(i, r, addr);
    EffectOfStore(i, r, m, pt);
    SequentialIs(r);
  }

  lemma WritesAgain(m: Memory, pt: seq<Pte>, addr: int32, v: int32)
    requires Backed(pt, Unsigned(addr), 4, false)
    ensures var b := Writing(m, Marked(pt, addr, false), addr, 4, v);
      if Backed(pt, Unsigned(addr), 4, true) then
        b.Put? && b.pt == Marked(pt, addr, true) && Puts(m, b.m, Place(pt, addr), LowBytes(v, 4))
      else b == Fault(ReadOnlyException)
  {
    Writes(m, Marked(pt, addr, false), addr, 4, v);
    MarkedTwice(pt, addr);
    hide Answer, Marked, Backed, Place, Writing, LowBytes, Puts;
  }

  lemma Rereads(m: Memory, pt: seq<Pte>, addr: int32)
    requires Backed(pt, Unsigned(addr), 4, false)
    ensures 0 <= Place(pt, addr) && Place(pt, addr) + 4 <= MEMORY_SIZE
    ensures Reading(m, pt, addr, 4).Got? && Same(Reading(m, pt, addr, 4).value, Number(m, Place(pt, addr), 4))
  {
    Reads(m, pt, addr, 4);
    hide Reading, Number, Place, Backed;
  }

  /** What may be written may be read. */
  lemma ReadFirst(pt: seq<Pte>, addr: int32)
    requires !Backed(pt, Unsigned(addr), 4, false)
    ensures !Backed(pt, Unsigned(addr), 4, true)
  {
  }

  lemma MarkedTwice(pt: seq<Pte>, addr: int32)
    requires Backed(pt, Unsigned(addr), 4, false)
    ensures var q := Marked(pt, addr, false);
      && Place(q, addr) == Place(pt, addr)
      && (Backed(q, Unsigned(addr), 4, true) <==> Backed(pt, Unsigned(addr), 4, true))
      && (Backed(pt, Unsigned(addr), 4, true) ==> Marked(q, addr, true) == Marked(pt, addr, true))
      && forall e :: Answer(e, q, Unsigned(addr), 4, true) && !Backed(pt, Unsigned(addr), 4, true) ==>
           e == ReadOnlyException
  {
  }

  lemma TopPuts(m: Memory, n: Memory, p: nat, was: int32, t: int32)
    requires p + 4 <= MEMORY_SIZE && Same(was, Number(m, p, 4)) && Puts(m, n, p, LowBytes(TopByte(was, t), 4))
    ensures Puts(m, n, p + 3, LowBytes(t, 1))
  {
    var b := LowBytes(TopByte(was, t), 4);
    assert b[0] == m[p] && b[1] == m[p + 1] && b[2] == m[p + 2] && b[3] == LowBytes(t, 1)[0] by {
      UnsignedIs(was, Number(m, p, 4));
      TopByteBytes(was, t, m[p] as int, m[p + 1] as int, m[p + 2] as int, m[p + 3] as int);
      hide ByteOf, TopByte, Same;
    }
    hide LowBytes;
    assert n[p] == b[0] && n[p + 1] == b[1] && n[p + 2] == b[2];
  }

  lemma TopByteBytes(was: int32, t: int32, a: nat, b: nat, c: nat, d: nat)
    requires a < 0x100 && b < 0x100 && c < 0x100 && d < 0x100
    requires Unsigned(was) == a + 0x100 * b + 0x10000 * c + 0x1000000 * d
    ensures var v := Unsigned(TopByte(was, t));
      ByteOf(v, 0) as int == a && ByteOf(v, 1) as int == b && ByteOf(v, 2) as int == c
      && ByteOf(v, 3) == ByteOf(Unsigned(t), 0)
  {
    var v := a + 0x100 * b + 0x10000 * c + 0x1000000 * (t % 0x100);
    assert TopByte(was, t) == Wrap(v) by {
      assert Unsigned(was) % 0x1000000 == a + 0x100 * b + 0x10000 * c;
      hide Wrap, Unsigned;
    }
    UnsignedIs(TopByte(was, t), v);
    NumberBytes(a, b, c, t % 0x100);
    assert ByteOf(Unsigned(t), 0) as int == t % 0x100;
    hide ByteOf, Wrap, TopByte, Unsigned;
  }

  lemma NumberBytes(a: nat, b: nat, c: nat, d: nat)
    requires a < 0x100 && b < 0x100 && c < 0x100 && d < 0x100
    ensures var u := a + 0x100 * b + 0x10000 * c + 0x1000000 * d;
      && ByteOf(u, 0) as int == a && ByteOf(u, 1) as int == b && ByteOf(u, 2) as int == c && ByteOf(u, 3) as int == d
  {
    var u := a + 0x100 * b + 0x10000 * c + 0x1000000 * d;
    assert u / 0x100 == b + 0x100 * (c + 0x100 * d);
    assert u / 0x10000 == c + 0x100 * d;
  }

  lemma TrapsAlways(i: Decoded, r: Regs, m: Memory, pt: seq<Pte>)
    requires i.op in {SYSCALL, UNIMP, RES} && Defined(i, r)
    ensures EffectOf(i, r, m, pt) == Trap(if i.op == SYSCALL then SyscallException else IllegalInstrException, 0, pt)
  {
  }

  // ---- one instruction -------------------------------------------------------------------------------------

  /** The instruction word is the four bytes at PC, and what happens if there are none. */
  lemma Fetches(s: State)
    requires Runnable(s)
    ensures var pc := s.r[PC_REG];
      if Backed(s.pt, Unsigned(pc), 4, false) then
        && 0 <= Place(s.pt, pc) && Place(s.pt, pc) + 4 <= MEMORY_SIZE
        && var i := DecodedOf(Number(s.m, Place(s.pt, pc), 4));
          && Executable(i.op) && Defined(i, s.r) && StepEffect(s) == EffectOf(i, s.r, s.m, Marked(s.pt, pc, false))
      else
        && StepEffect(s).Trap? && StepEffect(s).badVAddr == pc && StepEffect(s).pt == s.pt
        && Answer(StepEffect(s).which, s.pt, Unsigned(pc), 4, false)
  {
    hide Reading, EffectOf, DecodedOf, Answer, Marked, Place, Number, Defined, Unsigned;
    var pc := s.r[PC_REG];
    FetchedWord(s);
    if Backed(s.pt, Unsigned(pc), 4, false) {
      DecodeExecutable(Number(s.m, Place(s.pt, pc), 4));
    }
  }

  lemma FetchedWord(s: State)
    ensures var pc, a := s.r[PC_REG], Fetched(s);
      if Backed(s.pt, Unsigned(pc), 4, false) then
        && 0 <= Place(s.pt, pc) && Place(s.pt, pc) + 4 <= MEMORY_SIZE
        && a.Got? && a.pt == Marked(s.pt, pc, false) && Unsigned(a.value) == Number(s.m, Place(s.pt, pc), 4)
      else a.Fault? && Answer(a.exception, s.pt, Unsigned(pc), 4, false)
  {
    var pc := s.r[PC_REG];
    Reads(s.m, s.pt, pc, 4);
    hide Reading, Answer, Marked, Number;
    if Backed(s.pt, Unsigned(pc), 4, false) {
      UnsignedIs(Fetched(s).value, Number(s.m, Place(s.pt, pc), 4));
    }
  }

  /** Where the effect of an instruction goes: the load that was pending lands last, R0 stays zero, and the
      program counters move on. */
  lemma Carries(s: State)
    requires Settled(s.r) && Runnable(s) && StepEffect(s).Act?
    ensures var e, n := StepEffect(s), Step(s);
      && n.m == e.m && n.pt == e.pt
      && n.r[PREV_PC_REG] == s.r[PC_REG] && n.r[PC_REG] == s.r[NEXT_PC_REG] && n.r[NEXT_PC_REG] == e.pcAfter
      && n.r[LOAD_REG] == e.loadReg && n.r[LOAD_VALUE_REG] == e.loadValue && n.r[0] == 0
      && forall k | 0 < k < NUM_TOTAL_REGS && k !in {PC_REG, NEXT_PC_REG, PREV_PC_REG, LOAD_REG, LOAD_VALUE_REG} ::
           n.r[k] == if k == s.r[LOAD_REG] then s.r[LOAD_VALUE_REG] else e.regs[k]
  {
    StepKeepsControl(s);
    hide StepEffect, Runnable;
  }

  /** Control: where a program goes after each instruction that does not trap. */
  lemma Goes(s: State)
    requires Settled(s.r) && Runnable(s) && StepEffect(s).Act?
    ensures Fetched(s).Got?
    ensures Step(s).r[PC_REG] == s.r[NEXT_PC_REG]
    ensures WentTo(DecodedOf(Unsigned(Fetched(s).value)), s.r, Step(s).r[NEXT_PC_REG])
  {
    StepAdvances(s);
    var i := DecodedOf(Unsigned(Fetched(s).value));
    hide StepEffect, DecodedOf, Destination, Linked, Reading, Runnable, Step, WentTo;
    if Branching(i.op) {
      BranchGoes(i, s.r);
    } else {
      GoesOn(i, s.r);
    }
  }

  lemma GoesOn(i: Decoded, r: Regs)
    requires !Branching(i.op)
    ensures WentTo(i, r, Sequential(r))
  {
    SameWrap(r[NEXT_PC_REG] as int + 4);
  }
}
