// Instructions: decoding of 32-bit words by table, against the assembler's view of the same format.
module Instructions {
  import opened Codec

  /** The translated operation codes: the MIPS manual's names, the two for codes without an operation, and
      the two marks for further decoding, SPECIAL and BCOND. */
  datatype Op =
    | ADD | ADDI | ADDIU | ADDU | AND | ANDI | BEQ | BGEZ | BGEZAL | BGTZ | BLEZ | BLTZ | BLTZAL | BNE
    | DIV | DIVU | J | JAL | JALR | JR | LB | LBU | LH | LHU | LUI | LW | LWL | LWR | MFHI | MFLO | MTHI | MTLO
    | MULT | MULTU | NOR | OR | ORI | RFE | SB | SH | SLL | SLLV | SLT | SLTI | SLTIU | SLTU | SRA | SRAV | SRL | SRLV
    | SUB | SUBU | SW | SWL | SWR | XOR | XORI | SYSCALL | UNIMP | RES
    | SPECIAL | BCOND

  datatype Format = IFMT | JFMT | RFMT

  type Word = n: nat | n < 0x1_0000_0000
  type RegNum = n: nat | n < 32

  /** opTable, indexed by bits 31:26. */
  function OpTable(code: nat): (Op, Format) {
    match code
    case 0 => (SPECIAL, RFMT) case 1 => (BCOND, IFMT) case 2 => (J, JFMT) case 3 => (JAL, JFMT)
    case 4 => (BEQ, IFMT) case 5 => (BNE, IFMT) case 6 => (BLEZ, IFMT) case 7 => (BGTZ, IFMT)
    case 8 => (ADDI, IFMT) case 9 => (ADDIU, IFMT) case 10 => (SLTI, IFMT) case 11 => (SLTIU, IFMT)
    case 12 => (ANDI, IFMT) case 13 => (ORI, IFMT) case 14 => (XORI, IFMT) case 15 => (LUI, IFMT)
    case 32 => (LB, IFMT) case 33 => (LH, IFMT) case 34 => (LWL, IFMT) case 35 => (LW, IFMT)
    case 36 => (LBU, IFMT) case 37 => (LHU, IFMT) case 38 => (LWR, IFMT)
    case 40 => (SB, IFMT) case 41 => (SH, IFMT) case 42 => (SWL, IFMT) case 43 => (SW, IFMT)
    case 46 => (SWR, IFMT)
    case _ =>
      if 16 <= code < 20 || 48 <= code < 52 || 56 <= code < 60 then (UNIMP, IFMT) else (RES, IFMT)
  }

  /** specialTable, indexed by the funct field. */
  function SpecialTable(funct: nat): Op {
    match funct
    case 0 => SLL case 2 => SRL case 3 => SRA case 4 => SLLV case 6 => SRLV case 7 => SRAV
    case 8 => JR case 9 => JALR case 12 => SYSCALL case 13 => UNIMP
    case 16 => MFHI case 17 => MTHI case 18 => MFLO case 19 => MTLO
    case 24 => MULT case 25 => MULTU case 26 => DIV case 27 => DIVU
    case 32 => ADD case 33 => ADDU case 34 => SUB case 35 => SUBU
    case 36 => AND case 37 => OR case 38 => XOR case 39 => NOR case 42 => SLT case 43 => SLTU
    case _ => RES
  }

  function BcondTable(i: nat): Op {
    if i == 0 then BLTZ
    else if i == 0x10000 then BGEZ
    else if i == 0x100000 then BLTZAL
    else if i == 0x110000 then BGEZAL
    else UNIMP
  }

  function Extra(value: Word, format: Format): int32 {
    match format
    case IFMT => var extra := value % 0x10000; if extra >= 0x8000 then extra - 0x10000 else extra
    case RFMT => value / 64 % 32
    case JFMT => value % 0x4000000
  }

  /** An instruction, decoded. */
  datatype Decoded = Decoded(op: Op, rs: RegNum, rt: RegNum, rd: RegNum, extra: int32)

  function DecodedOf(value: Word): Decoded {
    var (op, format) := OpTable(value / 0x4000000 % 64);
    Decoded(
      if op.SPECIAL? then SpecialTable(value % 64) else if op.BCOND? then BcondTable(value / 0x10000 % 32 * 0x10000)
        else op,
      value / 0x200000 % 32, value / 0x10000 % 32, value / 0x800 % 32, Extra(value, format))
  }

  class Instruction {
    var value: Word
    var opCode: Op
    var rs: RegNum
    var rt: RegNum
    var rd: RegNum
    var extra: int32

    function Fields(): Decoded
      reads this
    {
      Decoded(opCode, rs, rt, rd, extra)
    }

    /** Decode: no word gives an operation that the simulator has no case for. */
    method Decode()
      modifies this
      ensures value == old(value) && Fields() == DecodedOf(value) && Executable(opCode)
    {
      rs := value / 0x200000 % 32;
      rt := value / 0x10000 % 32;
      rd := value / 0x800 % 32;
      var opPtr := OpTable(value / 0x4000000 % 64);
      opCode := opPtr.0;
      extra := Extra(value, opPtr.1);
      if opCode == SPECIAL {
        opCode := SpecialTable(value % 64);
      } else if opCode == BCOND {
        var i := value / 0x10000 % 32 * 0x10000;
        opCode := BcondTable(i);
      }
      hide OpTable;
      DecodeExecutable(value);
    }
  }

  predicate Executable(op: Op) {
    !op.RFE? && !op.SPECIAL? && !op.BCOND?
  }

  lemma DecodeExecutable(value: Word)
    ensures Executable(DecodedOf(value).op)
  {
  }

  // ---- the assembler's view -----------------------------------------------------------------------------

  /** The instruction formats of the manual. */
  function RType(funct: nat, rs: RegNum, rt: RegNum, rd: RegNum, shamt: RegNum): (w: Word)
    requires funct < 64
  {
    rs * 0x200000 + rt * 0x10000 + rd * 0x800 + shamt * 64 + funct
  }

  function IType(code: nat, rs: RegNum, rt: RegNum, immediate: int): (w: Word)
    requires code < 64 && -0x8000 <= immediate < 0x8000
  {
    code * 0x4000000 + rs * 0x200000 + rt * 0x10000 + immediate % 0x10000
  }

  function JType(code: nat, target: nat): (w: Word)
    requires code < 64 && target < 0x4000000
  {
    code * 0x4000000 + target
  }

  lemma RTypeDecoded(funct: nat, rs: RegNum, rt: RegNum, rd: RegNum, shamt: RegNum)
    requires funct < 64
    ensures DecodedOf(RType(funct, rs, rt, rd, shamt)) == Decoded(SpecialTable(funct), rs, rt, rd, shamt)
  {
    hide SpecialTable, BcondTable, OpTable;
    TableStart();
    RFields(funct, shamt, rd, rt, rs);
  }

  lemma RFields(a: nat, b: RegNum, c: RegNum, d: RegNum, e: RegNum)
    requires a < 64
    ensures var v := e * 0x200000 + d * 0x10000 + c * 0x800 + b * 64 + a;
      && v / 0x4000000 == 0 && v % 64 == a && v / 64 % 32 == b && v / 0x800 % 32 == c && v / 0x10000 % 32 == d
      && v / 0x200000 % 32 == e
  {
    var q4 := e;
    var q3 := q4 * 32 + d;
    var q2 := q3 * 32 + c;
    var q1 := q2 * 32 + b;
    var v := q1 * 64 + a;
    assert v / 64 == q1;
    assert v / 0x800 == q1 / 32 == q2;
    assert v / 0x10000 == q2 / 32 == q3;
    assert v / 0x200000 == q3 / 32 == q4;
    assert v / 0x4000000 == q4 / 32;
  }

  lemma ITypeDecoded(code: nat, rs: RegNum, rt: RegNum, immediate: int)
    requires code < 64 && -0x8000 <= immediate < 0x8000 && OpTable(code).1.IFMT?
    ensures var d := DecodedOf(IType(code, rs, rt, immediate));
      && d.rs == rs && d.rt == rt && d.extra == immediate
      && d.op == if code == 1 then BcondTable(rt * 0x10000) else OpTable(code).0
  {
    ITypeFields(code, rs, rt, immediate);
    IFormat(code);
    hide OpTable, BcondTable, SpecialTable, IType;
  }

  lemma ITypeFields(code: nat, rs: RegNum, rt: RegNum, immediate: int)
    requires code < 64 && -0x8000 <= immediate < 0x8000
    ensures var v := IType(code, rs, rt, immediate);
      && v / 0x4000000 % 64 == code && Extra(v, IFMT) == immediate && v / 0x10000 % 32 == rt && v / 0x200000 % 32 == rs
  {
    IFields(immediate % 0x10000, rt, rs, code);
  }

  lemma IFormat(code: nat)
    requires OpTable(code).1.IFMT?
    ensures !OpTable(code).0.SPECIAL? && (OpTable(code).0.BCOND? <==> code == 1)
  {
  }

  lemma IFields(a: nat, b: RegNum, c: RegNum, d: nat)
    requires a < 0x10000 && d < 64
    ensures var v := d * 0x4000000 + c * 0x200000 + b * 0x10000 + a;
      && v / 0x4000000 == d && v % 0x10000 == a && v / 0x10000 % 32 == b && v / 0x200000 % 32 == c
  {
  }

  lemma JTypeDecoded(code: nat, target: nat)
    requires target < 0x4000000 && code in {2, 3}
    ensures var d := DecodedOf(JType(code, target));
      d.op == (if code == 2 then J else JAL) && d.extra == target
  {
    JumpCode();
    hide OpTable, Code, SpecialTable, BcondTable;
  }

  // ---- an assembler ---------------------------------------------------------------------------------------

  /** The operations that have a code. */
  predicate Coded(op: Op) {
    op !in {RFE, UNIMP, RES, SPECIAL, BCOND}
  }

  predicate RForm(op: Op) {
    op in {ADD, ADDU, AND, DIV, DIVU, JALR, JR, MFHI, MFLO, MTHI, MTLO, MULT, MULTU, NOR, OR, SLL, SLLV, SLT, SLTU, SRA,
           SRAV, SRL, SRLV, SUB, SUBU, SYSCALL, XOR}
  }

  /** The codes of the MIPS manual, by operation: the funct field, or for branches on a sign what stands for rt, or
      the main code. */
  function Code(op: Op): nat
    requires Coded(op)
  {
    match op
    case SLL => 0 case SRL => 2 case SRA => 3 case SLLV => 4 case SRLV => 6 case SRAV => 7
    case JR => 8 case JALR => 9 case SYSCALL => 12
    case MFHI => 16 case MTHI => 17 case MFLO => 18 case MTLO => 19
    case MULT => 24 case MULTU => 25 case DIV => 26 case DIVU => 27
    case ADD => 32 case ADDU => 33 case SUB => 34 case SUBU => 35
    case AND => 36 case OR => 37 case XOR => 38 case NOR => 39 case SLT => 42 case SLTU => 43
    case BLTZ => 0 case BGEZ => 1 case BLTZAL => 16 case BGEZAL => 17
    case J => 2 case JAL => 3 case BEQ => 4 case BNE => 5 case BLEZ => 6 case BGTZ => 7
    case ADDI => 8 case ADDIU => 9 case SLTI => 10 case SLTIU => 11
    case ANDI => 12 case ORI => 13 case XORI => 14 case LUI => 15
    case LB => 32 case LH => 33 case LWL => 34 case LW => 35 case LBU => 36 case LHU => 37 case LWR => 38
    case SB => 40 case SH => 41 case SWL => 42 case SW => 43 case SWR => 46
  }

  /** What can be assembled. */
  predicate Encodable(i: Decoded) {
    && Coded(i.op)
    && if RForm(i.op) then 0 <= i.extra < 32 else if i.op in {J, JAL} then 0 <= i.extra < 0x4000000
       else -0x8000 <= i.extra < 0x8000
  }

  function Encoded(i: Decoded): Word
    requires Encodable(i)
  {
    if RForm(i.op) then RType(Code(i.op), i.rs, i.rt, i.rd, i.extra)
    else if i.op in {J, JAL} then JType(Code(i.op), i.extra)
    else if i.op in {BLTZ, BGEZ, BLTZAL, BGEZAL} then IType(1, i.rs, Code(i.op), i.extra)
    else IType(Code(i.op), i.rs, i.rt, i.extra)
  }

  /** The operands that an operation's format has. */
  predicate SameOperands(i: Decoded, d: Decoded) {
    && d.op == i.op && d.extra == i.extra && (i.op in {J, JAL} || d.rs == i.rs)
    && (i.op in {J, JAL, BLTZ, BGEZ, BLTZAL, BGEZAL} || d.rt == i.rt) && (RForm(i.op) ==> d.rd == i.rd)
  }

  /** Every instruction that can be assembled decodes to itself. */
  lemma EncodedDecodes(i: Decoded)
    requires Encodable(i)
    ensures SameOperands(i, DecodedOf(Encoded(i)))
  {
    var c := Code(i.op);
    CodeIs(i.op);
    hide DecodedOf, Code, OpTable, SpecialTable, BcondTable;
    if RForm(i.op) {
      RTypeDecoded(c, i.rs, i.rt, i.rd, i.extra);
    } else if i.op in {J, JAL} {
      JTypeDecoded(c, i.extra);
    } else if i.op in {BLTZ, BGEZ, BLTZAL, BGEZAL} {
      ITypeDecoded(1, i.rs, c, i.extra);
    } else {
      ITypeDecoded(c, i.rs, i.rt, i.extra);
    }
  }

  lemma CodeIs(op: Op)
    requires Coded(op)
    ensures Code(op) < 64
    ensures RForm(op) ==> SpecialTable(Code(op)) == op
    ensures op in {BLTZ, BGEZ, BLTZAL, BGEZAL} ==>
              Code(op) < 32 && BcondTable(Code(op) * 0x10000) == op && OpTable(1).1.IFMT?
    ensures op in {J, JAL} ==> Code(op) == if op == J then 2 else 3
    ensures !RForm(op) && op !in {J, JAL, BLTZ, BGEZ, BLTZAL, BGEZAL} ==>
              Code(op) != 1 && OpTable(Code(op)) == (op, IFMT)
  {
    if RForm(op) {
      SpecialFunct(op);
    } else if op in {J, JAL, BLTZ, BGEZ, BLTZAL, BGEZAL} {
      hide SpecialTable, OpTable;
      BcondCode(1);
    } else {
      MainOp(op);
    }
    hide OpTable, BcondTable, SpecialTable, Code;
  }

  lemma SpecialFunct(op: Op)
    requires RForm(op)
    ensures Code(op) < 64 && SpecialTable(Code(op)) == op
  {
  }

  lemma MainOp(op: Op)
    requires Coded(op) && !RForm(op) && op !in {J, JAL, BLTZ, BGEZ, BLTZAL, BGEZAL}
    ensures 1 < Code(op) < 64 && OpTable(Code(op)) == (op, IFMT)
  {
  }

  /** And every word decodes to what assembles to it, or to an illegal instruction. */
  lemma DecodedEncodes(w: Word)
    ensures var d := DecodedOf(w); d.op in {UNIMP, RES} || (Encodable(d) && Encoded(d) == w)
  {
    hide DecodedOf, Encoded;
    WordParts(w);
    var c := w / 0x4000000;
    if c == 0 {
      SpecialEncodes(w);
    } else if c == 1 {
      BcondEncodes(w);
    } else if c in {2, 3} {
      JumpEncodes(w);
    } else {
      MainEncodes(w);
    }
  }

  lemma SpecialEncodes(w: Word)
    requires w / 0x4000000 == 0
    ensures var d := DecodedOf(w); d.op in {UNIMP, RES} || (Encodable(d) && Encoded(d) == w)
  {
    hide Code, OpTable, SpecialTable, BcondTable;
    TableStart();
    SpecialCode(w % 64);
    WordParts(w);
  }

  lemma BcondEncodes(w: Word)
    requires w / 0x4000000 == 1
    ensures var d := DecodedOf(w); d.op in {UNIMP, RES} || (Encodable(d) && Encoded(d) == w)
  {
    hide Code, OpTable, SpecialTable, BcondTable, Extra;
    BcondCode(w / 0x10000 % 32);
    WordParts(w);
    ImmediateIs(w);
  }

  lemma JumpEncodes(w: Word)
    requires w / 0x4000000 in {2, 3}
    ensures var d := DecodedOf(w); Encodable(d) && Encoded(d) == w
  {
    hide Code, OpTable, SpecialTable, BcondTable;
    JumpCode();
    WordParts(w);
  }

  lemma MainEncodes(w: Word)
    requires 4 <= w / 0x4000000 < 64
    ensures var d := DecodedOf(w); d.op in {UNIMP, RES} || (Encodable(d) && Encoded(d) == w)
  {
    hide Code, OpTable, SpecialTable, BcondTable, Extra;
    MainCode(w / 0x4000000);
    WordParts(w);
    ImmediateIs(w);
  }

  lemma WordParts(w: Word)
    ensures w / 0x4000000 < 64
    ensures w == w / 0x4000000 * 0x4000000 + w / 0x200000 % 32 * 0x200000 + w / 0x10000 % 32 * 0x10000 + w % 0x10000
    ensures w % 0x10000 == w / 0x800 % 32 * 0x800 + w / 64 % 32 * 64 + w % 64
    ensures w == w / 0x4000000 * 0x4000000 + w % 0x4000000
  {
    HighParts(w);
    LowParts(w);
  }

  lemma HighParts(w: Word)
    ensures w == w / 0x4000000 * 0x4000000 + w / 0x200000 % 32 * 0x200000 + w / 0x10000 % 32 * 0x10000 + w % 0x10000
  {
    var a := w / 0x10000;
    var b := a / 32;
    assert w / 0x200000 == b && w / 0x4000000 == b / 32;
  }

  lemma LowParts(w: Word)
    ensures w % 0x10000 == w / 0x800 % 32 * 0x800 + w / 64 % 32 * 64 + w % 64
  {
    var a := w / 64;
    var b := a / 32;
    assert w / 0x800 == b && w / 0x10000 == b / 32;
  }

  lemma ImmediateIs(w: Word)
    ensures -0x8000 <= Extra(w, IFMT) < 0x8000 && Extra(w, IFMT) % 0x10000 == w % 0x10000
  {
  }

  lemma TableStart()
    ensures OpTable(0) == (SPECIAL, RFMT)
  {
  }

  lemma JumpCode()
    ensures OpTable(2) == (J, JFMT) && OpTable(3) == (JAL, JFMT) && Code(J) == 2 && Code(JAL) == 3
  {
  }

  lemma SpecialCode(f: nat)
    requires f < 64
    ensures var op := SpecialTable(f); op in {UNIMP, RES} || (Coded(op) && RForm(op) && Code(op) == f)
  {
  }

  lemma BcondCode(t: nat)
    requires t < 32
    ensures OpTable(1) == (BCOND, IFMT)
    ensures var op := BcondTable(t * 0x10000); op == UNIMP || (op in {BLTZ, BGEZ, BLTZAL, BGEZAL} && Code(op) == t)
  {
  }

  lemma MainCode(c: nat)
    requires 4 <= c < 64
    ensures var (op, format) := OpTable(c);
      && format == IFMT && !op.SPECIAL? && !op.BCOND?
      && (op in {UNIMP, RES}
          || (Coded(op) && !RForm(op) && op !in {J, JAL, BLTZ, BGEZ, BLTZAL, BGEZAL} && Code(op) == c))
  {
    if c < 16 {
      LowCode(c);
    } else if c < 39 {
      LoadCode(c);
    } else {
      StoreCode(c);
    }
    hide OpTable, Code;
  }

  lemma LowCode(c: nat)
    requires 4 <= c < 16
    ensures var (op, format) := OpTable(c);
      format == IFMT && Coded(op) && !RForm(op) && op !in {J, JAL, BLTZ, BGEZ, BLTZAL, BGEZAL} && Code(op) == c
  {
  }

  lemma LoadCode(c: nat)
    requires 16 <= c < 39
    ensures var (op, format) := OpTable(c);
      && format == IFMT
      && (op in {UNIMP, RES} || (op in {LB, LBU, LH, LHU, LW, LWL, LWR} && Code(op) == c))
  {
  }

  lemma StoreCode(c: nat)
    requires 39 <= c < 64
    ensures var (op, format) := OpTable(c);
      && format == IFMT
      && (op in {UNIMP, RES} || (op in {SB, SH, SW, SWL, SWR} && Code(op) == c))
  {
  }
}
