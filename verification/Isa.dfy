/** RV32IM with Zicsr: instruction formats and the arithmetic of each operation
    (RISC-V Unprivileged ISA, sections 2.2 to 2.6, 7.1, 7.2 and 9.1). */
module Isa {
  import opened Bits
  import opened Rv32m
  import opened Wrappers

  datatype BranchOp = Beq | Bne | Blt | Bge | Bltu | Bgeu
  datatype AluOp = Add | Sub | Sll | Slt | Sltu | Exclusive | Srl | Sra | Inclusive | Conjunct
  datatype MulOp = Mul | Mulh | Mulhsu | Mulhu | Div | Divu | Rem | Remu
  datatype Size = OneByte | HalfWord | FullWord
  datatype CsrOp = ReadWrite | ReadSet | ReadClear
  datatype CsrSource = Register(r: regnum) | Immediate(z: regnum)

  datatype Instr =
    | Lui(rd: regnum, upper: word)
    | Auipc(rd: regnum, upper: word)
    | Jal(rd: regnum, offset: int)
    | Jalr(rd: regnum, rs1: regnum, offset: int)
    | Branch(cond: BranchOp, rs1: regnum, rs2: regnum, offset: int)
    | OpImm(op: AluOp, rd: regnum, rs1: regnum, imm: int)
    | Op(op: AluOp, rd: regnum, rs1: regnum, rs2: regnum)
    | MulDiv(mul: MulOp, rd: regnum, rs1: regnum, rs2: regnum)
    | Load(size: Size, signExtend: bool, rd: regnum, rs1: regnum, offset: int)
    | Store(size: Size, rs1: regnum, rs2: regnum, offset: int)
    | Fence
    | Ebreak
    | Mret
    | Wfi
    | Csr(csrOp: CsrOp, rd: regnum, source: CsrSource, csr: nat)

  // ----- fields -----

  function Opcode(w: word): nat { Low(w, 7) }

  function Funct3(w: word): (r: nat)
    ensures r < 8
  {
    FieldBound(w, 14, 12);
    P2Values();
    Field(w, 14, 12)
  }

  function Funct7(w: word): nat { Field(w, 31, 25) }

  function Rd(w: word): regnum {
    FieldBound(w, 11, 7);
    P2Values();
    Field(w, 11, 7)
  }

  function Rs1(w: word): regnum {
    FieldBound(w, 19, 15);
    P2Values();
    Field(w, 19, 15)
  }

  function Rs2(w: word): regnum {
    FieldBound(w, 24, 20);
    P2Values();
    Field(w, 24, 20)
  }

  /** Two's complement: the top bit of a field weighs -2^(bits-1). */
  function ImmI(w: word): int {
    Field(w, 30, 20) - 0x800 * Field(w, 31, 31)
  }

  function ImmS(w: word): int {
    0x20 * Field(w, 30, 25) + Field(w, 11, 7) - 0x800 * Field(w, 31, 31)
  }

  function ImmB(w: word): int {
    0x800 * Field(w, 7, 7) + 0x20 * Field(w, 30, 25) + 2 * Field(w, 11, 8) - 0x1000 * Field(w, 31, 31)
  }

  function ImmU(w: word): word {
    w - w % 0x1000
  }

  function ImmJ(w: word): int {
    0x1000 * Field(w, 19, 12) + 0x800 * Field(w, 20, 20) + 2 * Field(w, 30, 21) - 0x10_0000 * Field(w, 31, 31)
  }

  // ----- decoding -----

  const ECALL: word := 0x0000_0073
  const EBREAK: word := 0x0010_0073
  const MRET: word := 0x3020_0073
  const WFI: word := 0x1050_0073

  function DecodeBranch(funct3: nat): Option<BranchOp> {
    match funct3
    case 0 => Some(Beq) case 1 => Some(Bne)
    case 4 => Some(Blt) case 5 => Some(Bge)
    case 6 => Some(Bltu) case 7 => Some(Bgeu)
    case _ => None
  }

  /** The register-register operations by (funct7, funct3). */
  function DecodeAlu(funct7: nat, funct3: nat): Option<AluOp> {
    match (funct7, funct3)
    case (0, 0) => Some(Add) case (0x20, 0) => Some(Sub)
    case (0, 1) => Some(Sll) case (0, 2) => Some(Slt)
    case (0, 3) => Some(Sltu) case (0, 4) => Some(Exclusive)
    case (0, 5) => Some(Srl) case (0x20, 5) => Some(Sra)
    case (0, 6) => Some(Inclusive) case (0, 7) => Some(Conjunct)
    case _ => None
  }

  /** The immediate forms: no subtraction, and only the shifts look at funct7. */
  function DecodeAluImm(funct7: nat, funct3: nat): Option<AluOp> {
    if funct3 == 1 || funct3 == 5 then DecodeAlu(funct7, funct3) else DecodeAlu(0, funct3)
  }

  function DecodeMul(funct3: nat): MulOp
    requires funct3 < 8
  {
    match funct3
    case 0 => Mul case 1 => Mulh case 2 => Mulhsu case 3 => Mulhu
    case 4 => Div case 5 => Divu case 6 => Rem case 7 => Remu
  }

  function DecodeSize(funct3: nat): Option<Size> {
    match funct3 % 4
    case 0 => Some(OneByte) case 1 => Some(HalfWord) case 2 => Some(FullWord)
    case _ => None
  }

  function Decode(w: word): Option<Instr> {
    var f3, f7 := Funct3(w), Funct7(w);
    match Opcode(w)
    case 0x37 => Some(Lui(Rd(w), ImmU(w)))
    case 0x17 => Some(Auipc(Rd(w), ImmU(w)))
    case 0x6F => Some(Jal(Rd(w), ImmJ(w)))
    case 0x67 => if f3 == 0 then Some(Jalr(Rd(w), Rs1(w), ImmI(w))) else None
    case 0x63 =>
      var cond := DecodeBranch(f3);
      if cond.Some? then Some(Branch(cond.value, Rs1(w), Rs2(w), ImmB(w))) else None
    case 0x13 =>
      var op := DecodeAluImm(f7, f3);
      if op.None? then None
      else Some(OpImm(op.value, Rd(w), Rs1(w), if f3 == 1 || f3 == 5 then Rs2(w) else ImmI(w)))
    case 0x33 =>
      if f7 == 1 then Some(MulDiv(DecodeMul(f3), Rd(w), Rs1(w), Rs2(w)))
      else
        var op := DecodeAlu(f7, f3);
        if op.Some? then Some(Op(op.value, Rd(w), Rs1(w), Rs2(w))) else None
    case 0x03 =>
      var size := DecodeSize(f3);
      if size.Some? && f3 < 6 then Some(Load(size.value, f3 < 4, Rd(w), Rs1(w), ImmI(w))) else None
    case 0x23 =>
      var size := DecodeSize(f3);
      if size.Some? && f3 < 4 then Some(Store(size.value, Rs1(w), Rs2(w), ImmS(w))) else None
    case 0x0F => if f3 == 0 then Some(Fence) else None
    case 0x73 =>
      if w == EBREAK then Some(Ebreak)
      else if w == MRET then Some(Mret)
      else if w == WFI then Some(Wfi)
      else if f3 % 4 == 0 then None
      else Some(Csr(if f3 % 4 == 1 then ReadWrite else if f3 % 4 == 2 then ReadSet else ReadClear,
                    Rd(w),
                    if f3 < 4 then Register(Rs1(w)) else Immediate(Rs1(w)),
                    Field(w, 31, 20)))
    case _ => None
  }

  // ----- arithmetic -----

  function Truth(b: bool): word { if b then 1 else 0 }

  function Alu(op: AluOp, a: word, b: word): word {
    match op
    case Add => U32(a + b)
    case Sub => U32(a - b)
    case Sll => U32(Shl(a, b % 32))
    case Slt => Truth(S32(a) < S32(b))
    case Sltu => Truth(a < b)
    case Exclusive => BitXor(a, b)
    case Srl => ShrWord(a, b % 32)
    case Sra => U32(S32(a) / P2(b % 32))
    case Inclusive => BitOr(a, b)
    case Conjunct => BitAnd(a, b)
  }

  function ShrWord(a: word, k: nat): word {
    ShrIsDiv(a, k);
    DivNonNeg(a, P2(k));
    Shr(a, k)
  }

  function Multiply(op: MulOp, a: word, b: word): word {
    match op
    case Mul => U32(S32(a) * S32(b))
    case Mulh => U32(S32(a) * S32(b) / W)
    case Mulhsu => U32(S32(a) * b / W)
    case Mulhu => U32(a * b / W)
    case Div => if b == 0 then 0xFFFF_FFFF else U32(TruncDiv(S32(a), S32(b)))
    case Divu => if b == 0 then 0xFFFF_FFFF else U32(a / b)
    case Rem => if b == 0 then a else U32(TruncRem(S32(a), S32(b)))
    case Remu => if b == 0 then a else U32(a % b)
  }

  predicate Taken(cond: BranchOp, a: word, b: word) {
    match cond
    case Beq => a == b
    case Bne => a != b
    case Blt => S32(a) < S32(b)
    case Bge => S32(a) >= S32(b)
    case Bltu => a < b
    case Bgeu => a >= b
  }

  // ----- memory access widths -----

  function Bytes(size: Size): nat {
    match size
    case OneByte => 1
    case HalfWord => 2
    case FullWord => 4
  }

  /** The address is a multiple of the access width. */
  predicate NaturallyAligned(size: Size, a: int) {
    match size
    case OneByte => true
    case HalfWord => a % 2 == 0
    case FullWord => a % 4 == 0
  }

  /** Byte lanes off, off+1, ... of a word, cut off at the word's end. */
  predicate InLanes(size: Size, off: nat, lane: nat) {
    off <= lane < off + Bytes(size) && lane < 4
  }

  /** InLanes as a four-bit mask. */
  function LaneMask(size: Size, off: nat): nat
    requires off < 4
  {
    match size
    case OneByte => if off == 0 then 1 else if off == 1 then 2 else if off == 2 then 4 else 8
    case HalfWord => if off == 0 then 3 else if off == 1 then 6 else if off == 2 then 12 else 8
    case FullWord => if off == 0 then 15 else if off == 1 then 14 else if off == 2 then 12 else 8
  }

  /** The register value of a load from the four bytes of the addressed word. */
  function LoadValue(size: Size, signExtend: bool, word4: word, off: nat): word
    requires off < 4
  {
    match size
    case OneByte => Extend(signExtend, ByteOf(word4, off), 0x80)
    case HalfWord => Extend(signExtend, ByteOf(word4, off) + 256 * ByteAbove(word4, off), 0x8000)
    case FullWord => word4
  }

  /** The byte after lane off, or zero past the end of the word. */
  function ByteAbove(word4: word, off: nat): byte {
    if off < 3 then ByteOf(word4, off + 1) else 0
  }

  function Extend(signExtend: bool, v: nat, sign: nat): word {
    U32(if signExtend && v >= sign then v - 2 * sign else v)
  }

  // ----- trap causes -----

  datatype Cause =
    | InstructionMisaligned(target: word)
    | IllegalInstruction
    | Breakpoint
    | LoadMisaligned | LoadFault | StoreMisaligned | StoreFault
    | EnvironmentCall
  {
    function Code(): word {
      match this
      case InstructionMisaligned(_) => 0
      case IllegalInstruction => 2
      case Breakpoint => 3
      case LoadMisaligned => 4
      case LoadFault => 5
      case StoreMisaligned => 6
      case StoreFault => 7
      case EnvironmentCall => 11
    }

    function Tval(insn: word, address: word): word {
      match this
      case InstructionMisaligned(target) => target
      case IllegalInstruction => insn
      case Breakpoint => 0
      case EnvironmentCall => 0
      case _ => address
    }
  }

  function JumpFault(target: word): Cause {
    if target / 2 % 2 == 1 then InstructionMisaligned(target) else IllegalInstruction
  }

  function Even(v: int): word { U32(v - v % 2) }

  /** Why an instruction that is reported as trapping traps. */
  function TrapCause(insn: word, pc: word, x1: word, address: word): Cause {
    if insn == ECALL then EnvironmentCall
    else if insn == EBREAK then Breakpoint
    else
      match Opcode(insn)
      case 0x6F => JumpFault(U32(pc + ImmJ(insn)))
      case 0x67 => JumpFault(Even(x1 + ImmI(insn)))
      case 0x63 => JumpFault(U32(pc + ImmB(insn)))
      case 0x03 =>
        var size := DecodeSize(Funct3(insn));
        if size.None? || Funct3(insn) >= 6 then IllegalInstruction
        else if !NaturallyAligned(size.value, address) then LoadMisaligned
        else LoadFault
      case 0x23 =>
        var size := DecodeSize(Funct3(insn));
        if size.None? || Funct3(insn) >= 4 then IllegalInstruction
        else if !NaturallyAligned(size.value, address) then StoreMisaligned
        else if 0x100 <= address <= 0x1FF && size.value != FullWord then IllegalInstruction
        else StoreFault
      case _ => IllegalInstruction
  }
}
