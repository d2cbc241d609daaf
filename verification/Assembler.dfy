/** The firmware assembler: encoders, label collection and assembly, undone by the decoder. */
module Assembler {
  import opened Bits
  import opened Isa
  import opened Encoding
  import opened Text
  import opened Wrappers

  datatype Error =
    | InvalidRegister | InvalidImmediate | InvalidMemoryOperand
    | ImmediateRange | OddOffset | UnknownLabel | UnsupportedInstruction | BadLabel

  datatype Result<+T> = Ok(value: T) | Err(error: Error) {
    predicate IsFailure() { Err? }
    function PropagateFailure<U>(): Result<U>
      requires Err?
    {
      Err(error)
    }
    function Extract(): T
      requires Ok?
    {
      value
    }
  }

  /** int(token, 0), which accepts the literals of Python. */
  type Literal = text -> Option<int>

  /** An instruction line: lower-cased operation and operand tokens. */
  datatype Stmt = Stmt(op: text, args: seq<text>)

  /** A source line without its comment: an optional label, possibly empty, and the rest. */
  datatype Line = Line(name: Option<text>, stmt: Option<text>)

  type Labels = map<text, nat>

  // ----- encoders -----

  /** signed(value, bits): range check, then two's complement. */
  function Signed(value: int, bits: nat): Result<nat>
    requires bits > 0
  {
    if 0 - P2(bits - 1) <= value < P2(bits - 1) then Ok(if value < 0 then value + P2(bits) else value)
    else Err(ImmediateRange)
  }

  /** encoded << 20 | rs1 << 15 | funct3 << 12 | rd << 7 | opcode */
  function EncodeI(encoded: nat, rs1: regnum, funct3: nat, rd: regnum, opcode: nat): nat {
    Bw(Or, Bw(Or, Bw(Or, Bw(Or, 0x10_0000 * encoded, 0x8000 * rs1), 0x1000 * funct3), 0x80 * rd), opcode)
  }

  function EncodeAddi(rd: regnum, rs1: regnum, value: int): Result<nat> {
    var encoded :- Signed(value, 12);
    Ok(EncodeI(encoded, rs1, 0, rd, 0x13))
  }

  function EncodeLw(rd: regnum, rs1: regnum, value: int): Result<nat> {
    var encoded :- Signed(value, 12);
    Ok(EncodeI(encoded, rs1, 2, rd, 0x03))
  }

  function EncodeSw(rs2: regnum, rs1: regnum, value: int): Result<nat> {
    var encoded :- Signed(value, 12);
    Ok(Bw(Or, Bw(Or, Bw(Or, Bw(Or, Bw(Or, 0x200_0000 * (encoded / 0x20), 0x10_0000 * rs2), 0x8000 * rs1),
                          0x1000 * 2), 0x80 * (encoded % 0x20)), 0x23))
  }

  function EncodeBeq(rs1: regnum, rs2: regnum, offset: int): Result<nat> {
    if offset % 2 != 0 then Err(OddOffset)
    else
      var e :- Signed(offset, 13);
      Ok(Bw(Or, Bw(Or, Bw(Or, Bw(Or, Bw(Or, Bw(Or,
        0x8000_0000 * (e / 0x1000 % 2), 0x200_0000 * (e / 0x20 % 0x40)), 0x10_0000 * rs2), 0x8000 * rs1),
        0x100 * (e / 2 % 0x10)), 0x80 * (e / 0x800 % 2)), 0x63))
  }

  // ----- one line -----

  predicate IsDecimal(c: char) {
    '0' <= c <= '9'
  }

  /** x0 to x31, without leading zeros. */
  function Register(t: text): Option<regnum> {
    if |t| == 2 && t[0] == 'x' && IsDecimal(t[1]) then Some(t[1] as int - '0' as int)
    else if |t| == 3 && t[0] == 'x' && ((t[1] in "12" && IsDecimal(t[2])) || (t[1] == '3' && t[2] in "01")) then
      Some(10 * (t[1] as int - '0' as int) + (t[2] as int - '0' as int))
    else None
  }

  function RegisterName(r: regnum): text {
    if r < 10 then ['x', '0' + r as char]
    else ['x', '0' + (r / 10) as char, '0' + (r % 10) as char]
  }

  /** A token is recognised exactly when it is the name of a register. */
  lemma RegisterIff(t: text, r: regnum)
    ensures Register(t) == Some(r) <==> t == RegisterName(r)
  {
    if Register(t) == Some(r) {
      assert |t| == |RegisterName(r)|;
    }
  }

  /** offset(xN): the text of the offset and the register. */
  function MemOperand(t: text): Option<(text, regnum)> {
    if '(' !in t then None
    else
      var offset, rest := BeforeFirst(t, '('), AfterFirst(t, '(');
      if offset == "" || ')' in offset || rest == "" || rest[|rest| - 1] != ')' then None
      else
        var base := Register(rest[..|rest| - 1]);
        if base.None? then None else Some((offset, base.value))
  }

  /** A memory operand is recognised exactly when it is an offset without parentheses, then a
      register in parentheses. */
  lemma MemOperandIff(t: text, offset: text, base: regnum)
    ensures MemOperand(t) == Some((offset, base)) <==>
      offset != "" && '(' !in offset && ')' !in offset && t == offset + "(" + RegisterName(base) + ")"
  {
    hide RegisterName, Register;
    if MemOperand(t) == Some((offset, base)) {
      var rest := AfterFirst(t, '(');
      RegisterIff(rest[..|rest| - 1], base);
      assert t == offset + "(" + rest && rest == rest[..|rest| - 1] + ")";
    } else if '(' !in offset && t == offset + "(" + RegisterName(base) + ")" {
      var rest := RegisterName(base) + ")";
      assert t == offset + ("(" + rest);
      FirstAfter(offset, '(', rest);
      RegisterIff(rest[..|rest| - 1], base);
      assert rest[..|rest| - 1] == RegisterName(base);
    }
  }

  function Reg(t: text): Result<regnum> {
    if Register(t).Some? then Ok(Register(t).value) else Err(InvalidRegister)
  }

  function Imm(literal: Literal, t: text): Result<int> {
    if literal(t).Some? then Ok(literal(t).value) else Err(InvalidImmediate)
  }

  /** line.replace(",", " ").split(), the first field lower-cased; a line of commas has none. */
  function Fields(line: text): Stmt {
    var fields := Split(CommasToSpaces(line), "");
    if fields == [] then Stmt("", []) else Stmt(Lower(fields[0]), fields[1..])
  }

  /** assemble_line, from the fields of the line. */
  function AssembleLine(literal: Literal, s: Stmt, pc: int, labels: Labels): Result<nat> {
    if s.op == "addi" && |s.args| == 3 then
      var rd :- Reg(s.args[0]);
      var rs1 :- Reg(s.args[1]);
      var value :- Imm(literal, s.args[2]);
      EncodeAddi(rd, rs1, value)
    else if (s.op == "lw" || s.op == "sw") && |s.args| == 2 then
      if MemOperand(s.args[1]).None? then Err(InvalidMemoryOperand)
      else
        var (offset, base) := MemOperand(s.args[1]).value;
        var value :- Imm(literal, offset);
        var r :- Reg(s.args[0]);
        if s.op == "lw" then EncodeLw(r, base, value) else EncodeSw(r, base, value)
    else if s.op == "beq" && |s.args| == 3 then
      if s.args[2] !in labels then Err(UnknownLabel)
      else
        var rs1 :- Reg(s.args[0]);
        var rs2 :- Reg(s.args[1]);
        EncodeBeq(rs1, rs2, labels[s.args[2]] - pc)
    else if s.op == "ebreak" && |s.args| == 0 then Ok(0x0010_0073)
    else if s.op == "nop" && |s.args| == 0 then Ok(0x0000_0013)
    else if s.op == ".word" && |s.args| == 1 then
      var value :- Imm(literal, s.args[0]);
      Ok(U32(value))
    else Err(UnsupportedInstruction)
  }

  /** What a line means as an instruction; a .word is only data. */
  ghost predicate Means(literal: Literal, s: Stmt, pc: int, labels: Labels, w: nat) {
    && w < W
    && match s.op
       case "addi" =>
         && |s.args| == 3 && Register(s.args[0]).Some? && Register(s.args[1]).Some? && literal(s.args[2]).Some?
         && Decode(w) ==
              Some(OpImm(Add, Register(s.args[0]).value, Register(s.args[1]).value, literal(s.args[2]).value))
       case "lw" =>
         && |s.args| == 2 && Register(s.args[0]).Some? && MemOperand(s.args[1]).Some?
         && (var (offset, base) := MemOperand(s.args[1]).value;
             && literal(offset).Some?
             && Decode(w) == Some(Load(FullWord, true, Register(s.args[0]).value, base, literal(offset).value)))
       case "sw" =>
         && |s.args| == 2 && Register(s.args[0]).Some? && MemOperand(s.args[1]).Some?
         && (var (offset, base) := MemOperand(s.args[1]).value;
             && literal(offset).Some?
             && Decode(w) == Some(Store(FullWord, base, Register(s.args[0]).value, literal(offset).value)))
       case "beq" =>
         && |s.args| == 3 && Register(s.args[0]).Some? && Register(s.args[1]).Some? && s.args[2] in labels
         && Decode(w) == Some(Branch(Beq, Register(s.args[0]).value, Register(s.args[1]).value, labels[s.args[2]] - pc))
       case "ebreak" => Decode(w) == Some(Ebreak)
       case "nop" => Decode(w) == Some(OpImm(Add, 0, 0, 0))
       case ".word" => |s.args| == 1 && literal(s.args[0]).Some? && w == U32(literal(s.args[0]).value)
       case _ => false
  }

  // ----- the encoders are undone by the decoder -----

  lemma Powers()
    ensures P2(5) == 0x20 && P2(7) == 0x80 && P2(8) == 0x100 && P2(11) == 0x800 && P2(12) == 0x1000
    ensures P2(13) == 0x2000 && P2(15) == 0x8000 && P2(20) == 0x10_0000 && P2(25) == 0x200_0000 && P2(31) == 0x8000_0000
  {
    P2Values();
    P2Add(8, 7);
    P2Add(20, 5);
    assert P2(13) == 2 * P2(12) && P2(12) == 2 * P2(11);
  }

  lemma EncodeIPacks(encoded: nat, rs1: regnum, funct3: nat, rd: regnum, opcode: nat)
    requires encoded < 0x1000 && funct3 < 8 && opcode < 0x80
    ensures EncodeI(encoded, rs1, funct3, rd, opcode) == Pack(encoded / 0x20, encoded % 0x20, rs1, funct3, rd, opcode)
  {
    hide Bw, P2;
    Powers();
    P2Values();
    OrSum(20, 0x10_0000, encoded, 0x8000 * rs1);
    OrSum(15, 0x8000, 0x20 * encoded + rs1, 0x1000 * funct3);
    OrSum(12, 0x1000, 0x100 * encoded + 8 * rs1 + funct3, 0x80 * rd);
    OrSum(7, 0x80, 0x2000 * encoded + 0x100 * rs1 + 0x20 * funct3 + rd, opcode);
  }

  lemma SignedTwelve(value: int)
    requires -0x800 <= value < 0x800
    ensures var e := if value < 0 then value + 0x1000 else value;
            && 0 <= e < 0x1000
            && 0x20 * (e / 0x20 % 0x40) + e % 0x20 - 0x800 * (e / 0x20 / 0x40) == value
  {
  }

  lemma AddiDecodes(rd: regnum, rs1: regnum, value: int)
    ensures EncodeAddi(rd, rs1, value).Ok? <==> -0x800 <= value < 0x800
    ensures EncodeAddi(rd, rs1, value).Ok? ==>
      var w := EncodeAddi(rd, rs1, value).value; w < W && Decode(w) == Some(OpImm(Add, rd, rs1, value))
  {
    hide Bw, EncodeI, Pack, P2, Field, Opcode, Rd, Rs1, Rs2, Funct3, Funct7;
    Powers();
    if -0x800 <= value < 0x800 {
      var e := if value < 0 then value + 0x1000 else value;
      SignedTwelve(value);
      EncodeIPacks(e, rs1, 0, rd, 0x13);
      PackFields(e / 0x20, e % 0x20, rs1, 0, rd, 0x13);
      PackSubfields(e / 0x20, e % 0x20, rs1, 0, rd, 0x13);
    }
  }

  lemma LwDecodes(rd: regnum, rs1: regnum, value: int)
    ensures EncodeLw(rd, rs1, value).Ok? <==> -0x800 <= value < 0x800
    ensures EncodeLw(rd, rs1, value).Ok? ==>
      var w := EncodeLw(rd, rs1, value).value; w < W && Decode(w) == Some(Load(FullWord, true, rd, rs1, value))
  {
    hide Bw, EncodeI, Pack, P2, Field, Opcode, Rd, Rs1, Rs2, Funct3, Funct7;
    Powers();
    if -0x800 <= value < 0x800 {
      var e := if value < 0 then value + 0x1000 else value;
      SignedTwelve(value);
      EncodeIPacks(e, rs1, 2, rd, 0x03);
      PackFields(e / 0x20, e % 0x20, rs1, 2, rd, 0x03);
      PackSubfields(e / 0x20, e % 0x20, rs1, 2, rd, 0x03);
    }
  }

  lemma SwPacks(e: nat, rs1: regnum, rs2: regnum)
    requires e < 0x1000
    ensures Bw(Or, Bw(Or, Bw(Or, Bw(Or, Bw(Or, 0x200_0000 * (e / 0x20), 0x10_0000 * rs2), 0x8000 * rs1),
                               0x1000 * 2), 0x80 * (e % 0x20)), 0x23)
         == Pack(e / 0x20, rs2, rs1, 2, e % 0x20, 0x23)
  {
    hide Bw, P2;
    Powers();
    P2Values();
    var h, l := e / 0x20, e % 0x20;
    OrSum(25, 0x200_0000, h, 0x10_0000 * rs2);
    OrSum(20, 0x10_0000, 0x20 * h + rs2, 0x8000 * rs1);
    OrSum(15, 0x8000, 0x400 * h + 0x20 * rs2 + rs1, 0x1000 * 2);
    OrSum(12, 0x1000, 0x2000 * h + 0x100 * rs2 + 8 * rs1 + 2, 0x80 * l);
    OrSum(7, 0x80, 0x4_0000 * h + 0x2000 * rs2 + 0x100 * rs1 + 0x40 + l, 0x23);
  }

  lemma SwDecodes(rs2: regnum, rs1: regnum, value: int)
    ensures EncodeSw(rs2, rs1, value).Ok? <==> -0x800 <= value < 0x800
    ensures EncodeSw(rs2, rs1, value).Ok? ==>
      var w := EncodeSw(rs2, rs1, value).value; w < W && Decode(w) == Some(Store(FullWord, rs1, rs2, value))
  {
    hide Bw, Pack, P2, Field, Opcode, Rd, Rs1, Rs2, Funct3, Funct7;
    Powers();
    if -0x800 <= value < 0x800 {
      var e := if value < 0 then value + 0x1000 else value;
      SignedTwelve(value);
      SwPacks(e, rs1, rs2);
      PackFields(e / 0x20, rs2, rs1, 2, e % 0x20, 0x23);
      PackSubfields(e / 0x20, rs2, rs1, 2, e % 0x20, 0x23);
    }
  }

  lemma BeqPacks(b12: nat, b10: nat, b4: nat, b11: nat, rs1: regnum, rs2: regnum)
    requires b12 < 2 && b10 < 0x40 && b4 < 0x10 && b11 < 2
    ensures Bw(Or, Bw(Or, Bw(Or, Bw(Or, Bw(Or, Bw(Or,
              0x8000_0000 * b12, 0x200_0000 * b10), 0x10_0000 * rs2), 0x8000 * rs1), 0x100 * b4), 0x80 * b11), 0x63)
         == Pack(0x40 * b12 + b10, rs2, rs1, 0, 2 * b4 + b11, 0x63)
  {
    hide Bw, P2;
    Powers();
    P2Values();
    OrSum(31, 0x8000_0000, b12, 0x200_0000 * b10);
    OrSum(25, 0x200_0000, 0x40 * b12 + b10, 0x10_0000 * rs2);
    OrSum(20, 0x10_0000, 0x800 * b12 + 0x20 * b10 + rs2, 0x8000 * rs1);
    OrSum(15, 0x8000, 0x1_0000 * b12 + 0x400 * b10 + 0x20 * rs2 + rs1, 0x100 * b4);
    OrSum(8, 0x100, 0x80_0000 * b12 + 0x2_0000 * b10 + 0x1000 * rs2 + 0x80 * rs1 + b4, 0x80 * b11);
    OrSum(7, 0x80, 0x100_0000 * b12 + 0x4_0000 * b10 + 0x2000 * rs2 + 0x100 * rs1 + 2 * b4 + b11, 0x63);
  }

  lemma SignedThirteen(value: int)
    requires -0x1000 <= value < 0x1000 && value % 2 == 0
    ensures var e := if value < 0 then value + 0x2000 else value;
            && 0 <= e < 0x2000
            && 0x800 * (e / 0x800 % 2) + 0x20 * (e / 0x20 % 0x40) + 2 * (e / 2 % 0x10) - 0x1000 * (e / 0x1000 % 2)
               == value
  {
    var e := if value < 0 then value + 0x2000 else value;
    var b12, b11, b10, b4 := e / 0x1000, e / 0x800 % 2, e / 0x20 % 0x40, e / 2 % 0x10;
    assert e == 0x1000 * b12 + 0x800 * b11 + 0x20 * b10 + 2 * b4 by {
      var h1 := e / 2;
      var h5 := h1 / 0x10;
      var h11 := h5 / 0x40;
      assert e / 0x20 == h5 && e / 0x800 == h11 && e / 0x1000 == h11 / 2;
    }
  }

  lemma BeqDecodes(rs1: regnum, rs2: regnum, offset: int)
    ensures EncodeBeq(rs1, rs2, offset).Ok? <==> offset % 2 == 0 && -0x1000 <= offset < 0x1000
    ensures EncodeBeq(rs1, rs2, offset).Ok? ==>
      var w := EncodeBeq(rs1, rs2, offset).value; w < W && Decode(w) == Some(Branch(Beq, rs1, rs2, offset))
  {
    hide Bw, Pack, P2, Decode;
    Powers();
    if offset % 2 == 0 && -0x1000 <= offset < 0x1000 {
      var e := if offset < 0 then offset + 0x2000 else offset;
      SignedThirteen(offset);
      var b12, b10, b4, b11 := e / 0x1000 % 2, e / 0x20 % 0x40, e / 2 % 0x10, e / 0x800 % 2;
      BeqPacks(b12, b10, b4, b11, rs1, rs2);
      BeqUnpacks(b12, b10, b4, b11, rs1, rs2);
    }
  }

  lemma BeqUnpacks(b12: nat, b10: nat, b4: nat, b11: nat, rs1: regnum, rs2: regnum)
    requires b12 < 2 && b10 < 0x40 && b4 < 0x10 && b11 < 2
    ensures Decode(Pack(0x40 * b12 + b10, rs2, rs1, 0, 2 * b4 + b11, 0x63))
         == Some(Branch(Beq, rs1, rs2, 0x800 * b11 + 0x20 * b10 + 2 * b4 - 0x1000 * b12))
  {
    hide Pack, Field, Opcode, Rd, Rs1, Rs2, Funct3, Funct7;
    PackFields(0x40 * b12 + b10, rs2, rs1, 0, 2 * b4 + b11, 0x63);
    PackSubfields(0x40 * b12 + b10, rs2, rs1, 0, 2 * b4 + b11, 0x63);
    DivUnique(0x40 * b12 + b10, 0x40, b12, b10);
    DivUnique(2 * b4 + b11, 2, b4, b11);
  }

  lemma ConstantsDecode()
    ensures Decode(0x0010_0073) == Some(Ebreak) && Decode(0x0000_0013) == Some(OpImm(Add, 0, 0, 0))
  {
    hide P2, Field, Opcode, Rd, Rs1, Rs2, Funct3, Funct7;
    PackFields(0, 1, 0, 0, 0, 0x73);
    PackFields(0, 0, 0, 0, 0, 0x13);
    PackSubfields(0, 0, 0, 0, 0, 0x13);
  }

  /** A word that assembles decodes to what its line says. */
  lemma LineDecodes(literal: Literal, s: Stmt, pc: int, labels: Labels)
    ensures AssembleLine(literal, s, pc, labels).Ok? ==>
      Means(literal, s, pc, labels, AssembleLine(literal, s, pc, labels).value)
  {
    hide Decode, EncodeAddi, EncodeLw, EncodeSw, EncodeBeq, Register, MemOperand;
    if AssembleLine(literal, s, pc, labels).Ok? {
      ConstantsDecode();
      if s.op == "addi" {
        AddiDecodes(Register(s.args[0]).value, Register(s.args[1]).value, literal(s.args[2]).value);
      } else if s.op == "lw" {
        var (offset, base) := MemOperand(s.args[1]).value;
        LwDecodes(Register(s.args[0]).value, base, literal(offset).value);
      } else if s.op == "sw" {
        var (offset, base) := MemOperand(s.args[1]).value;
        SwDecodes(Register(s.args[0]).value, base, literal(offset).value);
      } else if s.op == "beq" {
        BeqDecodes(Register(s.args[0]).value, Register(s.args[1]).value, labels[s.args[2]] - pc);
      }
    }
  }

  // ----- which lines assemble -----

  ghost predicate IsRegister(t: text) {
    exists r: regnum :: t == RegisterName(r)
  }

  /** An offset without parentheses, then a register in parentheses. */
  predicate IsOperand(t: text, offset: text, base: regnum) {
    offset != "" && '(' !in offset && ')' !in offset && t == offset + "(" + RegisterName(base) + ")"
  }

  ghost predicate IsMemOperand(t: text) {
    exists offset: text, base: regnum :: IsOperand(t, offset, base)
  }

  /** The token is an integer literal with a value from lo up to below hi. */
  predicate LiteralWithin(literal: Literal, t: text, lo: int, hi: int) {
    literal(t).Some? && lo <= literal(t).value < hi
  }

  /** The forms of a line: operation and number of operands. */
  predicate KnownForm(s: Stmt) {
    || (|s.args| == 3 && (s.op == "addi" || s.op == "beq"))
    || (|s.args| == 2 && (s.op == "lw" || s.op == "sw"))
    || (|s.args| == 1 && s.op == ".word")
    || (|s.args| == 0 && (s.op == "ebreak" || s.op == "nop"))
  }

  /** The operands that each form takes. */
  ghost predicate Encodable(literal: Literal, s: Stmt, pc: int, labels: Labels) {
    && KnownForm(s)
    && match s.op
       case "addi" =>
         IsRegister(s.args[0]) && IsRegister(s.args[1]) && LiteralWithin(literal, s.args[2], -0x800, 0x800)
       case "beq" =>
         && IsRegister(s.args[0]) && IsRegister(s.args[1]) && s.args[2] in labels
         && (labels[s.args[2]] - pc) % 2 == 0 && -0x1000 <= labels[s.args[2]] - pc < 0x1000
       case ".word" => literal(s.args[0]).Some?
       case "ebreak" => true
       case "nop" => true
       case _ =>
         && IsRegister(s.args[0])
         && exists offset: text, base: regnum ::
              IsOperand(s.args[1], offset, base) && LiteralWithin(literal, offset, -0x800, 0x800)
  }

  lemma RegisterKnown(t: text)
    ensures Register(t).Some? <==> IsRegister(t)
  {
    hide Register, RegisterName;
    if Register(t).Some? {
      RegisterIff(t, Register(t).value);
    }
    if r: regnum :| t == RegisterName(r) {
      RegisterIff(t, r);
    }
  }

  lemma OperandKnown(t: text)
    ensures MemOperand(t).Some? <==> IsMemOperand(t)
    ensures forall offset: text, base: regnum :: IsOperand(t, offset, base) <==> MemOperand(t) == Some((offset, base))
  {
    hide MemOperand, RegisterName;
    forall offset: text, base: regnum
      ensures IsOperand(t, offset, base) <==> MemOperand(t) == Some((offset, base))
    {
      MemOperandIff(t, offset, base);
    }
    if MemOperand(t).Some? {
      assert IsOperand(t, MemOperand(t).value.0, MemOperand(t).value.1);
    }
  }

  /** A line assembles exactly when its form is known and its operands are in range. */
  lemma AssemblesIff(literal: Literal, s: Stmt, pc: int, labels: Labels)
    ensures AssembleLine(literal, s, pc, labels).Ok? <==> Encodable(literal, s, pc, labels)
  {
    hide Register, MemOperand, IsRegister, IsOperand, EncodeAddi, EncodeLw, EncodeSw, EncodeBeq, Decode;
    if KnownForm(s) {
      if s.op == "addi" {
        RegisterKnown(s.args[0]);
        RegisterKnown(s.args[1]);
        if Register(s.args[0]).Some? && Register(s.args[1]).Some? && literal(s.args[2]).Some? {
          AddiDecodes(Register(s.args[0]).value, Register(s.args[1]).value, literal(s.args[2]).value);
        }
      } else if s.op == "beq" {
        RegisterKnown(s.args[0]);
        RegisterKnown(s.args[1]);
        if Register(s.args[0]).Some? && Register(s.args[1]).Some? && s.args[2] in labels {
          BeqDecodes(Register(s.args[0]).value, Register(s.args[1]).value, labels[s.args[2]] - pc);
        }
      } else if s.op == "lw" || s.op == "sw" {
        AccessAssembles(literal, s, pc, labels);
      }
    }
  }

  lemma AccessAssembles(literal: Literal, s: Stmt, pc: int, labels: Labels)
    requires |s.args| == 2 && (s.op == "lw" || s.op == "sw")
    ensures AssembleLine(literal, s, pc, labels).Ok? <==> Encodable(literal, s, pc, labels)
  {
    hide Register, MemOperand, IsRegister, IsOperand, EncodeLw, EncodeSw, Decode;
    RegisterKnown(s.args[0]);
    OperandKnown(s.args[1]);
    if MemOperand(s.args[1]).Some? {
      var (offset, base) := MemOperand(s.args[1]).value;
      assert IsOperand(s.args[1], offset, base);
      if Register(s.args[0]).Some? && literal(offset).Some? {
        LwDecodes(Register(s.args[0]).value, base, literal(offset).value);
        SwDecodes(Register(s.args[0]).value, base, literal(offset).value);
      }
    }
  }

  /** The errors that name the fault of the line. */
  lemma LineErrors(literal: Literal, s: Stmt, pc: int, labels: Labels)
    ensures var r := AssembleLine(literal, s, pc, labels);
            && (r == Err(UnsupportedInstruction) <==> !KnownForm(s))
            && (r == Err(UnknownLabel) <==> KnownForm(s) && s.op == "beq" && s.args[2] !in labels)
            && (r == Err(InvalidMemoryOperand) <==>
                 KnownForm(s) && (s.op == "lw" || s.op == "sw") && !IsMemOperand(s.args[1]))
  {
    hide Register, MemOperand, IsMemOperand, Bw, EncodeI;
    if KnownForm(s) && (s.op == "lw" || s.op == "sw") {
      OperandKnown(s.args[1]);
    }
  }

  /** The fields of a line, whatever blanks, tabs and commas separate them. */
  lemma FieldsJoined(op: text, args: seq<text>, seps: seq<text>)
    requires Separated([op] + args, seps)
    ensures Fields(Joined([op] + args, seps)) == Stmt(Lower(op), args)
  {
    hide Joined, Split, CommasToSpaces, Separated;
    SplitJoined([op] + args, seps);
  }

  lemma LowerMnemonics()
    ensures forall op :: op in {"addi", "lw", "sw", "beq", "ebreak", "nop", ".word"} ==> Lower(op) == op
  {
    forall op | op in {"addi", "lw", "sw", "beq", "ebreak", "nop", ".word"} ensures Lower(op) == op {
      forall i | 0 <= i < |op| ensures Lower(op)[i] == op[i] {
        LowerLetters(op, i);
      }
    }
  }

  /** A beq line in any layout: it assembles exactly when the label is defined and in reach. */
  lemma BeqText(literal: Literal, a: regnum, b: regnum, l: text, seps: seq<text>, pc: int, labels: Labels)
    requires Separated(["beq", RegisterName(a), RegisterName(b), l], seps)
    ensures var s := Fields(Joined(["beq", RegisterName(a), RegisterName(b), l], seps));
            && (AssembleLine(literal, s, pc, labels).Ok? <==>
                 l in labels && (labels[l] - pc) % 2 == 0 && -0x1000 <= labels[l] - pc < 0x1000)
            && (AssembleLine(literal, s, pc, labels).Ok? ==>
                 var w := AssembleLine(literal, s, pc, labels).value;
                 w < W && Decode(w) == Some(Branch(Beq, a, b, labels[l] - pc)))
  {
    hide Separated, Joined, Fields, AssembleLine, Decode, RegisterName, Lower;
    var args := [RegisterName(a), RegisterName(b), l];
    assert ["beq", RegisterName(a), RegisterName(b), l] == ["beq"] + args;
    FieldsJoined("beq", args, seps);
    LowerMnemonics();
    var s := Stmt("beq", args);
    AssemblesIff(literal, s, pc, labels);
    LineDecodes(literal, s, pc, labels);
    RegisterIff(args[0], a);
    RegisterIff(args[1], b);
    assert IsRegister(args[0]) && IsRegister(args[1]);
  }

  // ----- whole sources -----

  /** A line of the source: the comment goes, then a label before the first colon. */
  function ParseLine(raw: text): Line {
    var line := Strip(BeforeFirst(raw, '#'));
    if ':' in line then Line(Some(Strip(BeforeFirst(line, ':'))), NonEmpty(Strip(AfterFirst(line, ':'))))
    else Line(None, NonEmpty(line))
  }

  function NonEmpty(s: text): Option<text> {
    if s == "" then None else Some(s)
  }

  function Lines(source: seq<text>): (lines: seq<Line>)
    ensures |lines| == |source|
  {
    seq(|source|, k requires 0 <= k < |source| => ParseLine(source[k]))
  }

  function Statements(lines: seq<Line>): seq<text> {
    if lines == [] then []
    else
      var l := lines[|lines| - 1];
      Statements(lines[..|lines| - 1]) + (if l.stmt.Some? then [l.stmt.value] else [])
  }

  /** A line with a label, padding and a comment anywhere. */
  lemma LabelledLine(p0: text, l: text, p1: text, p2: text, s: text, p3: text, comment: text)
    requires AllSpace(p0) && AllSpace(p1) && AllSpace(p2) && AllSpace(p3)
    requires l != "" && Trimmed(l) && ':' !in l && '#' !in l && Trimmed(s) && '#' !in s
    requires comment == "" || comment[0] == '#'
    ensures ParseLine(p0 + l + p1 + ":" + p2 + s + p3 + comment) == Line(Some(l), if s == "" then None else Some(s))
  {
    hide Strip, BeforeFirst, AfterFirst, IsSpace, Trimmed, AllSpace;
    var code := p0 + l + p1 + ":" + p2 + s + p3;
    NoneInSpaces(p0);
    NoneInSpaces(p1);
    NoneInSpaces(p2);
    NoneInSpaces(p3);
    CommentCut(code, comment);
    var head := l + p1;
    var tail := if s == "" then "" else p2 + s;
    LabelStripped(p0, l, p1, p2, s, p3);
    FirstAfter(head, ':', tail);
    assert head + ([':'] + tail) == l + p1 + ":" + tail;
    StripPadded("", l, p1);
    assert "" + l + p1 == head;
    StripPadded(if s == "" then "" else p2, s, "");
    assert (if s == "" then "" else p2) + s + "" == tail;
    EmptyIsSpace();
  }

  lemma EmptyIsSpace()
    ensures AllSpace("")
  {
  }

  lemma NoneInSpaces(p: text)
    requires AllSpace(p)
    ensures '#' !in p && ':' !in p
  {
  }

  lemma CommentCut(code: text, comment: text)
    requires '#' !in code && (comment == "" || comment[0] == '#')
    ensures BeforeFirst(code + comment, '#') == code
  {
    if comment == "" {
      assert code + comment == code;
      NothingCut(code, '#');
    } else {
      assert comment == ['#'] + comment[1..];
      FirstAfter(code, '#', comment[1..]);
    }
  }

  lemma NothingCut(s: text, c: char)
    requires c !in s
    ensures BeforeFirst(s, c) == s
  {
    hide BeforeFirst;
    assert |BeforeFirst(s, c)| < |s| ==> s[|BeforeFirst(s, c)|] in s;
  }

  lemma LabelStripped(p0: text, l: text, p1: text, p2: text, s: text, p3: text)
    requires AllSpace(p0) && AllSpace(p1) && AllSpace(p2) && AllSpace(p3)
    requires l != "" && Trimmed(l) && Trimmed(s)
    ensures Strip(p0 + l + p1 + ":" + p2 + s + p3) == l + p1 + ":" + (if s == "" then "" else p2 + s)
  {
    hide Strip, AllSpace;
    var body := l + p1 + ":" + (if s == "" then "" else p2 + s);
    var pad := if s == "" then p2 + p3 else p3;
    assert p0 + l + p1 + ":" + p2 + s + p3 == p0 + body + pad;
    SpacesJoin(p2, p3);
    assert body[0] == l[0] && body[|body| - 1] == if s == "" then ':' else s[|s| - 1];
    StripPadded(p0, body, pad);
  }

  lemma SpacesJoin(p: text, q: text)
    requires AllSpace(p) && AllSpace(q)
    ensures AllSpace(p + q)
  {
  }

  /** A line without a label. */
  lemma PlainLine(p0: text, s: text, p1: text, comment: text)
    requires AllSpace(p0) && AllSpace(p1) && Trimmed(s) && ':' !in s && '#' !in s
    requires comment == "" || comment[0] == '#'
    ensures ParseLine(p0 + s + p1 + comment) == Line(None, if s == "" then None else Some(s))
  {
    hide Strip, BeforeFirst, AfterFirst, Trimmed, AllSpace;
    NoneInSpaces(p0);
    NoneInSpaces(p1);
    CommentCut(p0 + s + p1, comment);
    StripPadded(p0, s, p1);
  }

  /** The statement of line k comes after those of the lines before it. */
  lemma {:induction false} StatementAt(lines: seq<Line>, k: nat)
    requires k < |lines| && lines[k].stmt.Some?
    ensures var n := |Statements(lines[..k])|;
            n < |Statements(lines)| && Statements(lines)[n] == lines[k].stmt.value
    decreases |lines|
  {
    var m := |lines| - 1;
    if k < m {
      assert lines[..m][..k] == lines[..k];
      StatementAt(lines[..m], k);
    }
  }

  /** Line k defines the label. */
  predicate Defines(lines: seq<Line>, k: nat, l: text) {
    k < |lines| && lines[k].name == Some(l)
  }

  /** The address a label at line k stands for: that of the next statement. */
  function AddressOf(lines: seq<Line>, k: nat): nat
    requires k <= |lines|
  {
    4 * |Statements(lines[..k])|
  }

  /** Labels are neither empty nor defined twice. */
  ghost predicate GoodLabels(lines: seq<Line>) {
    && (forall k :: 0 <= k < |lines| ==> lines[k].name != Some(""))
    && (forall j, k :: 0 <= j < k < |lines| && lines[k].name.Some? ==> lines[j].name != lines[k].name)
  }

  /** The label map names exactly the labels of the lines, each at its address. */
  ghost predicate LabelsOf(lines: seq<Line>, labels: Labels) {
    && (forall l :: l in labels <==> exists k: nat :: Defines(lines, k, l))
    && (forall k: nat, l :: Defines(lines, k, l) ==> l in labels && labels[l] == AddressOf(lines, k))
  }

  /** parse_source, from the lines of the text. */
  method ParseSource(source: seq<text>) returns (r: Result<(seq<text>, Labels)>)
    ensures r.Ok? <==> GoodLabels(Lines(source))
    ensures r.Ok? ==> r.value.0 == Statements(Lines(source)) && LabelsOf(Lines(source), r.value.1)
    ensures r.Err? ==> r.error == BadLabel
  {
    hide Statements, Strip, BeforeFirst, AfterFirst;
    var instructions, labels: Labels := [], map[];
    ghost var lines := Lines(source);
    NoLines();
    assert lines[..0] == [];
    for n := 0 to |source|
      invariant GoodLabels(lines[..n])
      invariant instructions == Statements(lines[..n]) && LabelsOf(lines[..n], labels)
    {
      assert lines[..n + 1] == lines[..n] + [lines[n]] && lines[n] == ParseLine(source[n]);
      var line := Strip(BeforeFirst(source[n], '#'));
      if line == "" {
        PlainSnoc(lines[..n], lines[n], labels);
        StatementsSnoc(lines[..n], lines[n]);
        continue;
      }
      if ':' in line {
        var name := Strip(BeforeFirst(line, ':'));
        if name == "" || name in labels {
          BadAt(lines, n, labels);
          return Err(BadLabel);
        }
        LabelSnoc(lines[..n], lines[n], labels);
        labels := labels[name := |instructions| * 4];
        line := Strip(AfterFirst(line, ':'));
      } else {
        PlainSnoc(lines[..n], lines[n], labels);
      }
      if line != "" {
        instructions := instructions + [line];
      }
      StatementsSnoc(lines[..n], lines[n]);
    }
    assert lines[..|lines|] == lines;
    r := Ok((instructions, labels));
  }

  lemma NoLines()
    ensures Statements([]) == [] && GoodLabels([]) && LabelsOf([], map[])
  {
  }

  lemma StatementsSnoc(lines: seq<Line>, l: Line)
    ensures Statements(lines + [l]) == if l.stmt.Some? then Statements(lines) + [l.stmt.value] else Statements(lines)
  {
    assert (lines + [l])[..|lines|] == lines;
  }

  lemma BadAt(lines: seq<Line>, n: nat, labels: Labels)
    requires n < |lines| && lines[n].name.Some? && LabelsOf(lines[..n], labels)
    requires lines[n].name.value == "" || lines[n].name.value in labels
    ensures !GoodLabels(lines)
  {
    var l := lines[n].name.value;
    if l in labels {
      var k: nat :| Defines(lines[..n], k, l);
      assert lines[k].name == lines[n].name;
    }
  }

  lemma PlainSnoc(lines: seq<Line>, l: Line, labels: Labels)
    requires GoodLabels(lines) && LabelsOf(lines, labels) && l.name.None?
    ensures GoodLabels(lines + [l]) && LabelsOf(lines + [l], labels)
  {
    DefinesSnoc(lines, l);
  }

  lemma DefinesSnoc(lines: seq<Line>, l: Line)
    ensures forall k: nat, t ::
      Defines(lines + [l], k, t) <==> Defines(lines, k, t) || (k == |lines| && l.name == Some(t))
    ensures forall k: nat :: k <= |lines| ==> AddressOf(lines + [l], k) == AddressOf(lines, k)
  {
    forall k: nat | k <= |lines| ensures AddressOf(lines + [l], k) == AddressOf(lines, k) {
      assert (lines + [l])[..k] == lines[..k];
    }
  }

  lemma LabelSnoc(lines: seq<Line>, l: Line, labels: Labels)
    requires GoodLabels(lines) && LabelsOf(lines, labels)
    requires l.name.Some? && l.name.value != "" && l.name.value !in labels
    ensures GoodLabels(lines + [l])
    ensures LabelsOf(lines + [l], labels[l.name.value := |Statements(lines)| * 4])
  {
    hide Statements;
    var ls, t := lines + [l], l.name.value;
    DefinesSnoc(lines, l);
    assert lines[..|lines|] == lines;
    assert Defines(ls, |lines|, t);
    forall j | 0 <= j < |lines| ensures ls[j].name != Some(t) {
      assert Defines(lines, j, t) ==> t in labels;
    }
    var after := labels[t := |Statements(lines)| * 4];
    forall k: nat, u | Defines(ls, k, u) ensures u in after && after[u] == AddressOf(ls, k) {
      if k < |lines| {
        assert Defines(lines, k, u) && u != t;
      }
    }
    forall u ensures u in after <==> exists k: nat :: Defines(ls, k, u) {
      if u in after && u != t {
        var k: nat :| Defines(lines, k, u);
        assert Defines(ls, k, u);
      }
    }
  }

  /** Statement i of the source assembles to w. */
  predicate AssemblesTo(literal: Literal, lines: seq<Line>, labels: Labels, i: nat, w: nat)
    requires i < |Statements(lines)|
  {
    AssembleLine(literal, Fields(Statements(lines)[i]), 4 * i, labels) == Ok(w)
  }

  /** assemble: every statement at four times its index, or the first error; with the labels
      it was assembled under. */
  method Assemble(literal: Literal, source: seq<text>) returns (r: Result<seq<nat>>, labels: Labels)
    ensures GoodLabels(Lines(source)) ==> LabelsOf(Lines(source), labels)
    ensures r.Ok? <==>
      && GoodLabels(Lines(source))
      && forall i :: 0 <= i < |Statements(Lines(source))| ==>
           Encodable(literal, Fields(Statements(Lines(source))[i]), 4 * i, labels)
    ensures r.Ok? ==>
      && |r.value| == |Statements(Lines(source))|
      && forall i :: 0 <= i < |r.value| ==> AssemblesTo(literal, Lines(source), labels, i, r.value[i])
    ensures r.Ok? ==> forall i :: 0 <= i < |r.value| ==>
      Means(literal, Fields(Statements(Lines(source))[i]), 4 * i, labels, r.value[i])
  {
    hide AssembleLine, Fields, GoodLabels, LabelsOf, Statements, Lines, Encodable, Means;
    labels := map[];
    var parsed := ParseSource(source);
    if parsed.Err? {
      return Err(parsed.error), labels;
    }
    var (instructions, found) := parsed.value;
    labels := found;
    var words := [];
    for i := 0 to |instructions|
      invariant |words| == i
      invariant forall j :: 0 <= j < i ==>
        && AssembleLine(literal, Fields(instructions[j]), 4 * j, found) == Ok(words[j])
        && Encodable(literal, Fields(instructions[j]), 4 * j, found)
        && Means(literal, Fields(instructions[j]), 4 * j, found, words[j])
    {
      var w := AssembleLine(literal, Fields(instructions[i]), i * 4, found);
      AssemblesIff(literal, Fields(instructions[i]), 4 * i, found);
      LineDecodes(literal, Fields(instructions[i]), 4 * i, found);
      if w.Err? {
        return Err(w.error), labels;
      }
      words := words + [w.value];
    }
    r := Ok(words);
  }

  /** For every source that assembles, word i decodes to line i's instruction. */
  lemma AssembledDecodes(literal: Literal, lines: seq<Line>, words: seq<nat>, labels: Labels, i: nat)
    requires LabelsOf(lines, labels) && i < |words| == |Statements(lines)|
    requires AssemblesTo(literal, lines, labels, i, words[i])
    ensures Means(literal, Fields(Statements(lines)[i]), 4 * i, labels, words[i])
  {
    LineDecodes(literal, Fields(Statements(lines)[i]), 4 * i, labels);
  }

  /** A taken beq at 4i reaches the statement after its label, forward or backward. */
  lemma BranchReachesLabel(literal: Literal, lines: seq<Line>, words: seq<nat>, labels: Labels, i: nat, k: nat)
    requires LabelsOf(lines, labels) && i < |words| == |Statements(lines)|
    requires AssemblesTo(literal, lines, labels, i, words[i])
    requires var s := Fields(Statements(lines)[i]); s.op == "beq" && |s.args| == 3 && Defines(lines, k, s.args[2])
    ensures words[i] < W && Decode(words[i]).Some? && Decode(words[i]).value.Branch?
    ensures Decode(words[i]).value.cond == Beq && 4 * i + Decode(words[i]).value.offset == AddressOf(lines, k)
  {
    hide Statements, Fields, Decode, AssembleLine, Register, MemOperand;
    AssembledDecodes(literal, lines, words, labels, i);
  }
}
