/** The checker refines the hart: it accepts exactly the traces that are, epoch by epoch,
    runs of the hart from reset. */
module Refinement {
  import opened Bits
  import opened Isa
  import opened Machine
  import opened Checker
  import opened Rv32m
  import opened Wrappers

  // ----- the simulation relation -----

  ghost predicate CsrsMatch(cfg: Config, csrs: map<int, word>, c: Csrs) {
    && Get(csrs, 0x300) == Mstatus(c)
    && Get(csrs, 0x301) == Misa(cfg)
    && Get(csrs, 0x304) == MieReg(c)
    && Get(csrs, 0x305) == Mtvec(c) && c.tvecBase % 4 == 0
    && Get(csrs, 0x340) == c.mscratch
    && Get(csrs, 0x341) == c.mepc
    && Get(csrs, 0x342) == c.mcause
    && Get(csrs, 0x343) == c.mtval
  }

  lemma GetPut(csrs: map<int, word>, csr: int, v: word)
    requires CsrsOk(csrs) && KnownCsr(csr) && Holds(csr, v)
    ensures forall k :: Get(Checker.Put(csrs, csr, v), k) == if k == csr then v else Get(csrs, k)
  {
  }

  /** Word memory and byte memory name the same bytes. */
  ghost predicate MemoryMatches(words: map<int, word>, mem: Memory) {
    forall a: int :: mem(a) == ImageByte(words, a)
  }

  /** The checker's registers, PC, memory and CSRs are the hart's; pending and counter
      CSRs, which each access takes from the trace, are free. */
  ghost predicate Simulates(cfg: Config, s: State, h: Hart) {
    && StateOk(s)
    && s.regs == h.x
    && s.expectedPc == h.pc
    && MemoryMatches(s.memory, h.mem)
    && CsrsMatch(cfg, s.csrs, h.csr)
  }

  /** The register columns of a row name the registers in its instruction. */
  predicate NamesItsRegisters(row: Row) {
    row.rs1Addr == Rs1(row.insn) && row.rs2Addr == Rs2(row.insn)
  }

  lemma InitialCsrsMatch(cfg: Config)
    ensures CsrsMatch(cfg, InitialCsrs(cfg), ResetHart(cfg).csr)
  {
    var m := InitialCsrs(cfg);
    assert Get(m, 0x300) == 0x1800 && Get(m, 0x304) == 0 && Get(m, 0x305) == 0x300;
    assert Get(m, 0x340) == 0 && Get(m, 0x341) == 0 && Get(m, 0x342) == 0 && Get(m, 0x343) == 0;
  }

  lemma ResetSimulates(cfg: Config, s: State)
    ensures Simulates(cfg, ResetEpoch(cfg, s), ResetHart(cfg))
    ensures Simulates(cfg, InitialState(cfg), ResetHart(cfg))
  {
    hide InitialCsrs, CsrsMatch, CsrsOk;
    InitialCsrsMatch(cfg);
  }

  // ----- immediates -----

  /** Extending a sign bit on top of a lower part subtracts its weight. */
  lemma SignBit(top: nat, rest: nat, bits: nat, p: nat)
    requires bits > 0 && p == P2(bits - 1) && top < 2 && rest < p
    ensures SignExtend(p * top + rest, bits) == rest - p * top
  {
    assert P2(bits) == 2 * p;
    assert top == 0 || top == 1;
  }

  lemma AddImmIsImmI(w: word)
    ensures AddImm(w) == U32(ImmI(w))
  {
    P2Values();
    ImmFieldBounds(w);
    FieldSplit(w, 31, 31, 20);
    FieldBound(w, 30, 20);
    SignBit(Field(w, 31, 31), Field(w, 30, 20), 12, 0x800);
  }

  /** The or of the shifted fields is their sum, and the top bit is a sign. */
  lemma BranchImmIsImmB(w: word)
    ensures BranchImm(w) == U32(ImmB(w))
  {
    hide Bw, P2, Field, SignExtend, U32;
    ImmFieldBounds(w);
    BranchSum(Field(w, 31, 31), Field(w, 7, 7), Field(w, 30, 25), Field(w, 11, 8));
  }

  lemma BranchSum(f31: nat, f7: nat, f30: nat, f11: nat)
    requires f31 < 2 && f7 < 2 && f30 < 0x40 && f11 < 0x10
    ensures SignExtend(Bw(Or, Bw(Or, Bw(Or, 0x1000 * f31, 0x800 * f7), 0x20 * f30), 2 * f11), 13)
         == 0x800 * f7 + 0x20 * f30 + 2 * f11 - 0x1000 * f31
  {
    hide Bw, P2;
    BranchOr(f31, f7, f30, f11);
    ImmPowers();
    SignBit(f31, 0x800 * f7 + 0x20 * f30 + 2 * f11, 13, 0x1000);
  }

  lemma BranchOr(f31: nat, f7: nat, f30: nat, f11: nat)
    requires f31 < 2 && f7 < 2 && f30 < 0x40 && f11 < 0x10
    ensures Bw(Or, Bw(Or, Bw(Or, 0x1000 * f31, 0x800 * f7), 0x20 * f30), 2 * f11)
         == 0x1000 * f31 + 0x800 * f7 + 0x20 * f30 + 2 * f11
  {
    hide Bw, P2;
    ImmPowers();
    OrSum(12, 0x1000, f31, 0x800 * f7);
    OrSum(11, 0x800, 2 * f31 + f7, 0x20 * f30);
    OrSum(5, 0x20, 0x80 * f31 + 0x40 * f7 + f30, 2 * f11);
  }

  lemma JumpImmIsImmJ(w: word)
    ensures JumpImm(w) == U32(ImmJ(w))
  {
    hide Bw, P2, Field, SignExtend, U32;
    ImmFieldBounds(w);
    JumpSum(Field(w, 31, 31), Field(w, 19, 12), Field(w, 20, 20), Field(w, 30, 21));
  }

  lemma JumpSum(f31: nat, f19: nat, f20: nat, f30: nat)
    requires f31 < 2 && f19 < 0x100 && f20 < 2 && f30 < 0x400
    ensures SignExtend(Bw(Or, Bw(Or, Bw(Or, 0x10_0000 * f31, 0x1000 * f19), 0x800 * f20), 2 * f30), 21)
         == 0x1000 * f19 + 0x800 * f20 + 2 * f30 - 0x10_0000 * f31
  {
    hide Bw, P2;
    JumpOr(f31, f19, f20, f30);
    ImmPowers();
    SignBit(f31, 0x1000 * f19 + 0x800 * f20 + 2 * f30, 21, 0x10_0000);
  }

  lemma JumpOr(f31: nat, f19: nat, f20: nat, f30: nat)
    requires f31 < 2 && f19 < 0x100 && f20 < 2 && f30 < 0x400
    ensures Bw(Or, Bw(Or, Bw(Or, 0x10_0000 * f31, 0x1000 * f19), 0x800 * f20), 2 * f30)
         == 0x10_0000 * f31 + 0x1000 * f19 + 0x800 * f20 + 2 * f30
  {
    hide Bw, P2;
    ImmPowers();
    OrSum(20, 0x10_0000, f31, 0x1000 * f19);
    OrSum(12, 0x1000, 0x100 * f31 + f19, 0x800 * f20);
    OrSum(11, 0x800, 0x200 * f31 + 2 * f19 + f20, 2 * f30);
  }

  lemma ImmPowers()
    ensures P2(5) == 0x20 && P2(11) == 0x800 && P2(12) == 0x1000 && P2(20) == 0x10_0000
  {
    P2Values();
    assert P2(12) == 2 * P2(11);
  }

  lemma ImmFieldBounds(w: word)
    ensures Field(w, 31, 31) < 2 && Field(w, 7, 7) < 2 && Field(w, 20, 20) < 2
    ensures Field(w, 30, 25) < 0x40 && Field(w, 11, 8) < 0x10
    ensures Field(w, 19, 12) < 0x100 && Field(w, 30, 21) < 0x400
    ensures P2(11) == 0x800
  {
    P2Values();
    ImmPowers();
    assert P2(10) == 4 * P2(8);
    FieldBound(w, 31, 31);
    FieldBound(w, 7, 7);
    FieldBound(w, 20, 20);
    FieldBound(w, 30, 25);
    FieldBound(w, 11, 8);
    FieldBound(w, 19, 12);
    FieldBound(w, 30, 21);
  }

  // ----- computation -----

  lemma RegisterOpIsAlu(funct7: nat, funct3: nat, a: word, b: word)
    ensures RegisterOp(funct7, funct3, a, b) ==
            var op := DecodeAlu(funct7, funct3);
            if op.Some? then Some(Alu(op.value, a, b)) else None
  {
  }

  lemma ImmediateOpIsAlu(w: word, a: word)
    ensures ImmediateOp(w, a) ==
            var op := DecodeAluImm(Funct7(w), Funct3(w));
            var imm := if Funct3(w) == 1 || Funct3(w) == 5 then Rs2(w) else ImmI(w);
            if op.Some? then Some(Alu(op.value, a, U32(imm))) else None
  {
    hide AddImm, ImmI, Field, U32, S32, Shl, ShrWord, P2, BitXor, BitOr, BitAnd;
    AddImmIsImmI(w);
    ShiftAmount(Rs2(w));
  }

  lemma ShiftAmount(shamt: regnum)
    ensures U32(shamt) == shamt && shamt % 32 == shamt
  {
  }

  lemma ResultIsMultiply(funct3: nat, a: word, b: word)
    requires funct3 < 8
    ensures Result(funct3, a, b) == Multiply(DecodeMul(funct3), a, b)
  {
    var x, y := S32(a), S32(b);
    if funct3 == 0 {
      SignedTimes(a, x, y);
      SignedTimes(b, y, a);
    } else if funct3 == 4 || funct3 == 6 {
      SignedDivision(a, b);
      if b != 0 && Overflows(x, y) {
        assert TruncDiv(x, y) == 0x8000_0000;
      }
    }
  }

  lemma JumpsAgree(s: State, row: Row)
    requires StateOk(s)
    ensures Opcode(row.insn) == 0x6F ==> JumpTarget(s, row) == U32(row.pc + ImmJ(row.insn))
    ensures Opcode(row.insn) == 0x63 ==> JumpTarget(s, row) == U32(row.pc + ImmB(row.insn))
    ensures Opcode(row.insn) == 0x67 ==> JumpTarget(s, row) == Even(s.regs[row.rs1Addr] + ImmI(row.insn))
  {
    hide Field, ImmB, ImmJ, ImmI, BranchImm, JumpImm, AddImm, CsrsOk, Opcode;
    var w := row.insn;
    JumpImmIsImmJ(w);
    BranchImmIsImmB(w);
    AddImmIsImmI(w);
    U32Add(row.pc, ImmJ(w));
    U32Add(row.pc, ImmB(w));
    EvenOfSum(s.regs[row.rs1Addr], ImmI(w));
  }

  lemma EvenOfSum(a: word, b: int)
    ensures U32(a + U32(b) - (a + U32(b)) % 2) == Even(a + b)
  {
    var t := a + U32(b);
    EvenShift(t, b / W);
    U32Shift(t - t % 2, b / W);
  }

  lemma EvenShift(t: int, k: int)
    ensures (t + k * W) % 2 == t % 2
  {
    DivUnique(t + k * W, 2, t / 2 + k * 0x8000_0000, t % 2);
  }

  /** The row's instruction decodes exactly when the checker calls it legal, and executes
      to the same destination, value and successor. */
  ghost predicate ComputesSame(cfg: Config, h: Hart, i: Inputs, insn: word, e: Expected) {
    var instr := Decode(insn);
    && (e.legal <==> instr.Some?)
    && (instr.Some? ==>
         && !instr.value.Load? && !instr.value.Store?
         && Execute(cfg, h, i, instr.value) == Some(Effect(e.rd, e.value, e.nextPc, h.mem, h.csr)))
  }

  ghost predicate SameOperands(s: State, h: Hart, row: Row) {
    StateOk(s) && s.regs == h.x && NamesItsRegisters(row) && row.pc == h.pc
  }

  /** Every opcode except loads, stores and SYSTEM computes what the hart computes. */
  lemma ComputeAgrees(cfg: Config, s: State, h: Hart, i: Inputs, row: Row)
    requires SameOperands(s, h, row)
    requires Opcode(row.insn) !in {0x03, 0x23, 0x73}
    ensures ComputesSame(cfg, h, i, row.insn, ExpectedCompute(s, row))
  {
    var op := Opcode(row.insn);
    if op == 0x13 {
      ImmediatesAgree(cfg, s, h, i, row);
    } else if op == 0x33 {
      RegistersAgree(cfg, s, h, i, row);
    } else if op == 0x6F || op == 0x67 {
      TransfersAgree(cfg, s, h, i, row);
    } else if op == 0x63 {
      BranchesAgree(cfg, s, h, i, row);
    } else {
      OthersAgree(cfg, s, h, i, row);
    }
  }

  lemma ImmediatesAgree(cfg: Config, s: State, h: Hart, i: Inputs, row: Row)
    requires SameOperands(s, h, row) && Opcode(row.insn) == 0x13
    ensures ComputesSame(cfg, h, i, row.insn, ExpectedCompute(s, row))
  {
    hide CsrsOk, Field, AddImm, ImmI, Alu, ImmediateOp, DecodeAluImm, U32;
    var w := row.insn;
    ImmediateOpIsAlu(w, s.regs[row.rs1Addr]);
    var op := DecodeAluImm(Funct7(w), Funct3(w));
    var imm := if Funct3(w) == 1 || Funct3(w) == 5 then Rs2(w) else ImmI(w);
    assert Decode(w) == if op.None? then None else Some(OpImm(op.value, Rd(w), Rs1(w), imm));
  }

  lemma RegistersAgree(cfg: Config, s: State, h: Hart, i: Inputs, row: Row)
    requires SameOperands(s, h, row) && Opcode(row.insn) == 0x33
    ensures ComputesSame(cfg, h, i, row.insn, ExpectedCompute(s, row))
  {
    var w, a, b := row.insn, s.regs[row.rs1Addr], s.regs[row.rs2Addr];
    RegisterOpIsAlu(Funct7(w), Funct3(w), a, b);
    ResultIsMultiply(Funct3(w), a, b);
  }

  lemma TransfersAgree(cfg: Config, s: State, h: Hart, i: Inputs, row: Row)
    requires SameOperands(s, h, row) && (Opcode(row.insn) == 0x6F || Opcode(row.insn) == 0x67)
    ensures ComputesSame(cfg, h, i, row.insn, ExpectedCompute(s, row))
  {
    hide CsrsOk, Field, ImmB, ImmJ, ImmI, JumpTarget, Opcode, Funct3, Funct7, U32;
    JumpsAgree(s, row);
  }

  lemma BranchesAgree(cfg: Config, s: State, h: Hart, i: Inputs, row: Row)
    requires SameOperands(s, h, row) && Opcode(row.insn) == 0x63
    ensures ComputesSame(cfg, h, i, row.insn, ExpectedCompute(s, row))
  {
    hide CsrsOk, Field, ImmB, ImmJ, ImmI, JumpTarget, Opcode, Funct3, Funct7, BranchTaken, Taken, DecodeBranch, U32;
    JumpsAgree(s, row);
    TakenAgrees(Funct3(row.insn), s.regs[row.rs1Addr], s.regs[row.rs2Addr]);
  }

  lemma TakenAgrees(funct3: nat, a: word, b: word)
    ensures BranchTaken(funct3, a, b) ==
            var cond := DecodeBranch(funct3);
            if cond.Some? then Some(Taken(cond.value, a, b)) else None
  {
  }

  lemma OthersAgree(cfg: Config, s: State, h: Hart, i: Inputs, row: Row)
    requires SameOperands(s, h, row)
    requires Opcode(row.insn) !in {0x03, 0x13, 0x23, 0x33, 0x63, 0x67, 0x6F, 0x73}
    ensures ComputesSame(cfg, h, i, row.insn, ExpectedCompute(s, row))
  {
  }

  // ----- loads -----

  lemma SameWordAddress(cfg: Config, a: word)
    ensures MemoryWordAddress(cfg, a) == Physical(cfg, a) - Physical(cfg, a) % 4
    ensures Physical(cfg, a) % 4 == a % 4
  {
  }

  lemma SameWord(words: map<int, word>, mem: Memory, base: int)
    requires MemoryMatches(words, mem) && base % 4 == 0
    ensures WordAt(mem, base) == Get(words, base)
  {
    hide ByteOf, ImageByte, Get, WordOf;
    WordBytes(Get(words, base));
    ByteInWord(words, base, 0);
    ByteInWord(words, base, 1);
    ByteInWord(words, base, 2);
    ByteInWord(words, base, 3);
  }

  lemma ByteInWord(words: map<int, word>, base: int, k: nat)
    requires base % 4 == 0 && k < 4
    ensures ImageByte(words, base + k) == ByteOf(Get(words, base), k)
  {
    assert (base + k) % 4 == k;
  }

  /** The checker's shifted mask selects the hart's lanes. */
  lemma MaskIsLanes(size: Size, off: nat)
    requires off < 4
    ensures Low(Shl(if size.OneByte? then 0x1 else if size.HalfWord? then 0x3 else 0xF, off), 4)
         == LaneMask(size, off) != 0
  {
    if off == 0 {
      MaskValue(1, 1); MaskValue(3, 3); MaskValue(15, 15);
    } else if off == 1 {
      MaskValue(2, 2); MaskValue(6, 6); MaskValue(30, 14);
    } else if off == 2 {
      MaskValue(4, 4); MaskValue(12, 12); MaskValue(60, 12);
    } else {
      MaskValue(8, 8); MaskValue(24, 8); MaskValue(120, 8);
    }
  }

  lemma MaskValue(v: nat, m: nat)
    requires v % 16 == m
    ensures Low(v, 4) == m
  {
    P2Values();
    ShrIsDiv(v, 4);
  }

  /** Each bit of the mask says whether its lane is accessed. */
  lemma LaneMaskBits(size: Size, off: nat)
    requires off < 4
    ensures forall lane :: 0 <= lane < 4 ==> Bit(LaneMask(size, off), lane) == InLanes(size, off, lane)
  {
    ShrSmall(LaneMask(size, off));
  }

  lemma LoadedValueAgrees(funct3: nat, w: word, off: nat)
    requires off < 4 && DecodeSize(funct3).Some? && funct3 < 6
    ensures LoadedValue(funct3, w, off) == LoadValue(DecodeSize(funct3).value, funct3 < 4, w, off)
  {
    hide Shr, Low, ByteOf, Extend, SignExtend, U32;
    ByteShift(w, off);
    ExtendAgrees(ByteOf(w, off), 8, 0x80);
    ExtendAgrees(ByteOf(w, off) + 256 * ByteAbove(w, off), 16, 0x8000);
  }

  lemma ExtendAgrees(v: word, bits: nat, sign: nat)
    requires (bits == 8 && sign == 0x80) || (bits == 16 && sign == 0x8000)
    requires v < 2 * sign
    ensures U32(SignExtend(v, bits)) == Extend(true, v, sign) && Extend(false, v, sign) == v
  {
    P2Values();
    assert P2(16) == 2 * P2(15);
  }

  ghost predicate SuppliesRow(cfg: Config, i: Inputs, row: Row) {
    && i.memAddr == row.memAddr && i.memWdata == row.memWdata
    && i.irqExternal == row.irqLevel && i.irqTimer == row.irqTimerLevel
    && (Opcode(row.insn) == 0x03 && Mmio(cfg, row.memAddr) ==> i.mmioData == row.memRdata)
    && (SamplesCounter(row) ==> i.sample == row.rdData)
  }

  lemma LoadDecodes(w: word)
    requires Opcode(w) == 0x03
    ensures Decode(w) ==
            if Funct3(w) in {0, 1, 2, 4, 5} then
              Some(Load(DecodeSize(Funct3(w)).value, Funct3(w) < 4, Rd(w), Rs1(w), ImmI(w)))
            else None
  {
  }

  /** The word the checker takes for a load. */
  function ModelWord(cfg: Config, s: State, row: Row): word {
    if Mmio(cfg, row.memAddr) then row.memRdata else Get(s.memory, MemoryWordAddress(cfg, row.memAddr))
  }

  lemma LoadExpected(cfg: Config, s: State, row: Row)
    requires Opcode(row.insn) == 0x03
    ensures var e, instr, off := ExpectedLoad(cfg, s, row), Decode(row.insn), row.memAddr % 4;
            && (e.legal && e.faults == [] <==>
                 && instr.Some?
                 && row.rmask == LaneMask(instr.value.size, off)
                 && row.memRdata == ModelWord(cfg, s, row))
            && (instr.Some? ==>
                 && instr.value.Load? && e.rd == instr.value.rd && e.nextPc == U32(row.pc + 4)
                 && e.value == LoadValue(instr.value.size, instr.value.signExtend, ModelWord(cfg, s, row), off))
  {
    hide Low, Shl, Shr, LaneMask, LoadedValue, LoadValue, Get, MemoryWordAddress, Mmio, Decode, Field;
    LoadDecodes(row.insn);
    var instr, off := Decode(row.insn), row.memAddr % 4;
    if instr.Some? {
      MaskIsLanes(instr.value.size, off);
      LoadedValueAgrees(Funct3(row.insn), ModelWord(cfg, s, row), off);
    }
  }

  lemma LoadAgrees(cfg: Config, s: State, h: Hart, i: Inputs, row: Row)
    requires SameOperands(s, h, row) && Opcode(row.insn) == 0x03
    requires MemoryMatches(s.memory, h.mem) && SuppliesRow(cfg, i, row)
    ensures var e, instr := ExpectedLoad(cfg, s, row), Decode(row.insn);
            && (e.legal && e.faults == [] <==>
                 && instr.Some?
                 && row.rmask == LaneMask(instr.value.size, row.memAddr % 4)
                 && (!Mmio(cfg, row.memAddr) ==> row.memRdata == LoadSource(cfg, h, i)))
            && (instr.Some? ==>
                 && instr.value.Load?
                 && Execute(cfg, h, i, instr.value) == Some(Effect(e.rd, e.value, e.nextPc, h.mem, h.csr)))
  {
    hide ExpectedLoad, Decode, Mmio, MemoryWordAddress, LoadValue, LaneMask, WordAt, Get, ImageByte;
    LoadExpected(cfg, s, row);
    SameWordAddress(cfg, row.memAddr);
    SameWord(s.memory, h.mem, MemoryWordAddress(cfg, row.memAddr));
    assert LoadSource(cfg, h, i) == ModelWord(cfg, s, row);
  }

  // ----- stores -----

  /** The lane loop raises exactly when it meets a selected lane below the offset;
      otherwise each selected lane takes its source byte and the others keep theirs. */
  lemma {:induction false} MergedBytes(w: word, wdata: word, wmask: nat, off: nat, n: nat)
    requires n <= 4 && off < 4
    ensures var m := MergedLanes(w, wdata, wmask, off, n);
            && (m.None? <==> exists lane :: 0 <= lane < n && lane < off && Bit(wmask, lane))
            && (m.Some? ==> forall lane :: 0 <= lane < 4 ==>
                 ByteOf(m.value, lane) ==
                   if lane < n && Bit(wmask, lane) then ByteOf(wdata, lane - off) else ByteOf(w, lane))
  {
    if n > 0 {
      var lane := n - 1;
      MergedBytes(w, wdata, wmask, off, lane);
      OneBit(wmask, lane);
      ShlIsMul(1, lane);
      var before := MergedLanes(w, wdata, wmask, off, lane);
      if before.Some? && Bit(wmask, lane) && lane >= off {
        ByteShift(wdata, lane - off);
        PutLaneBytes(before.value, lane, ByteOf(wdata, lane - off));
      }
    }
  }

  /** With the mask of its size, a store merges exactly the lanes the hart writes. */
  lemma FullMaskMerges(w: word, wdata: word, size: Size, off: nat)
    requires off < 4
    ensures var m := MergedLanes(w, wdata, LaneMask(size, off), off, 4);
            && m.Some?
            && forall lane :: 0 <= lane < 4 ==>
                 ByteOf(m.value, lane) ==
                   if InLanes(size, off, lane) then ByteOf(wdata, lane - off) else ByteOf(w, lane)
  {
    hide MergedLanes, ByteOf, LaneMask, Bit;
    MergedBytes(w, wdata, LaneMask(size, off), off, 4);
    LaneMaskBits(size, off);
  }

  /** Replacing one memory word replaces the four bytes at its address. */
  lemma StoreWord(words: map<int, word>, base: int, w: word, a: int)
    requires base % 4 == 0
    ensures ImageByte(words[base := w], a) ==
            if base <= a < base + 4 then ByteOf(w, a - base) else ImageByte(words, a)
  {
    hide ByteOf;
    var m := a - a % 4;
    if m == base {
      assert a % 4 == a - base;
    }
  }

  lemma StoreMatches(words: map<int, word>, mem: Memory, size: Size, p: word, wdata: word)
    requires MemoryMatches(words, mem)
    ensures var base, off := p - p % 4, p % 4;
            var m := MergedLanes(Get(words, base), wdata, LaneMask(size, off), off, 4);
            m.Some? && MemoryMatches(words[base := m.value], StoreBytes(mem, size, p, wdata))
  {
    hide MergedLanes, ByteOf, LaneMask, ImageByte, Get, InLanes;
    var base, off := p - p % 4, p % 4;
    FullMaskMerges(Get(words, base), wdata, size, off);
    var m := MergedLanes(Get(words, base), wdata, LaneMask(size, off), off, 4).value;
    forall a: int ensures StoreBytes(mem, size, p, wdata)(a) == ImageByte(words[base := m], a) {
      StoreWord(words, base, m, a);
      if base <= a < base + 4 {
        LaneIsByte(size, p, a);
        ByteInWord(words, base, a - base);
      } else {
        OutsideWord(size, p, a);
      }
    }
  }

  lemma LaneIsByte(size: Size, p: int, a: int)
    requires p - p % 4 <= a < p - p % 4 + 4
    ensures InLanes(size, p % 4, a - (p - p % 4)) <==> p <= a < p + Bytes(size) && a < p - p % 4 + 4
    ensures InLanes(size, p % 4, a - (p - p % 4)) ==> a - (p - p % 4) - p % 4 == a - p
  {
  }

  lemma OutsideWord(size: Size, p: int, a: int)
    requires !(p - p % 4 <= a < p - p % 4 + 4)
    ensures !(p <= a < p + Bytes(size) && a < p - p % 4 + 4)
  {
  }

  lemma StoreDecodes(w: word)
    requires Opcode(w) == 0x23
    ensures Decode(w) ==
            if Funct3(w) in {0, 1, 2} then Some(Store(DecodeSize(Funct3(w)).value, Rs1(w), Rs2(w), ImmS(w)))
            else None
    ensures Funct3(w) in {0, 1, 2} ==> DecodeSize(Funct3(w)).Some?
  {
  }

  lemma StoreExpected(cfg: Config, s: State, row: Row)
    requires Opcode(row.insn) == 0x23
    ensures var e, instr, a := ExpectedStore(cfg, s, row), Decode(row.insn), row.memAddr;
            var base := MemoryWordAddress(cfg, a);
            && (e.legal && e.faults == [] <==> instr.Some? && row.wmask == LaneMask(instr.value.size, a % 4))
            && e.rd == 0 && e.value == 0 && e.nextPc == U32(row.pc + 4)
            && (instr.Some? ==> instr.value.Store?)
            && (var m := MergedLanes(Get(s.memory, base), row.memWdata, row.wmask, a % 4, 4);
                && e.raised == m.None?
                && e.memory == if m.None? || Mmio(cfg, a) then s.memory else s.memory[base := m.value])
  {
    hide Low, Shl, Shr, LaneMask, Get, MemoryWordAddress, Mmio, Decode, Field, MergedLanes;
    StoreDecodes(row.insn);
    var instr, off := Decode(row.insn), row.memAddr % 4;
    if instr.Some? {
      MaskIsLanes(instr.value.size, off);
    }
  }

  lemma StoreAgrees(cfg: Config, s: State, h: Hart, i: Inputs, row: Row)
    requires SameOperands(s, h, row) && Opcode(row.insn) == 0x23
    requires MemoryMatches(s.memory, h.mem) && SuppliesRow(cfg, i, row)
    ensures var e, instr := ExpectedStore(cfg, s, row), Decode(row.insn);
            && (e.legal && e.faults == [] <==> instr.Some? && row.wmask == LaneMask(instr.value.size, row.memAddr % 4))
            && (instr.Some? ==> instr.value.Store?)
            && (e.legal && e.faults == [] ==>
                 && !e.raised
                 && Execute(cfg, h, i, instr.value).Some?
                 && (var f := Execute(cfg, h, i, instr.value).value;
                     && f.rd == e.rd && f.value == e.value && f.pc == e.nextPc && f.csr == h.csr
                     && MemoryMatches(e.memory, f.mem)))
  {
    hide ExpectedStore, Decode, Mmio, MemoryWordAddress, LaneMask, Get, ImageByte, MergedLanes, StoreBytes, Physical;
    StoreExpected(cfg, s, row);
    SameWordAddress(cfg, row.memAddr);
    var instr := Decode(row.insn);
    if instr.Some? {
      StoreMatches(s.memory, h.mem, instr.value.size, Physical(cfg, row.memAddr), row.memWdata);
    }
  }

  // ----- system instructions -----

  lemma WriteMatches(cfg: Config, csrs: map<int, word>, c: Csrs, csr: nat, v: word)
    requires CsrsOk(csrs) && CsrsMatch(cfg, csrs, c) && KnownCsr(csr) && csr != MISA && csr != MIP
    ensures CsrsMatch(cfg, Checker.Put(csrs, csr, Legalized(csr, v)), WriteCsr(c, csr, v))
  {
    hide CsrsOk, Holds, Get, Checker.Put, Legalized, Misa, Mtvec, Bit;
    GetPut(csrs, csr, Legalized(csr, v));
    WrittenValue(c, csr, v);
  }

  /** The legalized value is what the written register then reads as; the others read as before. */
  lemma WrittenValue(c: Csrs, csr: nat, v: word)
    ensures var d := WriteCsr(c, csr, v);
            && (csr == MSTATUS ==> Legalized(csr, v) == Mstatus(d))
            && (csr == MIE ==> Legalized(csr, v) == MieReg(d))
            && (csr == MTVEC ==> Legalized(csr, v) == Mtvec(d) && d.tvecBase % 4 == 0)
            && (csr != MTVEC ==> Mtvec(d) == Mtvec(c))
            && (csr == MSCRATCH ==> Legalized(csr, v) == d.mscratch)
            && (csr == MEPC ==> Legalized(csr, v) == d.mepc)
            && (csr == MCAUSE ==> Legalized(csr, v) == d.mcause)
            && (csr == MTVAL ==> Legalized(csr, v) == d.mtval)
  {
    hide Bit, StatusOnWrite, MieOnWrite, Mtvec;
    if csr == MTVEC {
      WrittenVector(c, v);
    } else {
      VectorKept(c, WriteCsr(c, csr, v));
    }
  }

  lemma WrittenVector(c: Csrs, v: word)
    ensures Mtvec(c.(tvecBase := v - v % 4, vectored := v % 4 == 1)) == v - v % 4 + (if v % 4 == 1 then 1 else 0)
  {
  }

  /** Writes to pending bits and counters leave the modelled CSRs alone. */
  lemma UnstoredWrites(c: Csrs, csr: nat, v: word)
    requires IsCounter(csr) || csr == MIP
    ensures WriteCsr(c, csr, v) == c
  {
  }

  lemma StatusMatches(v: word, c: Csrs)
    requires IsStatus(v) && v == Mstatus(c)
    ensures StatusOnMret(v) == Mstatus(LeaveHandler(c))
    ensures forall pc, cause, tval :: StatusOnTrap(v) == Mstatus(EnterHandler(c, pc, cause, tval))
  {
    hide StatusOnMret, StatusOnTrap;
  }

  lemma MretMatches(cfg: Config, csrs: map<int, word>, c: Csrs)
    requires CsrsOk(csrs) && CsrsMatch(cfg, csrs, c)
    ensures CsrsMatch(cfg, Checker.Put(csrs, 0x300, StatusOnMret(csrs[0x300])), LeaveHandler(c))
  {
    hide Checker.Put, StatusOnMret, Mtvec, Mstatus, Misa;
    var v := csrs[0x300];
    StatusMatches(v, c);
    GetPut(csrs, 0x300, StatusOnMret(v));
    assert Mtvec(LeaveHandler(c)) == Mtvec(c) by { VectorKept(c, LeaveHandler(c)); }
  }

  lemma VectorKept(c: Csrs, d: Csrs)
    requires c.tvecBase == d.tvecBase && c.vectored == d.vectored
    ensures Mtvec(c) == Mtvec(d)
  {
  }

  lemma TrapEntryMatches(cfg: Config, csrs: map<int, word>, c: Csrs, pc: word, cause: word, tval: word)
    requires CsrsOk(csrs) && CsrsMatch(cfg, csrs, c)
    ensures CsrsMatch(cfg, TrapEntryCsrs(csrs, pc, cause, tval), EnterHandler(c, pc, cause, tval))
  {
    hide Checker.Put, StatusOnTrap, Mtvec, Mstatus, Misa;
    var v := csrs[0x300];
    StatusMatches(v, c);
    GetPut(csrs, 0x341, pc);
    var m1 := Checker.Put(csrs, 0x341, pc);
    GetPut(m1, 0x342, cause);
    var m2 := Checker.Put(m1, 0x342, cause);
    GetPut(m2, 0x343, tval);
    var m3 := Checker.Put(m2, 0x343, tval);
    GetPut(m3, 0x300, StatusOnTrap(v));
    VectorKept(c, EnterHandler(c, pc, cause, tval));
  }

  /** The checker's lookup of a CSR finds what the hart reads, a sampled counter apart. */
  lemma ReadMatches(cfg: Config, s: State, h: Hart, i: Inputs, row: Row, csr: nat)
    requires StateOk(s) && CsrsMatch(cfg, s.csrs, h.csr) && SuppliesRow(cfg, i, row)
    ensures var csrs, was := CsrsBeforeAccess(s, row, csr), ReadCsr(cfg, h.csr, i, csr);
            && (csr in s.csrs <==> was.Some?)
            && CsrsMatch(cfg, csrs, h.csr)
            && (was.Some? && !IsCounter(csr) ==> Get(csrs, csr) == was.value)
            && (IsCounter(csr) ==> Get(csrs, csr) == row.rdData)
  {
    hide CsrsOk, Checker.Put, Get, Mstatus, Misa, MieReg, Mtvec, Opcode, Mmio, SamplesCounter;
    KeysKnown(s.csrs, csr);
    if csr == MIP {
      GetPut(s.csrs, csr, PendingBits(row));
    } else if IsCounter(csr) {
      GetPut(s.csrs, csr, row.rdData);
    }
  }

  function PendingBits(row: Row): word {
    (if row.irqLevel then 0x800 else 0) + (if row.irqTimerLevel then 0x80 else 0)
  }

  lemma SystemDecodes(w: word)
    requires Opcode(w) == 0x73 && w !in {EBREAK, MRET, WFI}
    ensures Decode(w) ==
            if Funct3(w) % 4 == 0 then None
            else Some(Csr(if Funct3(w) % 4 == 1 then ReadWrite else if Funct3(w) % 4 == 2 then ReadSet else ReadClear,
                          Rd(w), if Funct3(w) < 4 then Register(Rs1(w)) else Immediate(Rs1(w)), Field(w, 31, 20)))
  {
  }

  ghost predicate SystemSame(cfg: Config, h: Hart, i: Inputs, insn: word, e: Expected) {
    var instr := Decode(insn);
    && (e.legal <==> instr.Some? && Execute(cfg, h, i, instr.value).Some?)
    && (e.legal ==>
         && !instr.value.Load? && !instr.value.Store?
         && (var f := Execute(cfg, h, i, instr.value).value;
             && f.rd == e.rd && (e.rd != 0 ==> f.value == e.value) && f.pc == e.nextPc && f.mem == h.mem
             && CsrsMatch(cfg, e.csrs, f.csr)))
  }

  lemma SystemAgrees(cfg: Config, s: State, h: Hart, i: Inputs, row: Row)
    requires SameOperands(s, h, row) && Opcode(row.insn) == 0x73 && Executes(row)
    requires CsrsMatch(cfg, s.csrs, h.csr) && SuppliesRow(cfg, i, row)
    ensures SystemSame(cfg, h, i, row.insn, ExpectedSystem(s, row))
  {
    if row.insn == EBREAK || row.insn == MRET || row.insn == WFI {
      ReturnAgrees(cfg, s, h, i, row);
    } else {
      CsrAgrees(cfg, s, h, i, row);
    }
  }

  lemma SpecialDecodes(w: word)
    requires Opcode(w) == 0x73
    ensures w == EBREAK ==> Decode(w) == Some(Ebreak)
    ensures w == MRET ==> Decode(w) == Some(Mret)
    ensures w == WFI ==> Decode(w) == Some(Wfi)
  {
    hide Opcode, Field;
  }

  lemma SystemExecutes(cfg: Config, h: Hart, i: Inputs)
    ensures Execute(cfg, h, i, Ebreak) == Some(Effect(0, 0, U32(h.pc + 4), h.mem, h.csr))
    ensures Execute(cfg, h, i, Wfi) == Some(Effect(0, 0, U32(h.pc + 4), h.mem, h.csr))
    ensures Execute(cfg, h, i, Mret) == Some(Effect(0, 0, h.csr.mepc, h.mem, LeaveHandler(h.csr)))
  {
  }

  lemma ReturnAgrees(cfg: Config, s: State, h: Hart, i: Inputs, row: Row)
    requires SameOperands(s, h, row) && Opcode(row.insn) == 0x73
    requires row.insn == EBREAK || row.insn == MRET || row.insn == WFI
    requires CsrsMatch(cfg, s.csrs, h.csr)
    ensures SystemSame(cfg, h, i, row.insn, ExpectedSystem(s, row))
  {
    hide Opcode, Field, Decode, Execute, StatusOnMret, Checker.Put, LeaveHandler;
    SpecialDecodes(row.insn);
    SystemExecutes(cfg, h, i);
    MretMatches(cfg, s.csrs, h.csr);
  }

  lemma CsrAgrees(cfg: Config, s: State, h: Hart, i: Inputs, row: Row)
    requires SameOperands(s, h, row) && Opcode(row.insn) == 0x73 && Executes(row)
    requires row.insn !in {EBREAK, MRET, WFI}
    requires CsrsMatch(cfg, s.csrs, h.csr) && SuppliesRow(cfg, i, row)
    ensures SystemSame(cfg, h, i, row.insn, ExpectedSystem(s, row))
  {
    hide Field, CsrsMatch, WriteCsr, ReadCsr, BitOr, BitClear, Decode, Legalized, CsrsBeforeAccess, Get, Checker.Put,
      CsrsOk, Opcode, Funct3, Rd, Rs1, U32, Mmio;
    var csr := Field(row.insn, 31, 20);
    KeysKnown(s.csrs, csr);
    SystemDecodes(row.insn);
    ReadMatches(cfg, s, h, i, row, csr);
    if IsCounter(csr) && Rd(row.insn) != 0 && Funct3(row.insn) != 0 {
      SampledOnlyWithDestination(cfg, h.csr, i, row, csr);
    }
    if csr in s.csrs {
      var csrs := CsrsBeforeAccess(s, row, csr);
      var v := CombineSource(Funct3(row.insn) % 4, Get(csrs, csr), SourceOf(s, row));
      if csr != MISA && csr != MIP {
        WriteMatches(cfg, csrs, h.csr, csr, v);
      }
      if IsCounter(csr) || csr == MIP {
        forall u: word ensures WriteCsr(h.csr, csr, u) == h.csr {
          UnstoredWrites(h.csr, csr, u);
        }
      }
    }
  }

  lemma KeysKnown(csrs: map<int, word>, csr: int)
    requires CsrsOk(csrs)
    ensures csr in csrs <==> KnownCsr(csr)
  {
  }

  lemma SampledOnlyWithDestination(cfg: Config, c: Csrs, i: Inputs, row: Row, csr: nat)
    requires SuppliesRow(cfg, i, row) && Executes(row) && Opcode(row.insn) == 0x73 && Funct3(row.insn) != 0
    requires csr == Field(row.insn, 31, 20) && IsCounter(csr) && Rd(row.insn) != 0
    ensures ReadCsr(cfg, c, i, csr) == Some(row.rdData)
  {
    hide Field;
  }

  // ----- one row -----

  /** The columns that every kind of row predicts in the same way. */
  ghost predicate CommonColumns(cfg: Config, h: Hart, row: Row) {
    && row.pc == h.pc
    && (row.intr || Fetches(cfg, h.pc, row.insn))
    && row.mstatus == Mstatus(h.csr) && row.mie == MieReg(h.csr) && row.mtvec == Mtvec(h.csr)
    && row.mscratch == h.csr.mscratch
    && (row.trap || row.intr || (row.mepc == h.csr.mepc && row.mcause == h.csr.mcause && row.mtval == h.csr.mtval))
    && (row.rs1Addr, row.rs1Data) == (Rs1(row.insn), h.x[Rs1(row.insn)])
    && (row.rs2Addr, row.rs2Data) == (Rs2(row.insn), h.x[Rs2(row.insn)])
  }

  lemma CommonAgrees(cfg: Config, s: State, h: Hart, row: Row)
    requires Simulates(cfg, s, h)
    ensures CommonFaults(cfg, s, row) == [] && NamesItsRegisters(row) <==> CommonColumns(cfg, h, row)
  {
    hide Rs1, Rs2, Mstatus, MieReg, Mtvec, Misa, CsrsOk, MemoryMatches;
    SnapshotAgrees(cfg, s, h, row);
  }

  lemma SnapshotAgrees(cfg: Config, s: State, h: Hart, row: Row)
    requires Simulates(cfg, s, h)
    ensures SnapshotFaults(s.csrs, row, row.trap || row.intr) == [] <==>
            && row.mstatus == Mstatus(h.csr) && row.mie == MieReg(h.csr) && row.mtvec == Mtvec(h.csr)
            && row.mscratch == h.csr.mscratch
            && (row.trap || row.intr ||
                 (row.mepc == h.csr.mepc && row.mcause == h.csr.mcause && row.mtval == h.csr.mtval))
  {
    hide Mstatus, MieReg, Mtvec, Misa, MemoryMatches;
    assert forall k :: KnownCsr(k) ==> k in s.csrs && s.csrs[k] == Get(s.csrs, k);
  }

  /** An interrupt row is a step exactly when its own checks pass. */
  lemma InterruptAgrees(cfg: Config, h: Hart, order: int, row: Row)
    requires row.intr && CommonColumns(cfg, h, row) && row.order == order && h.csr.tvecBase % 4 == 0
    ensures InterruptFaults(row) == [] <==> StepsTo(cfg, h, order, row)
    ensures StepsTo(cfg, h, order, row) ==>
      After(cfg, h, order, row) == h.(pc := row.nextPc,
        csr := EnterHandler(h.csr, h.pc, if row.irqLevel then 0x8000_000B else 0x8000_0007, 0))
  {
    hide Rs1, Rs2, Mmio, SamplesCounter, Opcode;
    VectorMode(h.csr);
  }

  lemma VectorMode(c: Csrs)
    requires c.tvecBase % 4 == 0
    ensures Mtvec(c) - Mtvec(c) % 4 == c.tvecBase && (Mtvec(c) % 4 == 1 <==> c.vectored)
  {
  }

  lemma CauseAgrees(s: State, row: Row)
    requires StateOk(s) && NamesItsRegisters(row)
    ensures var cause := TrapCause(row.insn, row.pc, s.regs[row.rs1Addr], row.memAddr);
            && ExpectedCause(s, row) == cause.Code()
            && ExpectedTval(s, row) == cause.Tval(row.insn, row.memAddr)
  {
    hide Opcode, Field, JumpTarget, ImmI, ImmB, ImmJ, Even;
    JumpsAgree(s, row);
    assert Field(row.insn, 14, 12) == Funct3(row.insn);
  }

  /** A trap row is a step exactly when its own checks pass. */
  lemma TrapAgrees(cfg: Config, s: State, h: Hart, order: int, row: Row)
    requires row.trap && !row.intr && Simulates(cfg, s, h)
    requires CommonColumns(cfg, h, row) && row.order == order
    ensures TrapFaults(s, row) == [] <==> StepsTo(cfg, h, order, row)
    ensures StepsTo(cfg, h, order, row) ==>
      After(cfg, h, order, row) == h.(pc := row.nextPc,
        csr := EnterHandler(h.csr, h.pc, ExpectedCause(s, row), ExpectedTval(s, row)))
  {
    hide Rs1, Rs2, Mmio, SamplesCounter, Opcode, TrapCause, ExpectedCause, ExpectedTval, CsrsOk, MemoryMatches, Mtvec;
    CauseAgrees(s, row);
    VectorMode(h.csr);
  }

  /** The mask and load-data columns of an executed row are the ones its instruction predicts. */
  ghost predicate AccessColumns(cfg: Config, h: Hart, i: Inputs, row: Row, instr: Instr) {
    && (instr.Load? ==>
         && row.rmask == LaneMask(instr.size, row.memAddr % 4)
         && (!Mmio(cfg, row.memAddr) ==> row.memRdata == LoadSource(cfg, h, i)))
    && (instr.Store? ==> row.wmask == LaneMask(instr.size, row.memAddr % 4))
  }

  /** The checker finds the instruction itself in order exactly when the hart executes it
      with these access columns, and then both leave the same state. */
  ghost predicate ExecutesSame(cfg: Config, h: Hart, i: Inputs, row: Row, e: Expected) {
    var instr := Decode(row.insn);
    && (e.legal && e.faults == [] && !e.raised <==>
         && instr.Some?
         && Execute(cfg, h, i, instr.value).Some?
         && AccessColumns(cfg, h, i, row, instr.value))
    && (instr.Some? ==> (instr.value.Load? <==> Opcode(row.insn) == 0x03))
    && (instr.Some? ==> (instr.value.Store? <==> Opcode(row.insn) == 0x23))
    && (e.legal && e.faults == [] && !e.raised ==>
         var f := Execute(cfg, h, i, instr.value).value;
         && f.rd == e.rd && (e.rd != 0 ==> f.value == e.value) && f.pc == e.nextPc
         && MemoryMatches(e.memory, f.mem) && CsrsMatch(cfg, e.csrs, f.csr))
  }

  lemma KindByOpcode(w: word)
    ensures Decode(w).Some? ==> (Decode(w).value.Load? <==> Opcode(w) == 0x03)
    ensures Decode(w).Some? ==> (Decode(w).value.Store? <==> Opcode(w) == 0x23)
  {
    hide Opcode, Field, DecodeAlu, DecodeAluImm, DecodeBranch, DecodeMul, DecodeSize, ImmB, ImmI, ImmJ, ImmS, ImmU;
  }

  lemma ExecuteAgrees(cfg: Config, s: State, h: Hart, i: Inputs, row: Row)
    requires Simulates(cfg, s, h) && SameOperands(s, h, row) && Executes(row) && SuppliesRow(cfg, i, row)
    ensures ExecutesSame(cfg, h, i, row, ExpectedOf(cfg, s, row))
  {
    hide Decode, Execute, ExpectedLoad, ExpectedStore, ExpectedSystem, ExpectedCompute, CsrsMatch, CsrsOk,
      Opcode, Mmio, LoadSource, LaneMask, MemoryMatches;
    KindByOpcode(row.insn);
    if Opcode(row.insn) == 0x03 {
      LoadAgrees(cfg, s, h, i, row);
    } else if Opcode(row.insn) == 0x23 {
      StoreAgrees(cfg, s, h, i, row);
    } else if Opcode(row.insn) == 0x73 {
      SystemAgrees(cfg, s, h, i, row);
    } else {
      ComputeAgrees(cfg, s, h, i, row);
    }
  }

  /** The destination columns predicted for an executed row, and the register file after it. */
  lemma DestinationAgrees(x: Regs, rd: regnum, value: word, e: Expected, row: Row)
    requires rd == e.rd && (rd != 0 ==> value == e.value)
    ensures row.rdAddr == e.rd && (row.rdAddr != 0 ==> row.rdData == (if e.rd == 0 then 0 else e.value)) <==>
      (if row.rdAddr == 0 then (0, 0) else (row.rdAddr, row.rdData)) == (rd, if rd == 0 then 0 else value)
    ensures row.rdAddr == e.rd && (row.rdAddr != 0 ==> row.rdData == e.value) ==>
      SetReg(x, row.rdAddr, row.rdData) == SetReg(x, rd, value)
  {
  }

  /** An executed row is a step exactly when the checker finds nothing wrong with it. */
  lemma ExecutedAgrees(cfg: Config, s: State, h: Hart, order: int, row: Row)
    requires Executes(row) && Simulates(cfg, s, h)
    requires CommonColumns(cfg, h, row) && row.order == order
    ensures var e := ExpectedOf(cfg, s, row);
            && (!e.raised && e.faults == [] && RetireFaults(e, row) == [] <==> StepsTo(cfg, h, order, row))
            && (StepsTo(cfg, h, order, row) ==>
                 var k := After(cfg, h, order, row);
                 && k.x == SetReg(s.regs, row.rdAddr, row.rdData) && k.pc == e.nextPc
                 && MemoryMatches(e.memory, k.mem) && CsrsMatch(cfg, e.csrs, k.csr))
  {
    hide Rs1, Rs2, Mmio, SamplesCounter, Opcode, Decode, Execute, ExpectedOf, CsrsMatch, CsrsOk, LaneMask,
      LoadSource, MemoryMatches, Mstatus, MieReg, Mtvec, SetReg;
    var i, e := InputsOf(cfg, row), ExpectedOf(cfg, s, row);
    ExecuteAgrees(cfg, s, h, i, row);
    var instr := Decode(row.insn);
    if instr.Some? && Execute(cfg, h, i, instr.value).Some? && AccessColumns(cfg, h, i, row, instr.value) {
      var f := Execute(cfg, h, i, instr.value).value;
      DestinationAgrees(h.x, f.rd, f.value, e, row);
    }
  }

  lemma StepColumns(cfg: Config, h: Hart, order: int, row: Row)
    requires StepsTo(cfg, h, order, row)
    ensures CommonColumns(cfg, h, row) && row.order == order
  {
    hide Rs1, Rs2, Mmio, SamplesCounter, Opcode, Decode, Execute, LaneMask, LoadSource, Mstatus, MieReg, Mtvec,
      SetReg, TrapCause, InterruptTarget;
  }

  /** One row: the checker reports nothing exactly when the row, in the state that the
      arrival left, is a step of the hart; the states then agree again. */
  lemma RowRefines(cfg: Config, s: State, h: Hart, order: int, row: Row)
    requires StateOk(s) && Simulates(cfg, Arrive(cfg, s, row), h)
    requires OrderFaults(s, row) == [] <==> row.order == order
    ensures var o := CheckRow(cfg, s, row);
            && (!o.raised && o.faults == [] && NamesItsRegisters(row) <==> StepsTo(cfg, h, order, row))
            && (StepsTo(cfg, h, order, row) ==>
                 Simulates(cfg, o.state, After(cfg, h, order, row)) && o.state.expectedOrder == order + 1)
  {
    hide StepsTo, After, CommonColumns, CommonFaults, InterruptFaults, TrapFaults, RetireFaults, ExpectedOf,
      OrderFaults, CsrsOk, CsrsMatch, MemoryMatches, NamesItsRegisters, TrapEntryCsrs, EnterHandler,
      ExpectedCause, ExpectedTval, Arrive;
    var s1 := Arrive(cfg, s, row);
    CommonAgrees(cfg, s1, h, row);
    if StepsTo(cfg, h, order, row) {
      StepColumns(cfg, h, order, row);
    }
    if CommonColumns(cfg, h, row) && row.order == order {
      TvecAligned(cfg, s1, h, row);
      if row.intr {
        InterruptAgrees(cfg, h, order, row);
        TrapEntryMatches(cfg, s1.csrs, h.csr, row.pc, if row.irqLevel then 0x8000_000B else 0x8000_0007, 0);
      } else if row.trap {
        TrapAgrees(cfg, s1, h, order, row);
        TrapEntryMatches(cfg, s1.csrs, h.csr, row.pc, ExpectedCause(s1, row), ExpectedTval(s1, row));
      } else {
        ExecutedAgrees(cfg, s1, h, order, row);
      }
    }
  }

  lemma TvecAligned(cfg: Config, s: State, h: Hart, row: Row)
    requires Simulates(cfg, s, h) && CommonColumns(cfg, h, row)
    ensures h.csr.tvecBase % 4 == 0 && row.pc == h.pc
  {
  }

  // ----- whole traces -----

  ghost predicate AllNameTheirRegisters(trace: seq<Row>) {
    forall k :: 0 <= k < |trace| ==> NamesItsRegisters(trace[k])
  }

  /** Appending a row starts a new epoch or extends the last one. */
  lemma EpochsSnoc(trace: seq<Row>)
    requires trace != []
    ensures var n := |trace| - 1;
            if n > 0 && !Boundary(trace[n - 1], trace[n]) then
              && EpochStart(trace) == EpochStart(trace[..n])
              && LastEpoch(trace) == LastEpoch(trace[..n]) + [trace[n]]
              && Epochs(trace) == Epochs(trace[..n])[..|Epochs(trace[..n])| - 1] + [LastEpoch(trace)]
              && Epochs(trace[..n]) != []
              && Epochs(trace[..n])[|Epochs(trace[..n])| - 1] == LastEpoch(trace[..n])
            else
              && LastEpoch(trace) == [trace[n]]
              && Epochs(trace) == Epochs(trace[..n]) + [[trace[n]]]
  {
    var n := |trace| - 1;
    var p := trace[..n];
    if n > 0 && !Boundary(trace[n - 1], trace[n]) {
      var k := EpochStart(p);
      assert p != [] && trace[..k] == p[..k];
    } else {
      assert EpochStart(trace) == n;
    }
  }

  /** The hart in which the last row of the trace executes, when the rows before it in its
      epoch are a run. */
  function HartBefore(cfg: Config, trace: seq<Row>): Option<Hart>
    requires trace != []
  {
    var e := LastEpoch(trace);
    Run(cfg, e[..|e| - 1])
  }

  /** The hart after the last row, when that row is a step. */
  function HartAfter(cfg: Config, trace: seq<Row>): Option<Hart>
    requires trace != []
  {
    var h, order, row := HartBefore(cfg, trace), |LastEpoch(trace)| - 1, trace[|trace| - 1];
    if h.Some? && StepsTo(cfg, h.value, order, row) then Some(After(cfg, h.value, order, row)) else None
  }

  lemma IsaAcceptsSnoc(cfg: Config, trace: seq<Row>)
    requires trace != []
    ensures var n, e := |trace| - 1, LastEpoch(trace);
            && e != []
            && (IsaAccepts(cfg, trace) <==> IsaAccepts(cfg, trace[..n]) && HartAfter(cfg, trace).Some?)
            && (IsaAccepts(cfg, trace) ==> Run(cfg, e) == HartAfter(cfg, trace))
            && (n > 0 && !Boundary(trace[n - 1], trace[n]) ==>
                 && e[..|e| - 1] == LastEpoch(trace[..n])
                 && (IsaAccepts(cfg, trace[..n]) ==> Run(cfg, LastEpoch(trace[..n])).Some?))
            && (!(n > 0 && !Boundary(trace[n - 1], trace[n])) ==> |e| == 1)
  {
    hide StepsTo, After, Epochs, EpochStart, LastEpoch, ResetHart;
    var n, e := |trace| - 1, LastEpoch(trace);
    var p := trace[..n];
    EpochsSnoc(trace);
    var before := Epochs(p);
    if n > 0 && !Boundary(trace[n - 1], trace[n]) {
      var m := |before| - 1;
      assert e[..|e| - 1] == LastEpoch(p);
      assert before == before[..m] + [LastEpoch(p)];
      AllRunSnoc(cfg, before[..m], LastEpoch(p));
      AllRunSnoc(cfg, before[..m], e);
    } else {
      AllRunSnoc(cfg, before, e);
      assert e[..0] == [];
    }
  }

  lemma AllRunSnoc(cfg: Config, es: seq<seq<Row>>, e: seq<Row>)
    ensures (forall x :: x in es + [e] ==> Run(cfg, x).Some?) <==>
            (forall x :: x in es ==> Run(cfg, x).Some?) && Run(cfg, e).Some?
  {
    assert e in es + [e];
    assert forall x :: x in es ==> x in es + [e];
  }

  /** What the checker remembers of the last row. */
  ghost predicate Remembers(s: State, trace: seq<Row>) {
    if trace == [] then s.previousOrder.None? && s.previousEpoch.None?
    else s.previousOrder == Some(trace[|trace| - 1].order) && s.previousEpoch == Some(trace[|trace| - 1].epoch)
  }

  lemma {:induction false} CheckRemembers(cfg: Config, trace: seq<Row>)
    ensures !Check(cfg, trace).raised ==> Remembers(Check(cfg, trace).state, trace)
  {
    hide CommonFaults, InterruptFaults, TrapFaults, RetireFaults, ExpectedOf, InterruptCsrs, TrapEntryCsrs,
      ExpectedCause, ExpectedTval, StartsEpoch, ResetEpoch, OrderFaults, CsrsOk;
    if trace != [] {
      CheckRemembers(cfg, trace[..|trace| - 1]);
    }
  }

  /** Arriving at a row resets the checker exactly at a boundary. */
  lemma ArriveAgrees(cfg: Config, s: State, p: seq<Row>, row: Row, h: Hart)
    requires StateOk(s) && Remembers(s, p) && Simulates(cfg, s, h)
    ensures var boundary := p == [] || Boundary(p[|p| - 1], row);
            && Simulates(cfg, Arrive(cfg, s, row), if boundary && p != [] then ResetHart(cfg) else h)
            && (OrderFaults(s, row) == [] <==> row.order == (if boundary && p != [] then 0 else s.expectedOrder))
  {
    hide CsrsMatch, CsrsOk, MemoryMatches, ResetHart, ResetEpoch;
    ResetSimulates(cfg, s);
  }

  /** The checker accepts a trace whose register columns name the registers of its
      instructions exactly when the trace is, epoch by epoch, a run of the hart from reset;
      and after an accepted trace the two hold the same state. */
  lemma {:induction false} CheckerRefinesIsa(cfg: Config, trace: seq<Row>)
    ensures Accepts(cfg, trace) && AllNameTheirRegisters(trace) <==> IsaAccepts(cfg, trace)
    ensures IsaAccepts(cfg, trace) ==>
      var h := Run(cfg, LastEpoch(trace));
      h.Some? && Simulates(cfg, Check(cfg, trace).state, h.value)
      && Check(cfg, trace).state.expectedOrder == |LastEpoch(trace)|
  {
    hide CheckRow, Simulates, StepsTo, After, Epochs, EpochStart, LastEpoch, NamesItsRegisters, Boundary,
      ResetHart, InitialState, Arrive, OrderFaults, IsaAccepts;
    if trace == [] {
      ResetSimulates(cfg, InitialState(cfg));
      EmptyTrace(cfg);
    } else {
      var n := |trace| - 1;
      var p, row := trace[..n], trace[n];
      CheckerRefinesIsa(cfg, p);
      CheckRemembers(cfg, p);
      IsaAcceptsSnoc(cfg, trace);
      assert AllNameTheirRegisters(trace) <==> AllNameTheirRegisters(p) && NamesItsRegisters(row);
      if IsaAccepts(cfg, p) {
        LastRowRefines(cfg, trace);
      }
    }
  }

  lemma EmptyTrace(cfg: Config)
    ensures IsaAccepts(cfg, []) && LastEpoch([]) == [] && InitialState(cfg).expectedOrder == 0
    ensures Run(cfg, []) == Some(ResetHart(cfg))
  {
  }

  /** The last row of a trace whose other rows are accepted. */
  lemma LastRowRefines(cfg: Config, trace: seq<Row>)
    requires trace != []
    requires var p := trace[..|trace| - 1];
             && Accepts(cfg, p) && IsaAccepts(cfg, p)
             && Run(cfg, LastEpoch(p)).Some?
             && Simulates(cfg, Check(cfg, p).state, Run(cfg, LastEpoch(p)).value)
             && Check(cfg, p).state.expectedOrder == |LastEpoch(p)|
    ensures var n, e := |trace| - 1, LastEpoch(trace);
            var o := CheckRow(cfg, Check(cfg, trace[..n]).state, trace[n]);
            && HartBefore(cfg, trace).Some?
            && (!o.raised && o.faults == [] && NamesItsRegisters(trace[n]) <==>
                 StepsTo(cfg, HartBefore(cfg, trace).value, |e| - 1, trace[n]))
            && (StepsTo(cfg, HartBefore(cfg, trace).value, |e| - 1, trace[n]) ==>
                 && Simulates(cfg, o.state, After(cfg, HartBefore(cfg, trace).value, |e| - 1, trace[n]))
                 && o.state.expectedOrder == |e|)
  {
    hide CheckRow, Simulates, StepsTo, After, Epochs, EpochStart, LastEpoch, NamesItsRegisters, Boundary,
      ResetHart, Arrive, OrderFaults, Check;
    var n, e := |trace| - 1, LastEpoch(trace);
    var p, row := trace[..n], trace[n];
    var s, h := Check(cfg, p).state, Run(cfg, LastEpoch(p)).value;
    CheckRemembers(cfg, p);
    IsaAcceptsSnoc(cfg, trace);
    ArriveAgrees(cfg, s, p, row, h);
    EmptyTrace(cfg);
    AcceptsMeansQuiet(cfg, p);
    if n > 0 && !Boundary(trace[n - 1], trace[n]) {
      assert e[..|e| - 1] == LastEpoch(p);
      RowRefines(cfg, s, h, |e| - 1, row);
    } else {
      assert e[..|e| - 1] == [];
      RowRefines(cfg, s, ResetHart(cfg), 0, row);
    }
  }

  lemma AcceptsMeansQuiet(cfg: Config, p: seq<Row>)
    requires Accepts(cfg, p)
    ensures !Check(cfg, p).raised
  {
  }
}
