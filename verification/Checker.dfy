/** The retirement checker RV32ISS on values: what check_row reports and leaves behind for
    each kind of row, and what check makes of a trace. */
module Checker {
  import opened Bits
  import opened Isa
  import opened Machine
  import Rv32m
  import opened Wrappers

  datatype Reason =
    | OrderGap | CurrentPc | OutsideManifest | WrongInstruction | Snapshot(csr: int) | Rs1Value | Rs2Value
    | InterruptVector | NoInterruptSource | InterruptCause | InterruptEpc | InterruptTval
    | TrapVector | TrapWroteRegister | WrongCause | TrapEpc | TrapTval | TrapDestination
    | LoadMaskWrong | LoadSourceWrong | StoreMaskWrong
    | UnexpectedInstruction | NextPc | RdIndex | RdValue

  function When(c: bool, r: Reason): seq<Reason> {
    if c then [r] else []
  }

  datatype State = State(
    regs: seq<word>, memory: map<int, word>, csrs: map<int, word>,
    previousOrder: Option<int>, previousEpoch: Option<int>,
    expectedOrder: int, expectedPc: word,
    instructions: nat, traps: nat, interrupts: nat)

  /** The keys of the checker's CSR dictionary. */
  predicate KnownCsr(csr: int) {
    csr in {0x300, 0x301, 0x304, 0x305, 0x340, 0x341, 0x342, 0x343, 0x344} || IsCounter(csr)
  }

  /** The values a CSR of the dictionary can hold. */
  predicate Holds(csr: int, v: word) {
    && (csr == 0x300 ==> IsStatus(v))
    && (csr == 0x304 ==> v == 0 || v == 0x80 || v == 0x800 || v == 0x880)
    && (csr == 0x305 ==> v % 4 < 2)
  }

  ghost predicate CsrsOk(csrs: map<int, word>) {
    && (forall csr :: csr in csrs <==> KnownCsr(csr))
    && (forall csr :: csr in csrs ==> Holds(csr, csrs[csr]))
  }

  function Put(csrs: map<int, word>, csr: int, v: word): (r: map<int, word>)
    requires CsrsOk(csrs) && KnownCsr(csr) && Holds(csr, v)
    ensures CsrsOk(r)
  {
    csrs[csr := v]
  }

  function InitialCsrs(cfg: Config): (r: map<int, word>)
    ensures CsrsOk(r)
  {
    map[0x300 := 0x1800, 0x301 := if cfg.enableM then 0x4000_1100 else 0x4000_0100,
        0x304 := 0, 0x305 := 0x300,
        0x340 := 0, 0x341 := 0, 0x342 := 0, 0x343 := 0,
        0x344 := 0, 0xB00 := 0, 0xB80 := 0, 0xB02 := 0, 0xB82 := 0]
  }

  function InitialState(cfg: Config): State {
    State(seq(32, _ => 0), cfg.image, InitialCsrs(cfg), None, None, 0, 0, 0, 0, 0)
  }

  /** What holds of the checker's state after every row, mismatches or not. */
  ghost predicate StateOk(s: State) {
    |s.regs| == 32 && s.regs[0] == 0 && CsrsOk(s.csrs)
  }

  // ----- helpers of the row function -----

  function ResetEpoch(cfg: Config, s: State): State {
    s.(regs := seq(32, _ => 0), memory := cfg.image, csrs := InitialCsrs(cfg), expectedOrder := 0, expectedPc := 0)
  }

  predicate StartsEpoch(s: State, row: Row) {
    if s.previousEpoch.Some? && row.epoch != s.previousEpoch.value then true
    else s.previousOrder.Some? && row.order < s.previousOrder.value
  }

  function MemoryWordAddress(cfg: Config, a: word): int {
    if InRanges(cfg.externalRanges, a) || InRanges(cfg.directRanges, a) then a - a % 4
    else
      var p := if a >= 0x8000 then a - 0x8000 else a;
      p - p % 4
  }

  function Get(m: map<int, word>, k: int): word {
    if k in m then m[k] else 0
  }

  function SnapshotFaults(csrs: map<int, word>, row: Row, trapOverride: bool): seq<Reason>
    requires CsrsOk(csrs)
  {
    When(row.mstatus != csrs[0x300], Snapshot(0x300)) +
    When(row.mie != csrs[0x304], Snapshot(0x304)) +
    When(row.mtvec != csrs[0x305], Snapshot(0x305)) +
    When(row.mscratch != csrs[0x340], Snapshot(0x340)) +
    When(!trapOverride && row.mepc != csrs[0x341], Snapshot(0x341)) +
    When(!trapOverride && row.mcause != csrs[0x342], Snapshot(0x342)) +
    When(!trapOverride && row.mtval != csrs[0x343], Snapshot(0x343))
  }

  /** Without a manifest, and on interrupt rows, the instruction is not checked. */
  function ManifestFaults(cfg: Config, row: Row): seq<Reason> {
    if cfg.manifest != map[] && !row.intr then
      if row.pc !in cfg.manifest then When(true, OutsideManifest)
      else When(row.insn != cfg.manifest[row.pc], WrongInstruction)
    else []
  }

  /** The checks made of every row before it is classified. */
  function CommonFaults(cfg: Config, s: State, row: Row): seq<Reason>
    requires StateOk(s)
  {
    When(row.pc != s.expectedPc, CurrentPc) +
    ManifestFaults(cfg, row) +
    SnapshotFaults(s.csrs, row, row.trap || row.intr) +
    When(row.rs1Data != s.regs[row.rs1Addr], Rs1Value) +
    When(row.rs2Data != s.regs[row.rs2Addr], Rs2Value)
  }

  /** mstatus as its MIE and MPIE bits. */
  function Status(mie: bool, mpie: bool): word {
    0x1800 + (if mpie then 0x80 else 0) + (if mie then 0x8 else 0)
  }

  predicate IsStatus(v: word) {
    v in {0x1800, 0x1808, 0x1880, 0x1888}
  }

  function MieOf(v: word): bool { v == 0x1808 || v == 0x1888 }

  function MpieOf(v: word): bool { v == 0x1880 || v == 0x1888 }

  /** (mstatus & ~0x88) | (0x80 if mstatus & 8 else 0): a trap stacks MIE into MPIE. */
  function StatusOnTrap(mstatus: word): (r: word)
    requires IsStatus(mstatus)
    ensures r == Status(false, MieOf(mstatus))
  {
    TrapMasks(mstatus);
    Bw(Or, Bw(AndNot, mstatus, 0x88), if Bw(And, mstatus, 0x8) != 0 then 0x80 else 0)
  }

  /** ((mstatus | 0x80) & ~8), then | 8 when MPIE was set: MRET unstacks it. */
  function StatusOnMret(mstatus: word): (r: word)
    requires IsStatus(mstatus)
    ensures r == Status(MpieOf(mstatus), true)
  {
    MretMasks(mstatus);
    var cleared := Bw(AndNot, Bw(Or, mstatus, 0x80), 0x8);
    if Bw(And, mstatus, 0x80) != 0 then Bw(Or, cleared, 0x8) else cleared
  }

  /** 0x1800 | (v & 0x88) */
  function StatusOnWrite(v: word): (r: word)
    ensures r == Status(Bit(v, 3), Bit(v, 7))
  {
    WriteMasks(v);
    Bw(Or, 0x1800, Bw(And, v, 0x88))
  }

  /** v & 0x880 */
  function MieOnWrite(v: word): (r: word)
    ensures r == (if Bit(v, 11) then 0x800 else 0) + (if Bit(v, 7) then 0x80 else 0)
  {
    EnableMasks(v);
    Bw(And, v, 0x880)
  }

  lemma StatusMasks(mie: bool, mpie: bool)
    ensures var v := Status(mie, mpie);
            && Bw(And, v, 0x8) == (if mie then 0x8 else 0)
            && Bw(And, v, 0x80) == (if mpie then 0x80 else 0)
            && Bw(AndNot, v, 0x88) == Status(false, false)
            && Bw(AndNot, v, 0x8) == Status(false, mpie)
            && Bw(Or, v, 0x80) == Status(mie, true)
            && Bw(Or, v, 0x8) == Status(true, mpie)
  {
    hide Bw, P2, Bit;
    var v := Status(mie, mpie);
    BitValues(v);
    assert Bit(v, 3) == mie && Bit(v, 7) == mpie;
    OneBit(v, 3);
    OneBit(v, 7);
    TwoBits(v, 3, 7);
  }

  lemma TrapMasks(mstatus: word)
    requires IsStatus(mstatus)
    ensures Bw(Or, Bw(AndNot, mstatus, 0x88), if Bw(And, mstatus, 0x8) != 0 then 0x80 else 0)
         == Status(false, MieOf(mstatus))
  {
    hide Bw;
    StatusMasks(MieOf(mstatus), MpieOf(mstatus));
    StatusMasks(false, false);
    BwZero(Or, Status(false, false));
  }

  lemma MretMasks(mstatus: word)
    requires IsStatus(mstatus)
    ensures var cleared := Bw(AndNot, Bw(Or, mstatus, 0x80), 0x8);
            (if Bw(And, mstatus, 0x80) != 0 then Bw(Or, cleared, 0x8) else cleared) == Status(MpieOf(mstatus), true)
  {
    hide Bw;
    StatusMasks(MieOf(mstatus), MpieOf(mstatus));
    StatusMasks(MieOf(mstatus), true);
    StatusMasks(false, true);
  }

  lemma WriteMasks(v: word)
    ensures Bw(Or, 0x1800, Bw(And, v, 0x88)) == Status(Bit(v, 3), Bit(v, 7))
  {
    hide Bw, P2, Bit;
    BitValues(v);
    OneBit(v, 3);
    OneBit(v, 7);
    TwoBits(v, 3, 7);
    var kept := Bw(And, v, 0x88);
    assert P2(11) * 3 == 0x1800;
    OrDisjoint(3, kept, 11);
  }

  lemma EnableMasks(v: word)
    ensures Bw(And, v, 0x880) == (if Bit(v, 11) then 0x800 else 0) + (if Bit(v, 7) then 0x80 else 0)
  {
    hide Bw, P2, Bit;
    BitValues(v);
    OneBit(v, 7);
    OneBit(v, 11);
    TwoBits(v, 7, 11);
  }

  /** imm_b and imm_j, assembled by shifts and ors and sign-extended to a word. */
  function BranchImm(w: word): word {
    U32(SignExtend(Bw(Or, Bw(Or, Bw(Or, 0x1000 * Field(w, 31, 31), 0x800 * Field(w, 7, 7)),
                   0x20 * Field(w, 30, 25)), 2 * Field(w, 11, 8)), 13))
  }

  function JumpImm(w: word): word {
    U32(SignExtend(Bw(Or, Bw(Or, Bw(Or, 0x10_0000 * Field(w, 31, 31), 0x1000 * Field(w, 19, 12)),
                   0x800 * Field(w, 20, 20)), 2 * Field(w, 30, 21)), 21))
  }

  function AddImm(w: word): word {
    U32(SignExtend(Field(w, 31, 20), 12))
  }

  // ----- interrupt rows -----

  function InterruptFaults(row: Row): seq<Reason> {
    var cause: word := if row.irqLevel then 0x8000_000B else 0x8000_0007;
    var target := row.mtvec - row.mtvec % 4 + (if row.mtvec % 4 == 1 then (cause % 0x8000_0000) * 4 else 0);
    When(row.nextPc != target, InterruptVector) +
    When(!(row.irqLevel || row.irqTimerLevel), NoInterruptSource) +
    When(row.mcause != cause, InterruptCause) +
    When(row.mepc != row.pc, InterruptEpc) +
    When(row.mtval != 0, InterruptTval)
  }

  function InterruptCsrs(csrs: map<int, word>, row: Row): (r: map<int, word>)
    requires CsrsOk(csrs)
    ensures CsrsOk(r)
  {
    TrapEntryCsrs(csrs, row.pc, if row.irqLevel then 0x8000_000B else 0x8000_0007, 0)
  }

  function TrapEntryCsrs(csrs: map<int, word>, pc: word, cause: word, tval: word): (r: map<int, word>)
    requires CsrsOk(csrs)
    ensures CsrsOk(r)
  {
    Put(Put(Put(Put(csrs, 0x341, pc), 0x342, cause), 0x343, tval), 0x300, StatusOnTrap(csrs[0x300]))
  }

  // ----- trap rows -----

  /** The destination of a jump or branch, taken or not. */
  function JumpTarget(s: State, row: Row): word
    requires StateOk(s)
  {
    var opcode := Opcode(row.insn);
    if opcode == 0x6F then U32(row.pc + JumpImm(row.insn))
    else if opcode == 0x67 then
      var t := s.regs[row.rs1Addr] + AddImm(row.insn);
      U32(t - t % 2)
    else U32(row.pc + BranchImm(row.insn))
  }

  function ExpectedCause(s: State, row: Row): word
    requires StateOk(s)
  {
    var insn, a := row.insn, row.memAddr;
    var opcode, funct3 := Opcode(insn), Field(insn, 14, 12);
    if insn == 0x0000_0073 then 11
    else if insn == 0x0010_0073 then 3
    else if opcode == 0x6F || opcode == 0x67 || opcode == 0x63 then
      if JumpTarget(s, row) / 2 % 2 == 1 then 0 else 2
    else if opcode != 0x03 && opcode != 0x23 then 2
    else if opcode == 0x03 then
      if funct3 !in {0, 1, 2, 4, 5} then 2
      else if (funct3 == 2 && a % 4 != 0) || (funct3 in {1, 5} && a % 2 != 0) then 4
      else 5
    else
      if funct3 !in {0, 1, 2} then 2
      else if (funct3 == 2 && a % 4 != 0) || (funct3 == 1 && a % 2 != 0) then 6
      else if 0x100 <= a <= 0x1FF && funct3 != 2 then 2
      else 7
  }

  function ExpectedTval(s: State, row: Row): word
    requires StateOk(s)
  {
    var cause := ExpectedCause(s, row);
    if cause == 0 then JumpTarget(s, row)
    else if cause == 2 then row.insn
    else if cause in {4, 5, 6, 7} then row.memAddr
    else 0
  }

  function TrapFaults(s: State, row: Row): seq<Reason>
    requires StateOk(s)
  {
    When(row.nextPc != row.mtvec - row.mtvec % 4, TrapVector) +
    When(row.rdAddr != 0, TrapWroteRegister) +
    When(row.mcause != ExpectedCause(s, row), WrongCause) +
    When(row.mepc != row.pc, TrapEpc) +
    When(row.mtval != ExpectedTval(s, row), TrapTval) +
    When(row.rdAddr != 0 || row.rdData != 0, TrapDestination)
  }

  // ----- executed rows -----

  /** What an executed row should show, and the memory and CSRs it leaves. `raised` marks
      the negative shift count on which Python stops with an exception. */
  datatype Expected = Expected(
    rd: regnum, value: word, nextPc: word, legal: bool, faults: seq<Reason>,
    memory: map<int, word>, csrs: map<int, word>, raised: bool)

  function Idle(s: State, row: Row, legal: bool): Expected {
    Expected(0, 0, U32(row.pc + 4), legal, [], s.memory, s.csrs, false)
  }

  function BranchTaken(funct3: nat, a: word, b: word): Option<bool> {
    match funct3
    case 0 => Some(a == b)
    case 1 => Some(a != b)
    case 4 => Some(S32(a) < S32(b))
    case 5 => Some(S32(a) >= S32(b))
    case 6 => Some(a < b)
    case 7 => Some(a >= b)
    case _ => None
  }

  function ImmediateOp(insn: word, a: word): Option<word> {
    var imm, shamt := AddImm(insn), Field(insn, 24, 20);
    var funct3, funct7 := Field(insn, 14, 12), Field(insn, 31, 25);
    if funct3 == 0 then Some(U32(a + imm))
    else if funct3 == 2 then Some(if S32(a) < S32(imm) then 1 else 0)
    else if funct3 == 3 then Some(if a < imm then 1 else 0)
    else if funct3 == 4 then Some(BitXor(a, imm))
    else if funct3 == 6 then Some(BitOr(a, imm))
    else if funct3 == 7 then Some(BitAnd(a, imm))
    else if funct3 == 1 && funct7 == 0 then Some(U32(Shl(a, shamt)))
    else if funct3 == 5 && funct7 == 0 then Some(ShrWord(a, shamt))
    else if funct3 == 5 && funct7 == 0x20 then Some(U32(S32(a) / P2(shamt)))
    else None
  }

  function RegisterOp(funct7: nat, funct3: nat, a: word, b: word): Option<word> {
    if (funct7, funct3) == (0x00, 0) then Some(U32(a + b))
    else if (funct7, funct3) == (0x20, 0) then Some(U32(a - b))
    else if (funct7, funct3) == (0x00, 1) then Some(U32(Shl(a, b % 32)))
    else if (funct7, funct3) == (0x00, 2) then Some(if S32(a) < S32(b) then 1 else 0)
    else if (funct7, funct3) == (0x00, 3) then Some(if a < b then 1 else 0)
    else if (funct7, funct3) == (0x00, 4) then Some(BitXor(a, b))
    else if (funct7, funct3) == (0x00, 5) then Some(ShrWord(a, b % 32))
    else if (funct7, funct3) == (0x20, 5) then Some(U32(S32(a) / P2(b % 32)))
    else if (funct7, funct3) == (0x00, 6) then Some(BitOr(a, b))
    else if (funct7, funct3) == (0x00, 7) then Some(BitAnd(a, b))
    else None
  }

  /** Every opcode except loads, stores and SYSTEM. */
  function ExpectedCompute(s: State, row: Row): (e: Expected)
    requires StateOk(s)
    ensures e.memory == s.memory && e.csrs == s.csrs && e.faults == [] && !e.raised
  {
    var insn, a, b := row.insn, s.regs[row.rs1Addr], s.regs[row.rs2Addr];
    var opcode, funct3, funct7, rd := Opcode(insn), Funct3(insn), Field(insn, 31, 25), Rd(insn);
    var idle := Idle(s, row, true);
    if opcode == 0x37 then idle.(rd := rd, value := insn - insn % 0x1000)
    else if opcode == 0x17 then idle.(rd := rd, value := U32(row.pc + (insn - insn % 0x1000)))
    else if opcode == 0x6F then idle.(rd := rd, value := U32(row.pc + 4), nextPc := JumpTarget(s, row))
    else if opcode == 0x67 && funct3 == 0 then
      idle.(rd := rd, value := U32(row.pc + 4), nextPc := JumpTarget(s, row))
    else if opcode == 0x63 then
      var taken := BranchTaken(funct3, a, b);
      idle.(legal := taken.Some?, nextPc := if taken == Some(true) then JumpTarget(s, row) else idle.nextPc)
    else if opcode == 0x13 then
      var value := ImmediateOp(insn, a);
      idle.(rd := rd, value := if value.Some? then value.value else 0, legal := value.Some?)
    else if opcode == 0x33 then
      if funct7 == 1 then idle.(rd := rd, value := Rv32m.Result(funct3, a, b))
      else
        var value := RegisterOp(funct7, funct3, a, b);
        idle.(rd := rd, value := if value.Some? then value.value else 0, legal := value.Some?)
    else if opcode == 0x0F then idle.(legal := funct3 == 0)
    else idle.(legal := false)
  }

  function ExpectedLoad(cfg: Config, s: State, row: Row): (e: Expected)
    ensures e.memory == s.memory && e.csrs == s.csrs && !e.raised
  {
    var a, funct3 := row.memAddr, Funct3(row.insn);
    var off := a % 4;
    var width := if funct3 in {0, 4} then 0x1 else if funct3 in {1, 5} then 0x3 else if funct3 == 2 then 0xF else 0;
    var mask := Low(Shl(width, off), 4);
    var mmio := Mmio(cfg, a);
    var modelWord := if mmio then row.memRdata else Get(s.memory, MemoryWordAddress(cfg, a));
    Idle(s, row, funct3 in {0, 1, 2, 4, 5} && row.rmask != 0).(
      rd := Rd(row.insn),
      value := LoadedValue(funct3, modelWord, off),
      faults := When(row.rmask != mask, LoadMaskWrong)
                + When(!mmio && row.memRdata != modelWord, LoadSourceWrong))
  }

  function LoadedValue(funct3: nat, modelWord: word, off: nat): word
    requires off < 4
  {
    ByteShift(modelWord, off);
    var shifted := Shr(modelWord, 8 * off);
    match funct3
    case 0 => U32(SignExtend(Low(shifted, 8), 8))
    case 1 => U32(SignExtend(Low(shifted, 16), 16))
    case 2 => modelWord
    case 4 => Low(shifted, 8)
    case 5 => Low(shifted, 16)
    case _ => 0
  }

  /** word & ~(0xFF << (lane * 8)) | byte << (lane * 8) */
  function PutLane(w: word, lane: nat, b: byte): (r: nat)
    requires lane < 4
  {
    Bw(Or, Bw(AndNot, w, Shl(0xFF, 8 * lane)), Shl(b, 8 * lane))
  }

  /** The memory word after lanes 0..n-1 of the store loop, or None once a lane below the
      address offset has been selected, where Python shifts by a negative count. */
  function MergedLanes(w: word, wdata: word, wmask: nat, off: nat, n: nat): Option<word>
    requires n <= 4
  {
    if n == 0 then Some(w)
    else
      var before := MergedLanes(w, wdata, wmask, off, n - 1);
      var lane := n - 1;
      if before.None? || Bw(And, wmask, Shl(1, lane)) == 0 then before
      else if lane < off then None
      else
        ByteShift(wdata, lane - off);
        PutLaneBytes(before.value, lane, Low(Shr(wdata, 8 * (lane - off)), 8));
        Some(PutLane(before.value, lane, Low(Shr(wdata, 8 * (lane - off)), 8)))
  }

  function ExpectedStore(cfg: Config, s: State, row: Row): (e: Expected)
    ensures e.csrs == s.csrs && (e.raised ==> e.memory == s.memory)
  {
    var a, funct3 := row.memAddr, Funct3(row.insn);
    var off := a % 4;
    var width := if funct3 == 0 then 0x1 else if funct3 == 1 then 0x3 else if funct3 == 2 then 0xF else 0;
    var mask := Low(Shl(width, off), 4);
    var base := MemoryWordAddress(cfg, a);
    var merged := MergedLanes(Get(s.memory, base), row.memWdata, row.wmask, off, 4);
    Idle(s, row, funct3 in {0, 1, 2} && row.wmask != 0).(
      faults := When(row.wmask != mask, StoreMaskWrong),
      memory := if merged.None? || Mmio(cfg, a) then s.memory else s.memory[base := merged.value],
      raised := merged.None?)
  }

  function CsrsBeforeAccess(s: State, row: Row, csr: nat): (r: map<int, word>)
    requires StateOk(s)
    ensures CsrsOk(r)
  {
    if csr == 0x344 then
      Put(s.csrs, csr, (if row.irqLevel then 0x800 else 0) + (if row.irqTimerLevel then 0x80 else 0))
    else if IsCounter(csr) then Put(s.csrs, csr, row.rdData)
    else s.csrs
  }

  /** The legal bits of a value written to a CSR. */
  function Legalized(csr: nat, v: word): (r: word)
    ensures Holds(csr, r)
  {
    if csr == 0x300 then StatusOnWrite(v)
    else if csr == 0x304 then MieOnWrite(v)
    else if csr == 0x305 then v - v % 4 + (if v % 4 == 1 then 1 else 0)
    else if csr == 0x341 then v - v % 4
    else v
  }

  function CombineSource(mode: nat, was: word, source: word): word {
    if mode == 1 then source
    else if mode == 2 then BitOr(was, source)
    else if mode == 3 then BitClear(was, source)
    else was
  }

  /** The immediate or register operand of a CSR instruction. */
  function SourceOf(s: State, row: Row): word
    requires StateOk(s)
  {
    if Funct3(row.insn) / 4 == 1 then row.rs1Addr else s.regs[row.rs1Addr]
  }

  function ExpectedSystem(s: State, row: Row): (e: Expected)
    requires StateOk(s)
    ensures e.memory == s.memory && e.faults == [] && !e.raised && CsrsOk(e.csrs)
  {
    var insn, funct3 := row.insn, Funct3(row.insn);
    if insn in {0x0010_0073, 0x3020_0073, 0x1050_0073} then
      if insn == 0x3020_0073 then
        Idle(s, row, true).(nextPc := s.csrs[0x341], csrs := Put(s.csrs, 0x300, StatusOnMret(s.csrs[0x300])))
      else Idle(s, row, true)
    else if funct3 != 0 then
      var csr := Field(insn, 31, 20);
      var csrs := CsrsBeforeAccess(s, row, csr);
      var was := Get(csrs, csr);
      var source := SourceOf(s, row);
      var mode := funct3 % 4;
      var known := csr in s.csrs && mode != 0;
      var writes := known && (mode == 1 || source != 0);
      Idle(s, row, known && !(writes && csr == 0x301)).(
        rd := Rd(insn),
        value := was,
        csrs := if writes && csr != 0x344 then Put(csrs, csr, Legalized(csr, CombineSource(mode, was, source)))
                else csrs)
    else Idle(s, row, false)
  }

  function ExpectedOf(cfg: Config, s: State, row: Row): (e: Expected)
    requires StateOk(s)
    ensures CsrsOk(e.csrs)
  {
    var opcode := Opcode(row.insn);
    if opcode == 0x03 then ExpectedLoad(cfg, s, row)
    else if opcode == 0x23 then ExpectedStore(cfg, s, row)
    else if opcode == 0x73 then ExpectedSystem(s, row)
    else ExpectedCompute(s, row)
  }

  function RetireFaults(e: Expected, row: Row): seq<Reason> {
    When(!e.legal, UnexpectedInstruction) +
    When(e.nextPc != row.nextPc, NextPc) +
    When(row.rdAddr != e.rd, RdIndex) +
    When(row.rdAddr != 0 && row.rdData != (if e.rd == 0 then 0 else e.value), RdValue)
  }

  // ----- the whole row -----

  datatype Outcome = Outcome(state: State, faults: seq<Reason>, raised: bool)

  /** The reset and ordering part of check_row. */
  function Arrive(cfg: Config, s: State, row: Row): (r: State)
    ensures StateOk(s) ==> StateOk(r)
  {
    var s1 := if StartsEpoch(s, row) then ResetEpoch(cfg, s) else s;
    s1.(expectedOrder := row.order, previousOrder := Some(row.order), previousEpoch := Some(row.epoch))
  }

  function OrderFaults(s: State, row: Row): seq<Reason> {
    When(row.order != (if StartsEpoch(s, row) then 0 else s.expectedOrder), OrderGap)
  }

  /** check_row on values. Every row keeps the state invariant, whatever it reports. */
  function CheckRow(cfg: Config, s: State, row: Row): (o: Outcome)
    requires StateOk(s)
    ensures StateOk(o.state)
  {
    var s1 := Arrive(cfg, s, row);
    var faults := OrderFaults(s, row) + CommonFaults(cfg, s1, row);
    if row.intr then
      Outcome(s1.(csrs := InterruptCsrs(s1.csrs, row), expectedOrder := row.order + 1, expectedPc := row.nextPc,
                  instructions := s1.instructions + 1, interrupts := s1.interrupts + 1),
              faults + InterruptFaults(row), false)
    else if row.trap then
      Outcome(s1.(csrs := TrapEntryCsrs(s1.csrs, row.pc, ExpectedCause(s1, row), ExpectedTval(s1, row)),
                  expectedOrder := row.order + 1, expectedPc := row.nextPc,
                  instructions := s1.instructions + 1, traps := s1.traps + 1),
              faults + TrapFaults(s1, row), false)
    else
      var e := ExpectedOf(cfg, s1, row);
      if e.raised then Outcome(s1, faults + e.faults, true)
      else
        Outcome(s1.(regs := SetReg(s1.regs, row.rdAddr, row.rdData), memory := e.memory, csrs := e.csrs,
                    expectedOrder := row.order + 1, expectedPc := e.nextPc,
                    instructions := s1.instructions + 1),
                faults + e.faults + RetireFaults(e, row), false)
  }

  /** The checker's state and mismatches after a trace; None when a row raised. */
  datatype Verdict = Verdict(state: State, faults: seq<(int, Reason)>, raised: bool)

  function Tag(order: int, faults: seq<Reason>): seq<(int, Reason)> {
    seq(|faults|, k requires 0 <= k < |faults| => (order, faults[k]))
  }

  function Check(cfg: Config, trace: seq<Row>): (v: Verdict)
    ensures StateOk(v.state)
  {
    if trace == [] then Verdict(InitialState(cfg), [], false)
    else
      var n := |trace| - 1;
      var v := Check(cfg, trace[..n]);
      if v.raised then v
      else
        var o := CheckRow(cfg, v.state, trace[n]);
        Verdict(o.state, v.faults + Tag(trace[n].order, o.faults), o.raised)
  }

  /** check() returns, and reports no mismatch. */
  predicate Accepts(cfg: Config, trace: seq<Row>) {
    var v := Check(cfg, trace);
    !v.raised && v.faults == []
  }

  // ----- lanes -----

  /** Replacing one lane: that byte changes, the other three stay. */
  lemma PutLaneBytes(w: word, lane: nat, b: byte)
    requires lane < 4
    ensures 0 <= PutLane(w, lane, b) < W
    ensures forall i :: 0 <= i < 4 ==>
      ByteOf(PutLane(w, lane, b), i) == if i == lane then b else ByteOf(w, i)
  {
    var b0, b1, b2, b3 := ByteOf(w, 0), ByteOf(w, 1), ByteOf(w, 2), ByteOf(w, 3);
    hide ByteOf, PutLane, WordOf;
    PutLaneWord(w, lane, b);
    BytesWord(b, b1, b2, b3);
    BytesWord(b0, b, b2, b3);
    BytesWord(b0, b1, b, b3);
    BytesWord(b0, b1, b2, b);
  }

  lemma PutLaneWord(w: word, lane: nat, b: byte)
    requires lane < 4
    ensures var b0, b1, b2, b3 := ByteOf(w, 0), ByteOf(w, 1), ByteOf(w, 2), ByteOf(w, 3);
            PutLane(w, lane, b) ==
              if lane == 0 then WordOf(b, b1, b2, b3) else if lane == 1 then WordOf(b0, b, b2, b3)
              else if lane == 2 then WordOf(b0, b1, b, b3) else WordOf(b0, b1, b2, b)
  {
    hide ByteOf, PutLane, Shr, Low, P2;
    var b0, b1, b2, b3 := ByteOf(w, 0), ByteOf(w, 1), ByteOf(w, 2), ByteOf(w, 3);
    WordShifts(w);
    WordBytes(w);
    if lane == 0 {
      PutLaneIs(w, 0, b, WordOf(b, b1, b2, b3), 1);
    } else if lane == 1 {
      PutLaneIs(w, 1, b, WordOf(b0, b, b2, b3), 0x100);
    } else if lane == 2 {
      PutLaneIs(w, 2, b, WordOf(b0, b1, b, b3), 0x1_0000);
    } else {
      PutLaneIs(w, 3, b, WordOf(b0, b1, b2, b), 0x100_0000);
    }
  }

  lemma PutLaneIs(w: word, lane: nat, b: byte, r: word, weight: nat)
    requires lane < 4 && weight == [1, 0x100, 0x1_0000, 0x100_0000][lane]
    requires r == weight * (Shr(w, 8 * lane) - ByteOf(w, lane) + b) + Low(w, 8 * lane)
    ensures PutLane(w, lane, b) == r
  {
    hide ByteOf, Bw, Shr, Low, Shl, P2;
    P2Values();
    PutByte(w, 8 * lane, b);
    ByteShift(w, lane);
    ShrLow(PutLane(w, lane, b), 8 * lane);
  }
}
