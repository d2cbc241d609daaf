/** The specification of a retirement trace: an RV32IM/Zicsr hart with byte memory and a
    CSR record, stepped by the columns a trace takes as given, predicting the others.
    RISC-V Privileged ISA, sections 3.1.6.1, 3.1.7, 3.1.14 to 3.1.16 and 3.3.2. */
module Machine {
  import opened Bits
  import opened Isa
  import opened Wrappers

  // ----- traces -----

  /** One retirement row, as parsed. */
  datatype Row = Row(
    order: int, epoch: int, insn: word, pc: word, nextPc: word, trap: bool, intr: bool,
    rs1Addr: regnum, rs1Data: word, rs2Addr: regnum, rs2Data: word, rdAddr: regnum, rdData: word,
    memAddr: word, rmask: nat, wmask: nat, memRdata: word, memWdata: word,
    mstatus: word, mie: word, mtvec: word, mscratch: word, mepc: word, mcause: word, mtval: word,
    irqLevel: bool, irqTimerLevel: bool)

  /** The checker's parameters: address ranges are inclusive. */
  datatype Config = Config(
    enableM: bool,
    externalRanges: seq<(int, int)>,
    directRanges: seq<(int, int)>,
    image: map<int, word>,
    manifest: map<int, word>)

  predicate InRanges(ranges: seq<(int, int)>, a: int) {
    exists k :: 0 <= k < |ranges| && ranges[k].0 <= a <= ranges[k].1
  }

  /** Addresses whose loads the trace supplies and whose stores leave memory alone. */
  predicate Mmio(cfg: Config, a: int) {
    0x100 <= a <= 0x1FF || InRanges(cfg.externalRanges, a)
  }

  /** The RAM byte a program address names: RAM is also visible at 0x8000 upward. */
  function Physical(cfg: Config, a: word): word {
    if InRanges(cfg.externalRanges, a) || InRanges(cfg.directRanges, a) || a < 0x8000 then a
    else a - 0x8000
  }

  // ----- architectural state -----

  type Regs = r: seq<word> | |r| == 32 && r[0] == 0 witness seq(32, _ => 0)

  type Memory = int -> byte

  datatype Csrs = Csrs(
    mieBit: bool, mpieBit: bool,          // mstatus.MIE and mstatus.MPIE
    meie: bool, mtie: bool,               // mie.MEIE and mie.MTIE
    tvecBase: word, vectored: bool,       // mtvec
    mscratch: word, mepc: word, mcause: word, mtval: word)

  datatype Hart = Hart(pc: word, x: Regs, mem: Memory, csr: Csrs)

  const MSTATUS: int := 0x300
  const MISA: int := 0x301
  const MIE: int := 0x304
  const MTVEC: int := 0x305
  const MSCRATCH: int := 0x340
  const MEPC: int := 0x341
  const MCAUSE: int := 0x342
  const MTVAL: int := 0x343
  const MIP: int := 0x344

  /** mcycle, mcycleh, minstret and minstreth. */
  predicate IsCounter(csr: int) {
    csr == 0xB00 || csr == 0xB80 || csr == 0xB02 || csr == 0xB82
  }

  function Mstatus(c: Csrs): word {
    0x1800 + (if c.mpieBit then 0x80 else 0) + (if c.mieBit then 0x8 else 0)
  }

  function Misa(cfg: Config): word {
    if cfg.enableM then 0x4000_1100 else 0x4000_0100
  }

  function MieReg(c: Csrs): word {
    (if c.meie then 0x800 else 0) + (if c.mtie then 0x80 else 0)
  }

  function Mtvec(c: Csrs): word {
    U32(c.tvecBase + (if c.vectored then 1 else 0))
  }

  /** Little-endian word at a word-aligned address. */
  function WordAt(mem: Memory, base: int): word {
    WordOf(mem(base), mem(base + 1), mem(base + 2), mem(base + 3))
  }

  /** Byte a of the memory that a word image describes. */
  function ImageByte(image: map<int, word>, a: int): byte {
    var base := a - a % 4;
    if base in image then ByteOf(image[base], a % 4) else 0
  }

  function ResetHart(cfg: Config): Hart {
    Hart(0, seq(32, _ => 0), a => ImageByte(cfg.image, a),
         Csrs(false, false, false, false, 0x300, false, 0, 0, 0, 0))
  }

  function SetReg(x: Regs, r: regnum, v: word): Regs {
    if r == 0 then x else x[r := v]
  }

  // ----- what a trace supplies and what the hart predicts -----

  /** The columns a hart takes as given. */
  datatype Inputs = Inputs(
    insn: word, trap: bool, intr: bool, memAddr: word, memWdata: word,
    mmioData: word, sample: word, irqExternal: bool, irqTimer: bool)

  /** The columns a hart predicts; None where a row of that kind is unconstrained. */
  datatype Outputs = Outputs(
    order: int, pc: word, nextPc: word, rs1: (regnum, word), rs2: (regnum, word),
    rd: Option<(regnum, word)>, loadMask: Option<nat>, storeMask: Option<nat>, loadData: Option<word>,
    mstatus: word, mie: word, mtvec: word, mscratch: word, mepc: word, mcause: word, mtval: word)

  predicate Executes(row: Row) { !row.trap && !row.intr }

  predicate IsLoad(row: Row) { Executes(row) && Opcode(row.insn) == 0x03 }

  predicate IsStore(row: Row) { Executes(row) && Opcode(row.insn) == 0x23 }

  /** A retiring counter access with a destination: its value is sampled from the trace. */
  predicate SamplesCounter(row: Row) {
    && Executes(row) && Opcode(row.insn) == 0x73 && Funct3(row.insn) != 0
    && IsCounter(Field(row.insn, 31, 20)) && Rd(row.insn) != 0
  }

  function InputsOf(cfg: Config, row: Row): Inputs {
    Inputs(row.insn, row.trap, row.intr, row.memAddr, row.memWdata,
           if IsLoad(row) && Mmio(cfg, row.memAddr) then row.memRdata else 0,
           if SamplesCounter(row) then row.rdData else 0,
           row.irqLevel, row.irqTimerLevel)
  }

  /** The predicted columns of a row. A destination of x0 hides the data column of a
      retiring row; an interrupt row has no destination at all. */
  function OutputsOf(cfg: Config, row: Row): Outputs {
    Outputs(row.order, row.pc, row.nextPc, (row.rs1Addr, row.rs1Data), (row.rs2Addr, row.rs2Data),
            if row.intr then None
            else if Executes(row) && row.rdAddr == 0 then Some((0, 0))
            else Some((row.rdAddr, row.rdData)),
            if IsLoad(row) then Some(row.rmask) else None,
            if IsStore(row) then Some(row.wmask) else None,
            if IsLoad(row) && !Mmio(cfg, row.memAddr) then Some(row.memRdata) else None,
            row.mstatus, row.mie, row.mtvec, row.mscratch, row.mepc, row.mcause, row.mtval)
  }

  // ----- control and status registers -----

  function ReadCsr(cfg: Config, c: Csrs, i: Inputs, csr: nat): Option<word> {
    if csr == MSTATUS then Some(Mstatus(c))
    else if csr == MISA then Some(Misa(cfg))
    else if csr == MIE then Some(MieReg(c))
    else if csr == MTVEC then Some(Mtvec(c))
    else if csr == MSCRATCH then Some(c.mscratch)
    else if csr == MEPC then Some(c.mepc)
    else if csr == MCAUSE then Some(c.mcause)
    else if csr == MTVAL then Some(c.mtval)
    else if csr == MIP then Some((if i.irqExternal then 0x800 else 0) + (if i.irqTimer then 0x80 else 0))
    else if IsCounter(csr) then Some(i.sample)
    else None
  }

  /** Writes keep only the implemented fields; pending bits and counters are not stored. */
  function WriteCsr(c: Csrs, csr: nat, v: word): Csrs {
    if csr == MSTATUS then c.(mieBit := Bit(v, 3), mpieBit := Bit(v, 7))
    else if csr == MIE then c.(meie := Bit(v, 11), mtie := Bit(v, 7))
    else if csr == MTVEC then c.(tvecBase := v - v % 4, vectored := v % 4 == 1)
    else if csr == MSCRATCH then c.(mscratch := v)
    else if csr == MEPC then c.(mepc := v - v % 4)
    else if csr == MCAUSE then c.(mcause := v)
    else if csr == MTVAL then c.(mtval := v)
    else c
  }

  function CsrCombine(op: CsrOp, was: word, operand: word): word {
    match op
    case ReadWrite => operand
    case ReadSet => BitOr(was, operand)
    case ReadClear => BitClear(was, operand)
  }

  function EnterHandler(c: Csrs, pc: word, cause: word, tval: word): Csrs {
    c.(mpieBit := c.mieBit, mieBit := false, mepc := pc, mcause := cause, mtval := tval)
  }

  function LeaveHandler(c: Csrs): Csrs {
    c.(mieBit := c.mpieBit, mpieBit := true)
  }

  // ----- one instruction -----

  /** The destination write and the successor of one executed instruction. */
  datatype Effect = Effect(rd: regnum, value: word, pc: word, mem: Memory, csr: Csrs)

  /** Store the low bytes of v at the lanes that an access of this size at a reaches. */
  function StoreBytes(mem: Memory, size: Size, a: word, v: word): Memory {
    (b: int) =>
      if a <= b < a + Bytes(size) && b < a - a % 4 + 4 then ByteOf(v, b - a) else mem(b)
  }

  function Execute(cfg: Config, h: Hart, i: Inputs, instr: Instr): Option<Effect> {
    var seqPc := U32(h.pc + 4);
    var plain := (rd: regnum, v: word) => Some(Effect(rd, v, seqPc, h.mem, h.csr));
    match instr
    case Lui(rd, upper) => plain(rd, upper)
    case Auipc(rd, upper) => plain(rd, U32(h.pc + upper))
    case Jal(rd, offset) => Some(Effect(rd, seqPc, U32(h.pc + offset), h.mem, h.csr))
    case Jalr(rd, rs1, offset) => Some(Effect(rd, seqPc, Even(h.x[rs1] + offset), h.mem, h.csr))
    case Branch(cond, rs1, rs2, offset) =>
      Some(Effect(0, 0, if Taken(cond, h.x[rs1], h.x[rs2]) then U32(h.pc + offset) else seqPc, h.mem, h.csr))
    case OpImm(op, rd, rs1, imm) => plain(rd, Alu(op, h.x[rs1], U32(imm)))
    case Op(op, rd, rs1, rs2) => plain(rd, Alu(op, h.x[rs1], h.x[rs2]))
    case MulDiv(mul, rd, rs1, rs2) => plain(rd, Multiply(mul, h.x[rs1], h.x[rs2]))
    case Load(size, signExtend, rd, _, _) =>
      plain(rd, LoadValue(size, signExtend, LoadSource(cfg, h, i), i.memAddr % 4))
    case Store(size, _, _, _) =>
      var mem := if Mmio(cfg, i.memAddr) then h.mem
                 else StoreBytes(h.mem, size, Physical(cfg, i.memAddr), i.memWdata);
      Some(Effect(0, 0, seqPc, mem, h.csr))
    case Fence => plain(0, 0)
    case Ebreak => plain(0, 0)
    case Wfi => plain(0, 0)
    case Mret => Some(Effect(0, 0, h.csr.mepc, h.mem, LeaveHandler(h.csr)))
    case Csr(op, rd, source, csr) =>
      var was := ReadCsr(cfg, h.csr, i, csr);
      var operand := if source.Register? then h.x[source.r] else source.z;
      var writes := op == ReadWrite || operand != 0;
      if was.None? || (writes && csr == MISA) then None
      else Some(Effect(rd, was.value, seqPc, h.mem,
                       if writes then WriteCsr(h.csr, csr, CsrCombine(op, was.value, operand)) else h.csr))
  }

  /** The word a load reads: device data from the trace, otherwise memory. */
  function LoadSource(cfg: Config, h: Hart, i: Inputs): word {
    if Mmio(cfg, i.memAddr) then i.mmioData
    else
      var a := Physical(cfg, i.memAddr);
      WordAt(h.mem, a - a % 4)
  }

  // ----- one row -----

  /** The image, when there is one, fixes the instruction at each address. */
  predicate Fetches(cfg: Config, pc: word, insn: word) {
    cfg.manifest == map[] || (pc in cfg.manifest && cfg.manifest[pc] == insn)
  }

  const EXTERNAL_CAUSE: word := 0x8000_000B
  const TIMER_CAUSE: word := 0x8000_0007

  function InterruptTarget(c: Csrs, cause: word): int {
    c.tvecBase + (if c.vectored then 4 * (cause - 0x8000_0000) else 0)
  }

  /** The predicted row number `order` and the state after it, or None when no such row
      can retire. The snapshot columns show the state before the row, except that a trap
      or interrupt row already shows its own mepc, mcause and mtval. */
  function Predict(cfg: Config, h: Hart, order: int, i: Inputs): Option<(Outputs, Hart)> {
    var r1, r2 := Rs1(i.insn), Rs2(i.insn);
    var before := Outputs(order, h.pc, 0, (r1, h.x[r1]), (r2, h.x[r2]), None, None, None, None,
                          Mstatus(h.csr), MieReg(h.csr), Mtvec(h.csr), h.csr.mscratch,
                          h.csr.mepc, h.csr.mcause, h.csr.mtval);
    if i.intr then
      if !i.irqExternal && !i.irqTimer then None
      else
        var cause := if i.irqExternal then EXTERNAL_CAUSE else TIMER_CAUSE;
        var target := InterruptTarget(h.csr, cause);
        if !(0 <= target < W) then None  // a vector beyond the address space is never reached
        else Some((before.(nextPc := target, mepc := h.pc, mcause := cause, mtval := 0),
              h.(pc := target, csr := EnterHandler(h.csr, h.pc, cause, 0))))
    else if !Fetches(cfg, h.pc, i.insn) then None
    else if i.trap then
      var cause := TrapCause(i.insn, h.pc, h.x[r1], i.memAddr);
      var tval := cause.Tval(i.insn, i.memAddr);
      Some((before.(nextPc := h.csr.tvecBase, rd := Some((0, 0)),
                    mepc := h.pc, mcause := cause.Code(), mtval := tval),
            h.(pc := h.csr.tvecBase, csr := EnterHandler(h.csr, h.pc, cause.Code(), tval))))
    else
      var instr := Decode(i.insn);
      if instr.None? then None
      else
        var effect := Execute(cfg, h, i, instr.value);
        if effect.None? then None
        else
          var e := effect.value;
          var off := i.memAddr % 4;
          Some((before.(nextPc := e.pc,
                        rd := Some((e.rd, if e.rd == 0 then 0 else e.value)),
                        loadMask := if instr.value.Load? then Some(LaneMask(instr.value.size, off)) else None,
                        storeMask := if instr.value.Store? then Some(LaneMask(instr.value.size, off)) else None,
                        loadData := if instr.value.Load? && !Mmio(cfg, i.memAddr) then Some(LoadSource(cfg, h, i))
                                    else None),
                Hart(e.pc, SetReg(h.x, e.rd, e.value), e.mem, e.csr)))
  }

  /** Row number `order` is a step of the hart. */
  predicate StepsTo(cfg: Config, h: Hart, order: int, row: Row) {
    var p := Predict(cfg, h, order, InputsOf(cfg, row));
    p.Some? && p.value.0 == OutputsOf(cfg, row)
  }

  function After(cfg: Config, h: Hart, order: int, row: Row): Hart
    requires StepsTo(cfg, h, order, row)
  {
    Predict(cfg, h, order, InputsOf(cfg, row)).value.1
  }

  // ----- whole traces -----

  /** The hart after the rows of one epoch, numbered from zero, or None when they are not a run. */
  function Run(cfg: Config, rows: seq<Row>): Option<Hart> {
    if rows == [] then Some(ResetHart(cfg))
    else
      var n := |rows| - 1;
      var h := Run(cfg, rows[..n]);
      if h.Some? && StepsTo(cfg, h.value, n, rows[n]) then Some(After(cfg, h.value, n, rows[n])) else None
  }

  /** A reset lies between two rows when the epoch changes or the numbering falls back. */
  predicate Boundary(previous: Row, row: Row) {
    row.epoch != previous.epoch || row.order < previous.order
  }

  /** Where the epoch of the last row begins. */
  function EpochStart(trace: seq<Row>): (k: nat)
    ensures trace == [] ==> k == 0
    ensures trace != [] ==> k < |trace|
  {
    var n := |trace|;
    if n <= 1 then 0
    else if Boundary(trace[n - 2], trace[n - 1]) then n - 1
    else EpochStart(trace[..n - 1])
  }

  /** The rows of the last epoch. */
  function LastEpoch(trace: seq<Row>): seq<Row> {
    trace[EpochStart(trace)..]
  }

  /** The trace cut at its resets. */
  function Epochs(trace: seq<Row>): seq<seq<Row>> {
    if trace == [] then []
    else
      Epochs(trace[..EpochStart(trace)]) + [LastEpoch(trace)]
  }

  /** Every epoch of the trace is a run of the hart from reset. */
  ghost predicate IsaAccepts(cfg: Config, trace: seq<Row>) {
    forall e :: e in Epochs(trace) ==> Run(cfg, e).Some?
  }
}
