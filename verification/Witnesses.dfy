/** Accepted traces that show the exceptions of the mutation results at work: a lowered order
    column, a counter sample that nothing reads, and device data past the loaded byte. */
module Witnesses {
  import opened Bits
  import opened Isa
  import opened Machine
  import opened Checker
  import opened Refinement
  import opened Encoding
  import opened TraceTheorems
  import opened ReplacedRows
  import opened MutationSuite
  import opened RegisterColumns
  import opened Wrappers

  // ----- instructions -----

  /** jal x0, 0 */
  const SPIN: word := Pack(0, 0, 0, 0, 0, 0x6F)

  /** csrrs x5, mcycle, x0 */
  const SAMPLE: word := Pack(88, 0, 0, 2, 5, 0x73)

  /** addi x0, x5, 0 */
  const USE: word := Pack(0, 0, 5, 0, 0, 0x13)

  /** lbu x5, 0x100(x0) */
  const DEVICE: word := Pack(8, 0, 0, 4, 5, 0x03)

  lemma SpinDecodes()
    ensures Decode(SPIN) == Some(Jal(0, 0)) && Opcode(SPIN) == 0x6F && Rs1(SPIN) == 0 && Rs2(SPIN) == 0
  {
    hide Opcode, Funct3, Funct7, Rd, Rs1, Rs2, Field, Pack;
    PackFields(0, 0, 0, 0, 0, 0x6F);
    PackSubfields(0, 0, 0, 0, 0, 0x6F);
  }

  lemma SampleDecodes()
    ensures Opcode(SAMPLE) == 0x73 && Rs1(SAMPLE) == 0 && Rs2(SAMPLE) == 0
    ensures Funct3(SAMPLE) == 2 && Rd(SAMPLE) == 5 && Field(SAMPLE, 31, 20) == 0xB00
    ensures Decode(SAMPLE) == Some(Csr(ReadSet, 5, Register(0), 0xB00))
  {
    SampleWord();
    hide Opcode, Funct3, Funct7, Rd, Rs1, Rs2, Field, Pack;
    PackFields(88, 0, 0, 2, 5, 0x73);
    PackSubfields(88, 0, 0, 2, 5, 0x73);
  }

  lemma SampleWord()
    ensures SAMPLE !in {EBREAK, MRET, WFI}
  {
  }

  lemma UseDecodes()
    ensures Decode(USE) == Some(OpImm(Add, 0, 5, 0)) && Opcode(USE) == 0x13 && Rs1(USE) == 5 && Rs2(USE) == 0
  {
    hide Opcode, Funct3, Funct7, Rd, Rs1, Rs2, Field, Pack;
    PackFields(0, 0, 5, 0, 0, 0x13);
    PackSubfields(0, 0, 5, 0, 0, 0x13);
  }

  lemma DeviceDecodes()
    ensures Decode(DEVICE) == Some(Load(OneByte, false, 5, 0, 0x100))
    ensures Opcode(DEVICE) == 0x03 && Rs1(DEVICE) == 0 && Rs2(DEVICE) == 0
  {
    hide Opcode, Funct3, Funct7, Rd, Rs1, Rs2, Field, Pack;
    PackFields(8, 0, 0, 4, 5, 0x03);
    PackSubfields(8, 0, 0, 4, 5, 0x03);
  }

  /** A row with the CSRs of reset that accesses no memory. */
  function PlainRow(order: int, insn: word, pc: word, nextPc: word,
                    rs1: regnum, rs1Data: word, rd: regnum, rdData: word): Row
  {
    Row(order, 0, insn, pc, nextPc, false, false, rs1, rs1Data, 0, 0, rd, rdData,
        0, 0, 0, 0, 0, 0x1800, 0, 0x300, 0, 0, 0, 0, false, false)
  }

  // ----- a lowered order column -----

  function Spin(order: int): Row {
    PlainRow(order, SPIN, 0, 0, 0, 0, 0, 0)
  }

  function SpinTrace(n: nat): seq<Row> {
    seq(n, k => Spin(k))
  }

  lemma SpinSteps(order: int)
    ensures StepsTo(PLAIN, ResetHart(PLAIN), order, Spin(order))
    ensures After(PLAIN, ResetHart(PLAIN), order, Spin(order)) == ResetHart(PLAIN)
  {
    SpinDecodes();
    hide Opcode, Rs1, Rs2, Decode, Pack, Mmio, Field, Funct3, Rd;
  }

  /** Spinning at the reset address is accepted, also when the last order is lowered to zero. */
  lemma {:induction false} SpinHart(t: seq<Row>, k: nat)
    requires k < |t|
    requires forall j :: 0 <= j < |t| ==> t[j] == Spin(Position(t, j))
    ensures HartAt(PLAIN, t, k) == Some(ResetHart(PLAIN)) && StepsAt(PLAIN, t, k)
    decreases k
  {
    hide StepsTo, After, ResetHart, Boundary, Position, Spin;
    assert t[k] == Spin(Position(t, k));
    SpinSteps(Position(t, k));
    if !StartsAt(t, k) {
      SpinHart(t, k - 1);
      SpinSteps(Position(t, k - 1));
    }
  }

  lemma SpinAccepted(t: seq<Row>)
    requires forall j :: 0 <= j < |t| ==> t[j] == Spin(Position(t, j))
    ensures Accepts(PLAIN, t) && AllNameTheirRegisters(t)
  {
    hide Accepts, IsaAccepts, StepsAt, Position, Spin, Check, Run, LastEpoch, Simulates, AllNameTheirRegisters;
    forall k | 0 <= k < |t| ensures StepsAt(PLAIN, t, k) {
      SpinHart(t, k);
    }
    AcceptedIff(PLAIN, t);
    CheckerRefinesIsa(PLAIN, t);
  }

  lemma {:induction false} SpinPositions(n: nat, k: nat)
    requires k < n
    ensures Position(SpinTrace(n), k) == k
    decreases k
  {
    if k > 0 {
      SpinPositions(n, k - 1);
    }
  }

  /** Lowering the order column of row i to 0 changes the prediction and nothing else, and
      the trace is accepted before and after. */
  ghost predicate LoweredUnseen(t: seq<Row>, i: nat) {
    && i < |t| && t[i].order != 0
    && Accepts(PLAIN, t) && AllNameTheirRegisters(t)
    && ChangesPrediction(PLAIN, t, i, t[i].(order := 0))
    && Accepts(PLAIN, t[i := t[i].(order := 0)])
  }

  lemma SpinTraceAt(n: nat, j: nat)
    requires j < n
    ensures |SpinTrace(n)| == n && SpinTrace(n)[j] == Spin(j) == Spin(Position(SpinTrace(n), j))
  {
    hide Spin;
    SpinPositions(n, j);
  }

  lemma LoweredAt(n: nat, j: nat)
    requires n >= 3 && j < n
    ensures var u := SpinTrace(n)[n - 1 := Spin(0)]; u[j] == Spin(Position(u, j))
  {
    var t := SpinTrace(n);
    var u := t[n - 1 := Spin(0)];
    if j < n - 1 {
      SpinPositions(n, j);
      SamePositions(t, u, j);
    } else {
      assert u[j - 1].order == n - 2 > 0 == u[j].order;
      assert StartsAt(u, j);
    }
  }

  lemma OrderIsPredicted(row: Row)
    requires row.order != 0
    ensures InputsOf(PLAIN, row.(order := 0)) == InputsOf(PLAIN, row)
    ensures OutputsOf(PLAIN, row.(order := 0)) != OutputsOf(PLAIN, row)
  {
    hide Opcode, Funct3, Field, Rd, IsCounter, Mmio;
  }

  /** The last row of three or more claims order 0: the trace is still accepted, since a
      falling order is taken for a reset. */
  lemma LoweredOrderAccepted(n: nat)
    requires n >= 3
    ensures LoweredUnseen(SpinTrace(n), n - 1)
  {
    hide Accepts, AllNameTheirRegisters, SpinTrace, InputsOf, OutputsOf, Position;
    var t := SpinTrace(n);
    forall j | 0 <= j < n ensures |t| == n && t[j] == Spin(Position(t, j)) {
      SpinTraceAt(n, j);
    }
    SpinTraceAt(n, n - 1);
    SpinAccepted(t);
    var u := t[n - 1 := Spin(0)];
    forall j | 0 <= j < n ensures u[j] == Spin(Position(u, j)) {
      LoweredAt(n, j);
    }
    SpinAccepted(u);
    OrderIsPredicted(t[n - 1]);
  }

  // ----- a counter sample -----

  /** csrrs x5, mcycle, x0 as the first row, with v for the sampled counter. */
  function SampleRow(v: word): Row {
    PlainRow(0, SAMPLE, 0, 4, 0, 0, 5, v)
  }

  /** The row after it: one that does not read x5, and one that does. */
  function IdleRow(): Row {
    PlainRow(1, SPIN, 4, 4, 0, 0, 0, 0)
  }

  function UseRow(v: word): Row {
    PlainRow(1, USE, 4, 8, 5, v, 0, 0)
  }

  /** The hart after a first row that writes v to x5. */
  function Sampled(v: word): Hart {
    var h := ResetHart(PLAIN);
    h.(pc := 4, x := SetReg(h.x, 5, v))
  }

  lemma SampleSteps(v: word)
    ensures StepsTo(PLAIN, ResetHart(PLAIN), 0, SampleRow(v))
    ensures After(PLAIN, ResetHart(PLAIN), 0, SampleRow(v)) == Sampled(v)
    ensures SamplesCounter(SampleRow(v))
  {
    SampleDecodes();
    hide Opcode, Rs1, Rs2, Decode, Pack, Mmio, Field, Funct3, Rd;
  }

  lemma IdleSteps(v: word)
    ensures StepsTo(PLAIN, Sampled(v), 1, IdleRow())
  {
    SpinDecodes();
    hide Opcode, Rs1, Rs2, Decode, Pack, Mmio, Field, Funct3, Rd;
  }

  lemma UseSteps(v: word)
    ensures StepsTo(PLAIN, Sampled(v), 1, UseRow(v))
  {
    UseDecodes();
    hide Opcode, Rs1, Rs2, Decode, Pack, Mmio, Field, Funct3, Rd;
  }

  /** Two rows of one epoch, each a step. */
  lemma TwoRowsAccepted(first: Row, second: Row, h: Hart)
    requires StepsTo(PLAIN, ResetHart(PLAIN), 0, first) && After(PLAIN, ResetHart(PLAIN), 0, first) == h
    requires StepsTo(PLAIN, h, 1, second) && !Boundary(first, second)
    ensures Accepts(PLAIN, [first, second]) && AllNameTheirRegisters([first, second])
  {
    hide Accepts, IsaAccepts, StepsTo, After, ResetHart, Check, Run, LastEpoch, Simulates, AllNameTheirRegisters;
    var t := [first, second];
    assert StepsAt(PLAIN, t, 0) && StepsAt(PLAIN, t, 1);
    AcceptedIff(PLAIN, t);
    CheckerRefinesIsa(PLAIN, t);
  }

  /** A sample that no row reads can be anything; one that the next row reads cannot. */
  lemma SampleMatters(v: word, w: word)
    requires v != w
    ensures Accepts(PLAIN, [SampleRow(v), IdleRow()]) && Accepts(PLAIN, [SampleRow(w), IdleRow()])
    ensures Accepts(PLAIN, [SampleRow(v), UseRow(v)]) && !Accepts(PLAIN, [SampleRow(w), UseRow(v)])
  {
    hide Accepts, AllNameTheirRegisters, StepsTo, After, ResetHart, Sampled, SamplesCounter, Rs1, Rs2, ReadLater;
    SampleSteps(v);
    SampleSteps(w);
    IdleSteps(v);
    IdleSteps(w);
    UseSteps(v);
    TwoRowsAccepted(SampleRow(v), IdleRow(), Sampled(v));
    TwoRowsAccepted(SampleRow(w), IdleRow(), Sampled(w));
    TwoRowsAccepted(SampleRow(v), UseRow(v), Sampled(v));
    var t := [SampleRow(v), UseRow(v)];
    SampleVerdict(PLAIN, t, 0, w);
    assert t[0 := t[0].(rdData := w)] == [SampleRow(w), UseRow(v)];
    UseReadsSample(v);
  }

  lemma UseReadsSample(v: word)
    ensures ReadLater([SampleRow(v), UseRow(v)], 0, 5)
  {
    UseDecodes();
    hide Rs1, Rs2, Decode, Opcode;
    var t := [SampleRow(v), UseRow(v)];
    assert Reaches(t, 0, 5, 1) && Reads(t[1], 5);
  }

  // ----- device data -----

  /** lbu x5, 0x100(x0) as the first row: the device supplies the word d. */
  function DeviceRow(d: word): Row {
    PlainRow(0, DEVICE, 0, 4, 0, 0, 5, d % 0x100).(memAddr := 0x100, rmask := 1, memRdata := d)
  }

  lemma LowByte(d: word)
    ensures LoadValue(OneByte, false, d, 0) == d % 0x100 && LaneMask(OneByte, 0) == 1
  {
    hide U32;
    assert U32(d % 0x100) == d % 0x100 by { SmallWord(d % 0x100); }
  }

  lemma SmallWord(v: word)
    ensures U32(v) == v
  {
  }

  lemma DeviceExecutes(i: Inputs)
    requires i.memAddr == 0x100
    ensures Mmio(PLAIN, 0x100)
    ensures Execute(PLAIN, ResetHart(PLAIN), i, Load(OneByte, false, 5, 0, 0x100)) ==
      Some(Effect(5, i.mmioData % 0x100, 4, ResetHart(PLAIN).mem, ResetHart(PLAIN).csr))
  {
    hide Mmio, LoadValue;
    assert Mmio(PLAIN, 0x100) by { DeviceRange(); }
    DeviceLoad(PLAIN, ResetHart(PLAIN), i, Load(OneByte, false, 5, 0, 0x100));
    LowByte(i.mmioData);
  }

  lemma DeviceRange()
    ensures Mmio(PLAIN, 0x100)
  {
  }

  lemma DeviceSteps(d: word)
    ensures StepsTo(PLAIN, ResetHart(PLAIN), 0, DeviceRow(d))
    ensures After(PLAIN, ResetHart(PLAIN), 0, DeviceRow(d)) == Sampled(d % 0x100)
    ensures IsLoad(DeviceRow(d)) && Mmio(PLAIN, 0x100)
  {
    hide Opcode, Rs1, Rs2, Decode, Pack, Mmio, Field, Funct3, Rd, Execute, LoadValue, LaneMask;
    DeviceDecodes();
    LowByte(d);
    DeviceExecutes(InputsOf(PLAIN, DeviceRow(d)));
  }

  lemma DeviceLoadsSame(d: word, v: word)
    ensures LoadsSame(DeviceRow(d), v) <==> v % 0x100 == d % 0x100
  {
    hide Decode, LoadValue, Pack;
    DeviceDecodes();
    LowByte(v);
  }

  /** Device data is reported exactly when the loaded byte changes. */
  lemma DeviceByteMatters(d: word, v: word)
    ensures Accepts(PLAIN, [DeviceRow(d), IdleRow()])
    ensures Accepts(PLAIN, [DeviceRow(d).(memRdata := v), IdleRow()]) <==> v % 0x100 == d % 0x100
  {
    hide Accepts, AllNameTheirRegisters, StepsTo, After, ResetHart, Sampled, IsLoad, Mmio, LoadsSame;
    DeviceSteps(d);
    IdleSteps(d % 0x100);
    TwoRowsAccepted(DeviceRow(d), IdleRow(), Sampled(d % 0x100));
    var t := [DeviceRow(d), IdleRow()];
    DeviceDataVerdict(PLAIN, t, 0, v);
    assert t[0 := t[0].(memRdata := v)] == [DeviceRow(d).(memRdata := v), IdleRow()];
    DeviceLoadsSame(d, v);
  }
}
