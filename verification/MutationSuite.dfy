/** The trace mutations that the regression applies to an accepted trace, and exactly when
    the checker does not report them. */
module MutationSuite {
  import opened Bits
  import opened Isa
  import opened Machine
  import opened Checker
  import opened Refinement
  import opened TraceTheorems
  import opened ReplacedRows
  import opened ChangedInstructions
  import opened Wrappers

  datatype Mutation =
    | WrongNextPc | WrongRdValue | WrongMemoryMask | WrongMcause
    | WrongInstruction | WrongMemoryData | WrongCsrSnapshot | WrongResetEpoch

  /** The rows that a mutation may be applied to. */
  predicate Selects(m: Mutation, row: Row) {
    match m
    case WrongNextPc => Executes(row)
    case WrongRdValue => row.rdAddr != 0
    case WrongMemoryMask => row.rmask != 0 || row.wmask != 0
    case WrongMcause => row.trap
    case WrongInstruction => !row.intr
    case WrongMemoryData => row.rmask != 0
    case WrongCsrSnapshot => Executes(row)
    case WrongResetEpoch => row.order > 2
  }

  function Mutate(m: Mutation, row: Row): Row {
    match m
    case WrongNextPc => row.(nextPc := BitXor(row.nextPc, 4))
    case WrongRdValue => row.(rdData := BitXor(row.rdData, 1))
    case WrongMemoryMask => if row.rmask != 0 then row.(rmask := 0) else row.(wmask := 0)
    case WrongMcause => row.(mcause := 1)
    case WrongInstruction => row.(insn := BitXor(row.insn, 0x1000))
    case WrongMemoryData => row.(memRdata := BitXor(row.memRdata, 1))
    case WrongCsrSnapshot => row.(mstatus := 0xFFFF_FFFF)
    case WrongResetEpoch => row.(epoch := row.epoch + 1)
  }

  /** u is v with bit k flipped. */
  ghost predicate FlipsBit(v: nat, u: nat, k: nat) {
    forall i: nat :: Bit(u, i) == (Bit(v, i) != (i == k))
  }

  lemma {:induction false} PowerBit(k: nat, i: nat)
    ensures Bit(P2(k), i) <==> i == k
    decreases i
  {
    if i > 0 && k > 0 {
      P2Halves(k);
      PowerBit(k - 1, i - 1);
    } else if k > 0 {
      P2Halves(k);
    } else if i > 0 {
      NoBits(i - 1);
    }
  }

  lemma {:induction false} NoBits(i: nat)
    ensures Shr(0, i) == 0
    decreases i
  {
    if i > 0 {
      NoBits(i - 1);
    }
  }

  lemma XorFlips(v: word, k: nat, m: word)
    requires m == P2(k)
    ensures FlipsBit(v, BitXor(v, m), k)
  {
    hide Bit, Bw, P2;
    forall i: nat ensures Bit(BitXor(v, m), i) == (Bit(v, i) != (i == k)) {
      BwBit(Xor, v, m, i);
      PowerBit(k, i);
    }
  }

  /** Each mutation changes one column: one bit of it, or its value. */
  lemma MutationTouches(m: Mutation, row: Row)
    ensures var r := Mutate(m, row);
            match m
            case WrongNextPc => r == row.(nextPc := r.nextPc) && FlipsBit(row.nextPc, r.nextPc, 2)
            case WrongRdValue => r == row.(rdData := r.rdData) && FlipsBit(row.rdData, r.rdData, 0)
            case WrongMemoryMask =>
              && r == row.(rmask := r.rmask, wmask := r.wmask) && r.rmask == 0
              && r.wmask == if row.rmask != 0 then row.wmask else 0
            case WrongMcause => r == row.(mcause := r.mcause) && r.mcause == 1
            case WrongInstruction => r == row.(insn := r.insn) && FlipsBit(row.insn, r.insn, 12)
            case WrongMemoryData => r == row.(memRdata := r.memRdata) && FlipsBit(row.memRdata, r.memRdata, 0)
            case WrongCsrSnapshot => r == row.(mstatus := r.mstatus) && r.mstatus == W - 1
            case WrongResetEpoch => r == row.(epoch := r.epoch) && r.epoch - row.epoch == 1
  {
    hide BitXor, FlipsBit, P2;
    P2Values();
    XorFlips(row.nextPc, 2, 4);
    XorFlips(row.rdData, 0, 1);
    XorFlips(row.insn, 12, 0x1000);
    XorFlips(row.memRdata, 0, 1);
  }

  /** The checker looks at what the mutation changes: counter samples and device data are
      taken from the trace, an interrupt row's destination columns are not looked at, masks
      matter only on their own kind of access, and instructions are only known from a manifest. */
  predicate Checked(cfg: Config, m: Mutation, row: Row) {
    match m
    case WrongRdValue => !row.intr && !SamplesCounter(row)
    case WrongMemoryMask => if row.rmask != 0 then IsLoad(row) else IsStore(row)
    case WrongInstruction => cfg.manifest != map[]
    case WrongMemoryData => IsLoad(row) && !Mmio(cfg, row.memAddr)
    case _ => true
  }

  function Mutant(m: Mutation, t: seq<Row>, i: nat): seq<Row>
    requires i < |t|
  {
    t[i := Mutate(m, t[i])]
  }

  // ----- what each mutation changes -----

  lemma XorChanges(v: nat, m: nat)
    requires m != 0
    ensures Bw(Xor, v, m) != v
  {
    XorAssoc(v, v, m);
    XorSelf(v);
    BwZero(Xor, m);
  }

  lemma XorsChange(v: word)
    ensures BitXor(v, 1) != v && BitXor(v, 4) != v && BitXor(v, 0x1000) != v
  {
    XorChanges(v, 1);
    XorChanges(v, 4);
    XorChanges(v, 0x1000);
  }

  /** In an accepted row the mutated prediction really differs. */
  lemma PredictionDiffers(cfg: Config, h: Hart, order: int, m: Mutation, row: Row)
    requires StepsTo(cfg, h, order, row) && Selects(m, row) && Checked(cfg, m, row)
    requires !m.WrongInstruction? && !m.WrongResetEpoch?
    ensures InputsOf(cfg, Mutate(m, row)) == InputsOf(cfg, row)
    ensures OutputsOf(cfg, Mutate(m, row)) != OutputsOf(cfg, row)
  {
    hide Predict, Opcode, Funct3, Field, Rd, Mmio, IsCounter, BitXor;
    XorsChange(row.nextPc);
    XorsChange(row.rdData);
    XorsChange(row.memRdata);
    ShownState(cfg, h, order, row);
  }

  lemma ShownState(cfg: Config, h: Hart, order: int, row: Row)
    requires StepsTo(cfg, h, order, row)
    ensures row.trap && !row.intr ==> row.mcause != 1 && row.rdAddr == 0
    ensures row.intr ==> row.mcause != 1
    ensures row.mstatus != 0xFFFF_FFFF
  {
    hide Opcode, Field, Decode, Execute, Mmio, LoadSource, LaneMask, Rs1, Rs2, TrapCause, SetReg, SamplesCounter;
  }

  lemma SameBoundaries(cfg: Config, t: seq<Row>, i: nat, r: Row)
    requires i < |t| && r.order == t[i].order && r.epoch == t[i].epoch
    ensures StartsAt(t[i := r], i) == StartsAt(t, i)
  {
  }

  /** Every checked mutation of an accepted trace is reported. */
  lemma MutationReported(cfg: Config, t: seq<Row>, i: nat, m: Mutation)
    requires Accepts(cfg, t) && AllNameTheirRegisters(t) && i < |t|
    requires Selects(m, t[i]) && Checked(cfg, m, t[i])
    ensures !Accepts(cfg, Mutant(m, t, i))
  {
    hide Accepts, IsaAccepts, Check, Run, LastEpoch, Simulates, StepsTo, InputsOf, OutputsOf, Mutate, SamplesCounter,
      IsLoad, IsStore, Mmio, NamesItsRegisters;
    if m.WrongInstruction? {
      InstructionReported(cfg, t, i);
    } else if m.WrongResetEpoch? {
      EpochReported(cfg, t, i);
    } else {
      var r := Mutate(m, t[i]);
      CheckerRefinesIsa(cfg, t);
      AcceptedIff(cfg, t);
      assert StepsAt(cfg, t, i);
      PredictionDiffers(cfg, HartAt(cfg, t, i).value, Position(t, i), m, t[i]);
      SlotKept(m, t[i]);
      SameBoundaries(cfg, t, i, r);
      ChangedRowRejected(cfg, t, i, r);
      CheckerRefinesIsa(cfg, t[i := r]);
      NamesReplaced(t, i, r);
      SameNames(r, t[i]);
    }
  }

  lemma SlotKept(m: Mutation, row: Row)
    requires !m.WrongInstruction? && !m.WrongResetEpoch?
    ensures var r := Mutate(m, row);
            && r.order == row.order && r.epoch == row.epoch && r.insn == row.insn
            && r.rs1Addr == row.rs1Addr && r.rs2Addr == row.rs2Addr
  {
  }

  lemma SameNames(r: Row, row: Row)
    requires r.insn == row.insn && r.rs1Addr == row.rs1Addr && r.rs2Addr == row.rs2Addr
    ensures NamesItsRegisters(r) == NamesItsRegisters(row)
  {
  }

  /** A row that is not the first of its epoch and claims a new one is out of order. */
  lemma EpochReported(cfg: Config, t: seq<Row>, i: nat)
    requires Accepts(cfg, t) && AllNameTheirRegisters(t) && i < |t| && t[i].order > 2
    ensures !Accepts(cfg, Mutant(WrongResetEpoch, t, i))
  {
    hide Accepts, IsaAccepts, Check, Run, LastEpoch, Simulates, StepsTo;
    var u := Mutant(WrongResetEpoch, t, i);
    CheckerRefinesIsa(cfg, t);
    CheckerRefinesIsa(cfg, u);
    AcceptedIff(cfg, t);
    AcceptedIff(cfg, u);
    assert StepsAt(cfg, t, i);
    OrderIsPosition(cfg, t, i);
    assert !StartsAt(t, i) && StartsAt(u, i);
    forall k | 0 <= k < |u| ensures NamesItsRegisters(u[k]) {
      assert NamesItsRegisters(t[k]);
    }
    if StepsAt(cfg, u, i) {
      OrderIsPosition(cfg, u, i);
    }
  }

  // ----- the manifest -----

  /** A verdict with a mismatch stays one. */
  lemma {:induction false} RejectedPrefix(cfg: Config, t: seq<Row>, n: nat)
    requires n <= |t| && !Accepts(cfg, t[..n])
    ensures !Accepts(cfg, t)
    decreases |t| - n
  {
    if n == |t| {
      assert t[..n] == t;
    } else {
      hide CheckRow;
      assert t[..n + 1][..n] == t[..n];
      RejectedPrefix(cfg, t, n + 1);
    }
  }

  /** A changed instruction contradicts the manifest that the original agreed with. */
  lemma InstructionReported(cfg: Config, t: seq<Row>, i: nat)
    requires Accepts(cfg, t) && i < |t| && !t[i].intr && cfg.manifest != map[]
    ensures !Accepts(cfg, Mutant(Mutation.WrongInstruction, t, i))
  {
    hide CheckRow, BitXor;
    var u, r := Mutant(Mutation.WrongInstruction, t, i), Mutate(Mutation.WrongInstruction, t[i]);
    XorsChange(t[i].insn);
    assert t[..i + 1][..i] == t[..i] && u[..i + 1][..i] == t[..i];
    if Accepts(cfg, t[..i]) {
      if !Accepts(cfg, t[..i + 1]) {
        RejectedPrefix(cfg, t, i + 1);
        assert false;
      }
      QuietRowMatches(cfg, Check(cfg, t[..i]).state, t[i]);
      if CheckRow(cfg, Check(cfg, t[..i]).state, r).faults == [] {
        QuietRowMatches(cfg, Check(cfg, t[..i]).state, r);
      }
      TagEmpty(t[i].order, CheckRow(cfg, Check(cfg, t[..i]).state, t[i]).faults);
      TagEmpty(r.order, CheckRow(cfg, Check(cfg, t[..i]).state, r).faults);
      assert !Accepts(cfg, u[..i + 1]);
      RejectedPrefix(cfg, u, i + 1);
    } else {
      RejectedPrefix(cfg, u[..i + 1], i);
      RejectedPrefix(cfg, u, i + 1);
    }
  }

  lemma TagEmpty(order: int, faults: seq<Reason>)
    ensures Tag(order, faults) == [] <==> faults == []
  {
    assert |Tag(order, faults)| == |faults|;
  }

  /** A row without mismatches holds the instruction that the manifest has at its address. */
  lemma QuietRowMatches(cfg: Config, s: State, row: Row)
    requires StateOk(s) && cfg.manifest != map[] && !row.intr && CheckRow(cfg, s, row).faults == []
    ensures row.pc in cfg.manifest && row.insn == cfg.manifest[row.pc]
  {
    hide SnapshotFaults, InterruptFaults, TrapFaults, RetireFaults, ExpectedOf, InterruptCsrs, TrapEntryCsrs,
      ExpectedCause, ExpectedTval, OrderFaults, CsrsOk;
  }

  // ----- what goes unseen -----

  /** A row that samples a counter into a register is a step whatever the sample is, and
      leaves the sample in the register. */
  lemma SampleUnseen(cfg: Config, h: Hart, order: int, row: Row, v: word)
    requires StepsTo(cfg, h, order, row) && SamplesCounter(row) && row.rdAddr != 0
    ensures StepsTo(cfg, h, order, row.(rdData := v))
    ensures After(cfg, h, order, row).x[row.rdAddr] == row.rdData
    ensures Differs(After(cfg, h, order, row), After(cfg, h, order, row.(rdData := v)), row.rdAddr, v)
  {
    hide Opcode, Funct3, Field, Rd, Rs1, Rs2, Decode, Mmio, Mstatus, MieReg, Mtvec, Misa, WriteCsr, BitOr, BitClear,
      TrapCause, LoadSource, LaneMask, Execute, Fetches, InterruptTarget;
    var i, j := InputsOf(cfg, row), InputsOf(cfg, row.(rdData := v));
    SampledExecute(cfg, h, i, row.insn);
    SampledExecute(cfg, h, j, row.insn);
  }

  /** The effect of a counter access: only the value read depends on the sample. */
  lemma SampledExecute(cfg: Config, h: Hart, i: Inputs, w: word)
    requires Opcode(w) == 0x73 && Funct3(w) != 0 && IsCounter(Field(w, 31, 20))
    ensures var instr := Decode(w);
            && (instr.Some? ==> !instr.value.Load? && !instr.value.Store?)
            && (instr.Some? && instr.value.Csr? ==>
                 var e := Execute(cfg, h, i, instr.value);
                 e == Some(Effect(Rd(w), i.sample, U32(h.pc + 4), h.mem, h.csr)))
            && (instr.Some? && !instr.value.Csr? ==>
                 var e := Execute(cfg, h, i, instr.value);
                 e.Some? && e.value.rd == 0)
  {
    hide Opcode, Funct3, Field, Rd, Rs1, Decode, WriteCsr, BitOr, BitClear, Mmio;
    SystemKinds(w);
    forall u: word ensures WriteCsr(h.csr, Field(w, 31, 20), u) == h.csr {
      UnstoredWrites(h.csr, Field(w, 31, 20), u);
    }
  }

  lemma SystemKinds(w: word)
    requires Opcode(w) == 0x73
    ensures var instr := Decode(w);
            instr.Some? ==>
              || instr.value.Ebreak? || instr.value.Mret? || instr.value.Wfi?
              || (instr.value.Csr? && instr.value.rd == Rd(w) && instr.value.csr == Field(w, 31, 20))
  {
    hide Opcode, Funct3, Field, Rd, Rs1;
  }

  /** The load of the row makes the same register value of the data v. */
  predicate LoadsSame(row: Row, v: word) {
    var instr := Decode(row.insn);
    && instr.Some? && instr.value.Load?
    && LoadValue(instr.value.size, instr.value.signExtend, v, row.memAddr % 4) == row.rdData
  }

  /** Other data from a device leaves the row a step exactly when the load has no destination
      or the new data extends to the same value; it then leaves the same hart. */
  lemma DeviceDataSeen(cfg: Config, h: Hart, order: int, row: Row, v: word)
    requires StepsTo(cfg, h, order, row) && IsLoad(row) && Mmio(cfg, row.memAddr)
    ensures StepsTo(cfg, h, order, row.(memRdata := v)) <==> row.rdAddr == 0 || LoadsSame(row, v)
    ensures StepsTo(cfg, h, order, row.(memRdata := v)) ==>
      Differs(After(cfg, h, order, row), After(cfg, h, order, row.(memRdata := v)), 0, 0)
  {
    hide Opcode, Funct3, Field, Rd, Rs1, Rs2, Mmio, Mstatus, MieReg, Mtvec, Misa, TrapCause, LaneMask,
      Fetches, InterruptTarget, LoadValue, SamplesCounter, Execute, LoadSource, Decode;
    LoadsDecode(row.insn);
    var i, j := InputsOf(cfg, row), InputsOf(cfg, row.(memRdata := v));
    DeviceLoad(cfg, h, i, Decode(row.insn).value);
    DeviceLoad(cfg, h, j, Decode(row.insn).value);
  }

  lemma LoadsDecode(w: word)
    requires Opcode(w) == 0x03
    ensures Decode(w).Some? ==> Decode(w).value.Load?
  {
    hide Opcode, Funct3, Field, Rd, Rs1, ImmI, DecodeSize;
  }

  lemma DeviceLoad(cfg: Config, h: Hart, i: Inputs, instr: Instr)
    requires instr.Load? && Mmio(cfg, i.memAddr)
    ensures Execute(cfg, h, i, instr) ==
      Some(Effect(instr.rd, LoadValue(instr.size, instr.signExtend, i.mmioData, i.memAddr % 4), U32(h.pc + 4),
                  h.mem, h.csr))
  {
    hide Mmio, LoadValue;
  }

  lemma SameColumns(cfg: Config, m: Mutation, row: Row)
    requires (m.WrongRdValue? && row.intr) || m.WrongMemoryMask? || (m.WrongMemoryData? && !IsLoad(row))
    requires Selects(m, row) && !Checked(cfg, m, row)
    ensures InputsOf(cfg, Mutate(m, row)) == InputsOf(cfg, row)
    ensures OutputsOf(cfg, Mutate(m, row)) == OutputsOf(cfg, row)
  {
    hide Mmio, BitXor, Opcode, Funct3, Field, Rd, IsCounter;
  }

  lemma {:induction false} SameColumnsSameHart(cfg: Config, t: seq<Row>, u: seq<Row>, k: nat)
    requires SameInputs(cfg, t, u) && k < |t|
    requires forall j :: 0 <= j < |t| ==> OutputsOf(cfg, t[j]) == OutputsOf(cfg, u[j])
    ensures HartAt(cfg, t, k) == HartAt(cfg, u, k) && Position(t, k) == Position(u, k)
    decreases k
  {
    hide Predict, InputsOf, OutputsOf, ResetHart, Boundary;
    if !StartsAt(t, k) {
      SameColumnsSameHart(cfg, t, u, k - 1);
    }
  }

  /** The unchecked mutations that leave the columns of the row as they were leave the whole
      trace accepted. */
  lemma UnseenTraceAccepted(cfg: Config, t: seq<Row>, i: nat, m: Mutation)
    requires Accepts(cfg, t) && AllNameTheirRegisters(t) && i < |t|
    requires (m.WrongRdValue? && t[i].intr) || m.WrongMemoryMask? || (m.WrongMemoryData? && !IsLoad(t[i]))
    requires Selects(m, t[i]) && !Checked(cfg, m, t[i])
    ensures Accepts(cfg, Mutant(m, t, i))
  {
    hide Accepts, IsaAccepts, Check, Run, LastEpoch, Simulates, InputsOf, OutputsOf, Mutate, Predict, HartAt, IsLoad,
      IsStore, SamplesCounter, Mmio, Selects, Checked;
    var u := Mutant(m, t, i);
    SameColumns(cfg, m, t[i]);
    SlotKept(m, t[i]);
    CheckerRefinesIsa(cfg, t);
    CheckerRefinesIsa(cfg, u);
    AcceptedIff(cfg, t);
    AcceptedIff(cfg, u);
    forall k | 0 <= k < |t| ensures StartsAt(t, k) == StartsAt(u, k) {}
    forall k | 0 <= k < |u| ensures StepsAt(cfg, u, k) {
      assert StepsAt(cfg, t, k);
      SameColumnsSameHart(cfg, t, u, k);
    }
    forall k | 0 <= k < |u| ensures NamesItsRegisters(u[k]) {
      assert NamesItsRegisters(t[k]);
    }
  }

  // ----- the verdict -----

  /** A replaced row that keeps its register columns: the checker's verdict is the hart's. */
  lemma VerdictIsHarts(cfg: Config, t: seq<Row>, i: nat, r: Row)
    requires Accepts(cfg, t) && AllNameTheirRegisters(t) && i < |t| && NamesItsRegisters(r)
    ensures IsaAccepts(cfg, t) && StepsAt(cfg, t, i)
    ensures Accepts(cfg, t[i := r]) <==> IsaAccepts(cfg, t[i := r])
  {
    hide Accepts, IsaAccepts, Check, Run, LastEpoch, Simulates, StepsAt, NamesItsRegisters;
    CheckerRefinesIsa(cfg, t);
    CheckerRefinesIsa(cfg, t[i := r]);
    NamesReplaced(t, i, r);
    AcceptedIff(cfg, t);
  }

  /** Other data from a device, on the trace: unreported exactly when the load has no
      destination or the new data extends to the same value. */
  lemma DeviceDataVerdict(cfg: Config, t: seq<Row>, i: nat, v: word)
    requires Accepts(cfg, t) && AllNameTheirRegisters(t) && i < |t|
    requires IsLoad(t[i]) && Mmio(cfg, t[i].memAddr)
    ensures Accepts(cfg, t[i := t[i].(memRdata := v)]) <==> t[i].rdAddr == 0 || LoadsSame(t[i], v)
  {
    hide Accepts, IsaAccepts, StepsTo, After, IsLoad, Mmio, LoadsSame, Differs, HartAt;
    var r := t[i].(memRdata := v);
    SameNames(r, t[i]);
    VerdictIsHarts(cfg, t, i, r);
    DeviceDataSeen(cfg, HartAt(cfg, t, i).value, Position(t, i), t[i], v);
    if StepsTo(cfg, HartAt(cfg, t, i).value, Position(t, i), r) {
      ReplacedRowAccepted(cfg, t, i, r, 0, 0);
    } else {
      NoStepRejected(cfg, t, i, r);
    }
  }

  /** Another sample of a counter, on the trace: unreported exactly when no later row of the
      epoch reads the register before it is written again. */
  lemma SampleVerdict(cfg: Config, t: seq<Row>, i: nat, v: word)
    requires Accepts(cfg, t) && AllNameTheirRegisters(t) && i < |t|
    requires SamplesCounter(t[i]) && t[i].rdAddr != 0 && v != t[i].rdData
    ensures Accepts(cfg, t[i := t[i].(rdData := v)]) <==> !ReadLater(t, i, t[i].rdAddr)
  {
    hide Accepts, IsaAccepts, StepsTo, After, SamplesCounter, Differs, HartAt, ReadLater;
    var r := t[i].(rdData := v);
    SameNames(r, t[i]);
    VerdictIsHarts(cfg, t, i, r);
    SampleUnseen(cfg, HartAt(cfg, t, i).value, Position(t, i), t[i], v);
    ReplacedRowAccepted(cfg, t, i, r, t[i].rdAddr, v);
  }

  /** Flipping bit 12 changes neither the opcode nor a register field. */
  lemma FlipKeepsFields(w: word)
    ensures var z := BitXor(w, 0x1000); Opcode(z) == Opcode(w) && Rs1(z) == Rs1(w) && Rs2(z) == Rs2(w)
  {
    hide Bw, Shr, Low, P2;
    var z := BitXor(w, 0x1000);
    P2Values();
    P2Add(12, 3);
    ShrIsDiv(0x1000, 7);
    ShrIsDiv(0x1000, 15);
    ShrIsDiv(0x1000, 20);
    BwSplit(Xor, w, 0x1000, 7);
    BwSplit(Xor, w, 0x1000, 15);
    BwSplit(Xor, w, 0x1000, 20);
    BwZero(Xor, Low(w, 7));
    BwZero(Xor, Shr(w, 15));
    BwZero(Xor, Shr(w, 20));
  }

  /** A changed instruction, on the trace, with or without a manifest. */
  lemma InstructionVerdict(cfg: Config, t: seq<Row>, i: nat)
    requires Accepts(cfg, t) && AllNameTheirRegisters(t) && i < |t| && !t[i].intr
    ensures StepsAt(cfg, t, i)
    ensures Accepts(cfg, Mutant(Mutation.WrongInstruction, t, i)) <==>
      InstructionUnseen(cfg, t, i, BitXor(t[i].insn, 0x1000))
  {
    hide Accepts, IsaAccepts, StepsTo, BitXor, Opcode, Rs1, Rs2, InstructionUnseen, HartAt;
    var w := BitXor(t[i].insn, 0x1000);
    FlipKeepsFields(t[i].insn);
    assert NamesItsRegisters(t[i]);
    VerdictIsHarts(cfg, t, i, t[i].(insn := w));
    ChangedInstructionAccepted(cfg, t, i, w);
  }

  /** The mutations that the checker cannot see: an interrupt row's destination, a counter
      sample that nothing reads, a mask of the wrong kind of access, data of no load, device
      data that makes no difference, and an instruction that stands in for the original. */
  ghost predicate Unseen(cfg: Config, m: Mutation, t: seq<Row>, i: nat)
    requires i < |t| && StepsAt(cfg, t, i)
  {
    var row := t[i];
    match m
    case WrongRdValue => row.intr || (SamplesCounter(row) && !ReadLater(t, i, row.rdAddr))
    case WrongMemoryMask => if row.rmask != 0 then !IsLoad(row) else !IsStore(row)
    case WrongInstruction => InstructionUnseen(cfg, t, i, BitXor(row.insn, 0x1000))
    case WrongMemoryData =>
      !IsLoad(row) || (Mmio(cfg, row.memAddr) && (row.rdAddr == 0 || LoadsSame(row, BitXor(row.memRdata, 1))))
    case _ => false
  }

  /** For every accepted trace, row and mutation: the mutant is accepted exactly when the
      mutation cannot be seen. */
  lemma MutationVerdict(cfg: Config, t: seq<Row>, i: nat, m: Mutation)
    requires Accepts(cfg, t) && AllNameTheirRegisters(t) && i < |t| && Selects(m, t[i])
    ensures StepsAt(cfg, t, i)
    ensures Accepts(cfg, Mutant(m, t, i)) <==> Unseen(cfg, m, t, i)
  {
    hide Accepts, IsaAccepts, StepsAt, SamplesCounter, IsLoad, IsStore, Mmio, BitXor, InstructionUnseen, LoadsSame,
      ReadLater, NamesItsRegisters;
    var row := t[i];
    VerdictIsHarts(cfg, t, i, row);
    XorsChange(row.rdData);
    if m.WrongInstruction? {
      InstructionVerdict(cfg, t, i);
    } else if Checked(cfg, m, row) {
      MutationReported(cfg, t, i, m);
    } else if m.WrongRdValue? && !row.intr {
      SampleVerdict(cfg, t, i, BitXor(row.rdData, 1));
    } else if m.WrongMemoryData? && IsLoad(row) {
      DeviceDataVerdict(cfg, t, i, BitXor(row.memRdata, 1));
    } else {
      UnseenTraceAccepted(cfg, t, i, m);
    }
  }
}
