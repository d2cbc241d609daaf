/** The class RV32ISS: registers, memory, CSRs and mismatches updated row by row. */
module RetirementChecker {
  import opened Bits
  import opened Isa
  import opened Machine
  import opened Checker
  import opened Refinement
  import opened Wrappers

  const MAX_MISMATCHES: nat := 20

  /** Only the first mismatches are kept. */
  function Capped(ms: seq<(int, Reason)>): seq<(int, Reason)> {
    if |ms| <= MAX_MISMATCHES then ms else ms[..MAX_MISMATCHES]
  }

  lemma CappedAppend(start: seq<(int, Reason)>, order: int, acc: seq<Reason>, more: seq<Reason>)
    ensures Capped(Capped(start + Tag(order, acc)) + Tag(order, more)) == Capped(start + Tag(order, acc + more))
  {
    assert Tag(order, acc + more) == Tag(order, acc) + Tag(order, more);
    assert start + (Tag(order, acc) + Tag(order, more)) == start + Tag(order, acc) + Tag(order, more);
  }

  class RV32ISS {
    const cfg: Config
    var regs: seq<word>
    var memory: map<int, word>
    var csrs: map<int, word>
    var previousOrder: Option<int>
    var previousEpoch: Option<int>
    var expectedOrder: int
    var expectedPc: word
    var instructions: nat
    var traps: nat
    var interrupts: nat
    var mismatches: seq<(int, Reason)>

    function Abs(): State
      reads this
    {
      State(regs, memory, csrs, previousOrder, previousEpoch, expectedOrder, expectedPc,
            instructions, traps, interrupts)
    }

    ghost predicate Valid()
      reads this
    {
      StateOk(Abs())
    }

    /** The mismatches are those at the start of the row followed by these faults of the row. */
    ghost predicate Recorded(start: seq<(int, Reason)>, order: int, faults: seq<Reason>)
      reads this`mismatches
    {
      mismatches == Capped(start + Tag(order, faults))
    }

    constructor (cfg: Config)
      ensures this.cfg == cfg && Valid() && Abs() == InitialState(cfg) && mismatches == []
    {
      this.cfg := cfg;
      regs, memory, csrs := seq(32, _ => 0), cfg.image, InitialCsrs(cfg);
      previousOrder, previousEpoch, expectedOrder, expectedPc := None, None, 0, 0;
      instructions, traps, interrupts, mismatches := 0, 0, 0, [];
    }

    method Mismatch(order: int, r: Reason)
      modifies this`mismatches
      ensures |old(mismatches)| < 20 ==> mismatches == old(mismatches) + [(order, r)]
      ensures |old(mismatches)| >= 20 ==> mismatches == old(mismatches)
    {
      if |mismatches| < MAX_MISMATCHES {
        mismatches := mismatches + [(order, r)];
      }
    }

    /** `if c: self.mismatch(...)`, keeping track of the faults reported since `start`. */
    method MismatchIf(c: bool, order: int, r: Reason, ghost start: seq<(int, Reason)>, ghost acc: seq<Reason>)
        returns (ghost acc': seq<Reason>)
      requires Recorded(start, order, acc)
      modifies this`mismatches
      ensures acc' == acc + When(c, r) && Recorded(start, order, acc')
    {
      acc' := acc + When(c, r);
      CappedAppend(start, order, acc, When(c, r));
      if c {
        assert Tag(order, [r]) == [(order, r)];
        Mismatch(order, r);
      } else {
        assert acc' == acc;
      }
    }

    /** The first check of a group. */
    method FirstMismatchIf(c: bool, order: int, r: Reason, ghost start: seq<(int, Reason)>)
        returns (ghost acc: seq<Reason>)
      requires Recorded(start, order, [])
      modifies this`mismatches
      ensures acc == When(c, r) && Recorded(start, order, acc)
    {
      acc := MismatchIf(c, order, r, start, []);
      assert [] + When(c, r) == When(c, r);
    }

    /** Begin counting a new group of checks. */
    ghost method NextGroup(start: seq<(int, Reason)>, order: int, acc: seq<Reason>) returns (start': seq<(int, Reason)>)
      requires Recorded(start, order, acc)
      ensures start' == start + Tag(order, acc) && Recorded(start', order, [])
    {
      start' := start + Tag(order, acc);
      assert start' + Tag(order, []) == start';
    }

    lemma GroupsJoin(start: seq<(int, Reason)>, order: int, acc: seq<Reason>, more: seq<Reason>)
      requires Recorded(start + Tag(order, acc), order, more)
      ensures Recorded(start, order, acc + more)
    {
      CappedAppend(start, order, acc, more);
      CappedTwice(start + Tag(order, acc), Tag(order, more));
    }

    method ResetEpochNow()
      modifies this
      ensures Abs() == ResetEpoch(cfg, old(Abs())) && mismatches == old(mismatches)
    {
      regs := seq(32, _ => 0);
      memory := cfg.image;
      csrs := InitialCsrs(cfg);
      expectedOrder := 0;
      expectedPc := 0;
    }

    /** Reset at a new epoch, then check and adopt the retirement order. */
    method ArriveAt(row: Row) returns (ghost acc: seq<Reason>)
      requires Valid() && Recorded(mismatches, row.order, [])
      modifies this
      ensures Valid() && Abs() == Arrive(cfg, old(Abs()), row)
      ensures acc == OrderFaults(old(Abs()), row) && Recorded(old(mismatches), row.order, acc)
    {
      hide InitialCsrs;
      ghost var start := mismatches;
      if previousEpoch.Some? && row.epoch != previousEpoch.value {
        ResetEpochNow();
      } else if previousOrder.Some? && row.order < previousOrder.value {
        ResetEpochNow();
      }
      acc := FirstMismatchIf(row.order != expectedOrder, row.order, OrderGap, start);
      if row.order != expectedOrder {
        expectedOrder := row.order;
      }
      previousOrder, previousEpoch := Some(row.order), Some(row.epoch);
    }

    method CheckCsrSnapshot(row: Row, trapOverride: bool, ghost start: seq<(int, Reason)>)
      requires Valid() && Recorded(start, row.order, [])
      modifies this`mismatches
      ensures Recorded(start, row.order, SnapshotFaults(csrs, row, trapOverride))
    {
      hide When;
      ghost var acc := FirstMismatchIf(row.mstatus != csrs[0x300], row.order, Snapshot(0x300), start);
      acc := MismatchIf(row.mie != csrs[0x304], row.order, Snapshot(0x304), start, acc);
      acc := MismatchIf(row.mtvec != csrs[0x305], row.order, Snapshot(0x305), start, acc);
      acc := MismatchIf(row.mscratch != csrs[0x340], row.order, Snapshot(0x340), start, acc);
      acc := MismatchIf(!trapOverride && row.mepc != csrs[0x341], row.order, Snapshot(0x341), start, acc);
      acc := MismatchIf(!trapOverride && row.mcause != csrs[0x342], row.order, Snapshot(0x342), start, acc);
      acc := MismatchIf(!trapOverride && row.mtval != csrs[0x343], row.order, Snapshot(0x343), start, acc);
      assert acc == SnapshotFaults(csrs, row, trapOverride);
    }

    method CheckManifest(row: Row, ghost start: seq<(int, Reason)>)
      requires Recorded(start, row.order, [])
      modifies this`mismatches
      ensures Recorded(start, row.order, ManifestFaults(cfg, row))
    {
      hide When, Recorded;
      if cfg.manifest != map[] && !row.intr {
        if row.pc !in cfg.manifest {
          ghost var acc := FirstMismatchIf(true, row.order, OutsideManifest, start);
        } else {
          ghost var acc := FirstMismatchIf(row.insn != cfg.manifest[row.pc], row.order, WrongInstruction, start);
        }
      }
    }

    method CheckCommon(row: Row, ghost start: seq<(int, Reason)>)
      requires Valid() && Recorded(start, row.order, [])
      modifies this`mismatches
      ensures Recorded(start, row.order, CommonFaults(cfg, Abs(), row))
    {
      hide SnapshotFaults, ManifestFaults, CsrsOk, When, Recorded;
      ghost var acc := FirstMismatchIf(row.pc != expectedPc, row.order, CurrentPc, start);
      ghost var start' := NextGroup(start, row.order, acc);
      CheckManifest(row, start');
      GroupsJoin(start, row.order, acc, ManifestFaults(cfg, row));
      acc := acc + ManifestFaults(cfg, row);
      start' := NextGroup(start, row.order, acc);
      CheckCsrSnapshot(row, row.trap || row.intr, start');
      GroupsJoin(start, row.order, acc, SnapshotFaults(csrs, row, row.trap || row.intr));
      acc := acc + SnapshotFaults(csrs, row, row.trap || row.intr);
      acc := MismatchIf(row.rs1Data != regs[row.rs1Addr], row.order, Rs1Value, start, acc);
      acc := MismatchIf(row.rs2Data != regs[row.rs2Addr], row.order, Rs2Value, start, acc);
      assert acc == CommonFaults(cfg, Abs(), row);
    }

    method ReportInterrupt(row: Row, ghost start: seq<(int, Reason)>)
      requires Recorded(start, row.order, [])
      modifies this`mismatches
      ensures Recorded(start, row.order, InterruptFaults(row))
    {
      hide When, Recorded;
      var cause: word := if row.irqLevel then 0x8000_000B else 0x8000_0007;
      var target := row.mtvec - row.mtvec % 4 + (if row.mtvec % 4 == 1 then (cause % 0x8000_0000) * 4 else 0);
      ghost var acc := FirstMismatchIf(row.nextPc != target, row.order, InterruptVector, start);
      acc := MismatchIf(!(row.irqLevel || row.irqTimerLevel), row.order, NoInterruptSource, start, acc);
      acc := MismatchIf(row.mcause != cause, row.order, InterruptCause, start, acc);
      acc := MismatchIf(row.mepc != row.pc, row.order, InterruptEpc, start, acc);
      acc := MismatchIf(row.mtval != 0, row.order, InterruptTval, start, acc);
      assert acc == InterruptFaults(row);
    }

    method CheckInterrupt(row: Row, ghost start: seq<(int, Reason)>)
      requires Valid() && Recorded(start, row.order, [])
      modifies this
      ensures Abs() == old(Abs()).(csrs := InterruptCsrs(old(csrs), row), expectedOrder := row.order + 1,
                                   expectedPc := row.nextPc, instructions := old(instructions) + 1,
                                   interrupts := old(interrupts) + 1)
      ensures Recorded(start, row.order, InterruptFaults(row))
    {
      hide InterruptCsrs, InterruptFaults, CsrsOk, Recorded;
      ReportInterrupt(row, start);
      interrupts := interrupts + 1;
      csrs := InterruptCsrs(csrs, row);
      expectedOrder, expectedPc := row.order + 1, row.nextPc;
      instructions := instructions + 1;
    }

    method ReportTrap(row: Row, cause: word, tval: word, ghost start: seq<(int, Reason)>)
      requires Valid() && Recorded(start, row.order, [])
      requires cause == ExpectedCause(Abs(), row) && tval == ExpectedTval(Abs(), row)
      modifies this`mismatches
      ensures Recorded(start, row.order, TrapFaults(Abs(), row))
    {
      hide ExpectedCause, ExpectedTval, CsrsOk, When, Recorded;
      ghost var acc := FirstMismatchIf(row.nextPc != row.mtvec - row.mtvec % 4, row.order, TrapVector, start);
      acc := MismatchIf(row.rdAddr != 0, row.order, TrapWroteRegister, start, acc);
      acc := MismatchIf(row.mcause != cause, row.order, WrongCause, start, acc);
      acc := MismatchIf(row.mepc != row.pc, row.order, TrapEpc, start, acc);
      acc := MismatchIf(row.mtval != tval, row.order, TrapTval, start, acc);
      acc := MismatchIf(row.rdAddr != 0 || row.rdData != 0, row.order, TrapDestination, start, acc);
      assert acc == TrapFaults(Abs(), row);
    }

    method CheckTrap(row: Row, ghost start: seq<(int, Reason)>)
      requires Valid() && Recorded(start, row.order, [])
      modifies this
      ensures var s := old(Abs());
              Abs() == s.(csrs := TrapEntryCsrs(s.csrs, row.pc, ExpectedCause(s, row), ExpectedTval(s, row)),
                          expectedOrder := row.order + 1, expectedPc := row.nextPc,
                          instructions := s.instructions + 1, traps := s.traps + 1)
      ensures Recorded(start, row.order, TrapFaults(old(Abs()), row))
    {
      hide TrapEntryCsrs, ExpectedCause, ExpectedTval, TrapFaults, CsrsOk, Recorded;
      var cause, tval := ExpectedCause(Abs(), row), ExpectedTval(Abs(), row);
      ReportTrap(row, cause, tval, start);
      traps := traps + 1;
      csrs := TrapEntryCsrs(csrs, row.pc, cause, tval);
      expectedOrder, expectedPc := row.order + 1, row.nextPc;
      instructions := instructions + 1;
    }

    /** The store loop over the four byte lanes. */
    static method MergeLanes(w: word, wdata: word, wmask: nat, off: nat) returns (merged: Option<word>)
      requires off < 4
      ensures merged == MergedLanes(w, wdata, wmask, off, 4)
    {
      var result := w;
      for lane := 0 to 4
        invariant MergedLanes(w, wdata, wmask, off, lane) == Some(result)
      {
        if Bw(And, wmask, Shl(1, lane)) != 0 {
          if lane < off {
            StaysRaised(w, wdata, wmask, off, lane + 1);
            return None;
          }
          ByteShift(wdata, lane - off);
          var b: byte := Low(Shr(wdata, 8 * (lane - off)), 8);
          PutLaneBytes(result, lane, b);
          result := PutLane(result, lane, b);
        }
      }
      merged := Some(result);
    }

    /** The branch of an executed row's opcode: what the row should show; memory and CSRs are
        updated on the way. */
    method ExpectRow(row: Row, ghost start: seq<(int, Reason)>) returns (e: Expected)
      requires Valid() && Recorded(start, row.order, [])
      modifies this`mismatches, this`memory, this`csrs
      ensures e == ExpectedOf(cfg, old(Abs()), row) && memory == e.memory && csrs == e.csrs
      ensures Recorded(start, row.order, e.faults)
    {
      hide ExpectedLoad, ExpectedStore, ExpectedSystem, ExpectedCompute, CsrsOk, Recorded, Opcode;
      var opcode := Opcode(row.insn);
      if opcode == 0x03 {
        e := CheckLoad(row, start);
      } else if opcode == 0x23 {
        e := CheckStore(row, start);
      } else if opcode == 0x73 {
        e := ExpectedSystem(Abs(), row);
        csrs := e.csrs;
      } else {
        e := ExpectedCompute(Abs(), row);
      }
    }

    /** Judge an executed row, update memory and CSRs, then the destination register. */
    method CheckExecuted(row: Row, ghost start: seq<(int, Reason)>) returns (raised: bool)
      requires Valid() && Recorded(start, row.order, [])
      modifies this
      ensures var s, e := old(Abs()), ExpectedOf(cfg, old(Abs()), row);
              && raised == e.raised
              && (raised ==> Abs() == s && Recorded(start, row.order, e.faults))
              && (!raised ==>
                   && Abs() == s.(regs := SetReg(s.regs, row.rdAddr, row.rdData), memory := e.memory, csrs := e.csrs,
                                  expectedOrder := row.order + 1, expectedPc := e.nextPc,
                                  instructions := s.instructions + 1)
                   && Recorded(start, row.order, e.faults + RetireFaults(e, row)))
    {
      hide ExpectedOf, RetireFaults, SetReg, CsrsOk, Recorded;
      ghost var s := Abs();
      var e := ExpectRow(row, start);
      if e.raised {
        RaisedLeavesState(cfg, s, row);
        return true;
      }
      ghost var start' := NextGroup(start, row.order, e.faults);
      CheckRetired(row, e, start');
      GroupsJoin(start, row.order, e.faults, RetireFaults(e, row));
      regs := SetReg(regs, row.rdAddr, row.rdData);
      expectedOrder, expectedPc := row.order + 1, e.nextPc;
      instructions := instructions + 1;
      raised := false;
    }

    method CheckRetired(row: Row, e: Expected, ghost start: seq<(int, Reason)>)
      requires Recorded(start, row.order, [])
      modifies this`mismatches
      ensures Recorded(start, row.order, RetireFaults(e, row))
    {
      ghost var acc := FirstMismatchIf(!e.legal, row.order, UnexpectedInstruction, start);
      acc := MismatchIf(e.nextPc != row.nextPc, row.order, NextPc, start, acc);
      acc := MismatchIf(row.rdAddr != e.rd, row.order, RdIndex, start, acc);
      var value := if e.rd == 0 then 0 else e.value;
      acc := MismatchIf(row.rdAddr != 0 && row.rdData != value, row.order, RdValue, start, acc);
      assert acc == RetireFaults(e, row);
    }

    method CheckLoad(row: Row, ghost start: seq<(int, Reason)>) returns (e: Expected)
      requires Recorded(start, row.order, [])
      modifies this`mismatches
      ensures e == ExpectedLoad(cfg, Abs(), row) && Recorded(start, row.order, e.faults)
    {
      hide LoadedValue, Low, Shl, Mmio, MemoryWordAddress;
      var funct3, off := Funct3(row.insn), row.memAddr % 4;
      var width := if funct3 == 0 || funct3 == 4 then 0x1 else if funct3 == 1 || funct3 == 5 then 0x3
                   else if funct3 == 2 then 0xF else 0;
      ghost var acc := FirstMismatchIf(row.rmask != Low(Shl(width, off), 4), row.order, LoadMaskWrong, start);
      var mmio := Mmio(cfg, row.memAddr);
      var modelWord := if mmio then row.memRdata else Get(memory, MemoryWordAddress(cfg, row.memAddr));
      acc := MismatchIf(!mmio && row.memRdata != modelWord, row.order, LoadSourceWrong, start, acc);
      e := ExpectedLoad(cfg, Abs(), row);
      assert acc == e.faults;
    }

    method CheckStore(row: Row, ghost start: seq<(int, Reason)>) returns (e: Expected)
      requires Recorded(start, row.order, [])
      modifies this`mismatches, this`memory
      ensures e == ExpectedStore(cfg, old(Abs()), row) && memory == e.memory && Recorded(start, row.order, e.faults)
    {
      hide MergedLanes, Low, Shl, Mmio, MemoryWordAddress;
      var funct3, off := Funct3(row.insn), row.memAddr % 4;
      var width := if funct3 == 0 then 0x1 else if funct3 == 1 then 0x3 else if funct3 == 2 then 0xF else 0;
      ghost var acc := FirstMismatchIf(row.wmask != Low(Shl(width, off), 4), row.order, StoreMaskWrong, start);
      var base := MemoryWordAddress(cfg, row.memAddr);
      var merged := MergeLanes(Get(memory, base), row.memWdata, row.wmask, off);
      e := ExpectedStore(cfg, Abs(), row);
      if merged.Some? && !Mmio(cfg, row.memAddr) {
        memory := memory[base := merged.value];
      }
    }

    /** check_row: the whole new state and the mismatches of one row. */
    method CheckOneRow(row: Row) returns (raised: bool)
      requires Valid() && |mismatches| <= MAX_MISMATCHES
      modifies this
      ensures var o := CheckRow(cfg, old(Abs()), row);
              && Abs() == o.state && raised == o.raised
              && mismatches == Capped(old(mismatches) + Tag(row.order, o.faults))
      ensures Valid()
    {
      hide CommonFaults, InterruptFaults, TrapFaults, RetireFaults, ExpectedOf, InterruptCsrs, TrapEntryCsrs,
        ExpectedCause, ExpectedTval, Arrive, OrderFaults, CsrsOk, SetReg;
      ghost var start, s := mismatches, Abs();
      assert start + Tag(row.order, []) == start;
      ghost var acc := ArriveAt(row);
      ghost var start1 := NextGroup(start, row.order, acc);
      CheckCommon(row, start1);
      GroupsJoin(start, row.order, acc, CommonFaults(cfg, Abs(), row));
      acc := acc + CommonFaults(cfg, Abs(), row);
      ghost var start2 := NextGroup(start, row.order, acc);
      raised := false;
      ghost var s1 := Abs();
      if row.intr {
        CheckInterrupt(row, start2);
        GroupsJoin(start, row.order, acc, InterruptFaults(row));
      } else if row.trap {
        CheckTrap(row, start2);
        GroupsJoin(start, row.order, acc, TrapFaults(s1, row));
      } else {
        raised := CheckExecuted(row, start2);
        ghost var e := ExpectedOf(cfg, s1, row);
        GroupsJoin(start, row.order, acc, if raised then e.faults else e.faults + RetireFaults(e, row));
        assert acc + (e.faults + RetireFaults(e, row)) == acc + e.faults + RetireFaults(e, row);
      }
    }

    /** check: replay a trace from a fresh checker. It reports nothing exactly on the traces
        that are runs of the hart, when register columns name the instruction's registers. */
    method CheckTrace(trace: seq<Row>) returns (raised: bool)
      requires Abs() == InitialState(cfg) && mismatches == []
      modifies this
      ensures var v := Checker.Check(cfg, trace);
              Abs() == v.state && raised == v.raised && mismatches == Capped(v.faults)
      ensures AllNameTheirRegisters(trace) ==> (!raised && mismatches == [] <==> IsaAccepts(cfg, trace))
    {
      hide CheckRow, InitialState, IsaAccepts, AllNameTheirRegisters, Checker.Check, Capped, StateOk;
      InitialOk(cfg);
      if AllNameTheirRegisters(trace) {
        ReportsNothing(cfg, trace);
      }
      NothingChecked(cfg);
      raised := false;
      for n := 0 to |trace|
        invariant Valid() && !raised && |mismatches| <= MAX_MISMATCHES
        invariant var v := Checker.Check(cfg, trace[..n]);
                  Abs() == v.state && !v.raised && mismatches == Capped(v.faults)
      {
        CheckSnoc(cfg, trace, n);
        ghost var v := Checker.Check(cfg, trace[..n]);
        ghost var o := CheckRow(cfg, v.state, trace[n]);
        CappedTwice(v.faults, Tag(trace[n].order, o.faults));
        CappedFits(v.faults + Tag(trace[n].order, o.faults));
        raised := CheckOneRow(trace[n]);
        if raised {
          RaisedStops(cfg, trace, n + 1);
          return;
        }
      }
      assert trace[..|trace|] == trace;
    }
  }

  lemma RaisedLeavesState(cfg: Config, s: State, row: Row)
    requires StateOk(s) && ExpectedOf(cfg, s, row).raised
    ensures ExpectedOf(cfg, s, row).memory == s.memory && ExpectedOf(cfg, s, row).csrs == s.csrs
  {
    hide ExpectedLoad, ExpectedStore, ExpectedSystem, ExpectedCompute, CsrsOk, Opcode;
  }

  lemma NothingChecked(cfg: Config)
    ensures Checker.Check(cfg, []) == Verdict(InitialState(cfg), [], false)
    ensures Capped([]) == []
  {
  }

  lemma CheckSnoc(cfg: Config, trace: seq<Row>, n: nat)
    requires n < |trace| && !Checker.Check(cfg, trace[..n]).raised
    ensures var v := Checker.Check(cfg, trace[..n]);
            var o := CheckRow(cfg, v.state, trace[n]);
            Checker.Check(cfg, trace[..n + 1]) == Verdict(o.state, v.faults + Tag(trace[n].order, o.faults), o.raised)
  {
    hide CheckRow;
    assert trace[..n + 1][..n] == trace[..n];
  }

  /** Nothing is reported exactly on the runs of the hart. */
  lemma ReportsNothing(cfg: Config, trace: seq<Row>)
    requires AllNameTheirRegisters(trace)
    ensures var v := Checker.Check(cfg, trace);
            !v.raised && Capped(v.faults) == [] <==> IsaAccepts(cfg, trace)
  {
    hide Checker.Check, IsaAccepts, Run, Simulates, LastEpoch, AllNameTheirRegisters;
    CheckerRefinesIsa(cfg, trace);
  }

  lemma InitialOk(cfg: Config)
    ensures StateOk(InitialState(cfg))
  {
  }

  lemma CappedFits(a: seq<(int, Reason)>)
    ensures |Capped(a)| <= MAX_MISMATCHES
  {
  }

  lemma CappedTwice(a: seq<(int, Reason)>, b: seq<(int, Reason)>)
    ensures Capped(Capped(a) + b) == Capped(a + b)
  {
  }

  lemma {:induction false} StaysRaised(w: word, wdata: word, wmask: nat, off: nat, n: nat)
    requires n <= 4 && MergedLanes(w, wdata, wmask, off, n).None?
    ensures MergedLanes(w, wdata, wmask, off, 4).None?
    decreases 4 - n
  {
    if n < 4 {
      StaysRaised(w, wdata, wmask, off, n + 1);
    }
  }

  lemma {:induction false} RaisedStops(cfg: Config, trace: seq<Row>, n: nat)
    requires n <= |trace| && Checker.Check(cfg, trace[..n]).raised
    ensures Checker.Check(cfg, trace) == Checker.Check(cfg, trace[..n])
    decreases |trace| - n
  {
    if n < |trace| {
      assert trace[..n + 1][..n] == trace[..n];
      RaisedStops(cfg, trace, n + 1);
    } else {
      assert trace[..n] == trace;
    }
  }
}
