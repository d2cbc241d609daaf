/** What the checker reports of a row and keeps of it, reported or not: each mismatch exactly
    when its columns disagree, and a state that follows the trace. */
module RowReports {
  import opened Bits
  import opened Isa
  import opened Machine
  import opened Checker
  import opened Refinement
  import opened Wrappers

  // ----- device and memory addresses -----

  /** Some pair of bounds, both inclusive, holds the address. */
  ghost predicate Within(ranges: seq<(int, int)>, a: int) {
    exists lo: int, hi: int :: (lo, hi) in ranges && lo <= a <= hi
  }

  lemma WithinIff(ranges: seq<(int, int)>, a: int)
    ensures InRanges(ranges, a) <==> Within(ranges, a)
  {
    if InRanges(ranges, a) {
      var k :| 0 <= k < |ranges| && ranges[k].0 <= a <= ranges[k].1;
      assert (ranges[k].0, ranges[k].1) in ranges;
    }
    if Within(ranges, a) {
      var lo: int, hi: int :| (lo, hi) in ranges && lo <= a <= hi;
      var k :| 0 <= k < |ranges| && ranges[k] == (lo, hi);
    }
  }

  /** The device page and the external ranges. */
  ghost predicate IsDevice(cfg: Config, a: int) {
    0x100 <= a <= 0x1FF || Within(cfg.externalRanges, a)
  }

  lemma DeviceAddresses(cfg: Config, a: int)
    ensures Mmio(cfg, a) <==> IsDevice(cfg, a)
  {
    hide InRanges, Within;
    WithinIff(cfg.externalRanges, a);
  }

  /** The key of the memory word of an address: RAM repeats from 0x8000 up, ranges do not. */
  lemma WordKey(cfg: Config, a: word)
    ensures MemoryWordAddress(cfg, a) ==
      if Within(cfg.externalRanges, a) || Within(cfg.directRanges, a) || a < 0x8000 then a / 4 * 4
      else (a - 0x8000) / 4 * 4
  {
    hide InRanges, Within;
    WithinIff(cfg.externalRanges, a);
    WithinIff(cfg.directRanges, a);
  }

  /** A load's data is reported exactly when it comes from memory and differs from the word
      there; data from a device is taken as it is. */
  lemma LoadReported(cfg: Config, s: State, row: Row)
    ensures LoadSourceWrong in ExpectedLoad(cfg, s, row).faults <==>
      !IsDevice(cfg, row.memAddr) && row.memRdata != Get(s.memory, MemoryWordAddress(cfg, row.memAddr))
    ensures Funct3(row.insn) !in {0, 1, 2, 4, 5} ==>
      !ExpectedLoad(cfg, s, row).legal && ExpectedLoad(cfg, s, row).value == 0
    ensures Funct3(row.insn) == 2 ==>
      ExpectedLoad(cfg, s, row).value ==
        if IsDevice(cfg, row.memAddr) then row.memRdata else Get(s.memory, MemoryWordAddress(cfg, row.memAddr))
  {
    hide Mmio, IsDevice, MemoryWordAddress, Get, Low, Shl, Funct3, Rd;
    DeviceAddresses(cfg, row.memAddr);
  }

  /** A store that does not raise changes nothing for a device; otherwise it changes one word,
      each selected lane taking its source byte. */
  lemma StoreKept(cfg: Config, s: State, row: Row)
    requires !ExpectedStore(cfg, s, row).raised
    ensures var m, key, off := ExpectedStore(cfg, s, row).memory, MemoryWordAddress(cfg, row.memAddr), row.memAddr % 4;
            if IsDevice(cfg, row.memAddr) then m == s.memory
            else
              && key in m && m == s.memory[key := m[key]]
              && forall lane :: 0 <= lane < 4 ==>
                   && (Bit(row.wmask, lane) ==> off <= lane && ByteOf(m[key], lane) == ByteOf(row.memWdata, lane - off))
                   && (!Bit(row.wmask, lane) ==> ByteOf(m[key], lane) == ByteOf(Get(s.memory, key), lane))
  {
    hide Mmio, IsDevice, MemoryWordAddress, Get, Low, Shl, Funct3, MergedLanes, Bit, ByteOf;
    DeviceAddresses(cfg, row.memAddr);
    MergedBytes(Get(s.memory, MemoryWordAddress(cfg, row.memAddr)), row.memWdata, row.wmask, row.memAddr % 4, 4);
  }

  // ----- the state after any row -----

  /** The epoch column changed, or the order fell. */
  predicate Restarts(s: State, row: Row) {
    || (s.previousEpoch.Some? && s.previousEpoch.value != row.epoch)
    || (s.previousOrder.Some? && row.order < s.previousOrder.value)
  }

  lemma RestartsIff(s: State, row: Row)
    ensures StartsEpoch(s, row) <==> Restarts(s, row)
  {
  }

  /** Reported or not, the checker follows the trace: it adopts the order, the epoch and the
      destination register of the row, and after a trap or an interrupt its PCs. */
  lemma RowFollowed(cfg: Config, s: State, row: Row)
    requires StateOk(s) && !CheckRow(cfg, s, row).raised
    ensures var t := CheckRow(cfg, s, row).state;
            && t.previousOrder == Some(row.order) && t.previousEpoch == Some(row.epoch)
            && t.expectedOrder == row.order + 1
            && t.instructions == s.instructions + 1
            && t.traps == s.traps + (if row.trap && !row.intr then 1 else 0)
            && t.interrupts == s.interrupts + (if row.intr then 1 else 0)
    ensures var t := CheckRow(cfg, s, row).state;
            forall k :: 0 <= k < 32 ==>
              t.regs[k] == if k != 0 && Executes(row) && k == row.rdAddr then row.rdData
                           else if Restarts(s, row) then 0 else s.regs[k]
    ensures row.trap || row.intr ==>
      var t := CheckRow(cfg, s, row).state;
      && t.expectedPc == row.nextPc && Get(t.csrs, 0x341) == row.pc
      && t.memory == (if Restarts(s, row) then cfg.image else s.memory)
  {
    hide CommonFaults, InterruptFaults, TrapFaults, RetireFaults, ExpectedOf, TrapEntryCsrs, ExpectedCause,
      ExpectedTval, OrderFaults, InitialCsrs, Get, CsrsOk, StartsEpoch, Restarts;
    RestartsIff(s, row);
    var s1 := Arrive(cfg, s, row);
    if row.intr {
      EntrySaves(s1.csrs, row.pc, if row.irqLevel then 0x8000_000B else 0x8000_0007, 0);
    } else if row.trap {
      EntrySaves(s1.csrs, row.pc, ExpectedCause(s1, row), ExpectedTval(s1, row));
    }
  }

  /** Trap entry saves the PC, the cause and the trap value. */
  lemma EntrySaves(csrs: map<int, word>, pc: word, cause: word, tval: word)
    requires CsrsOk(csrs)
    ensures var m := TrapEntryCsrs(csrs, pc, cause, tval);
            Get(m, 0x341) == pc && Get(m, 0x342) == cause && Get(m, 0x343) == tval
  {
    KeysKnown(csrs, 0x300);
    hide CsrsOk, Get, Checker.Put, StatusOnTrap;
    GetPut(csrs, 0x341, pc);
    var m1 := Checker.Put(csrs, 0x341, pc);
    GetPut(m1, 0x342, cause);
    var m2 := Checker.Put(m1, 0x342, cause);
    GetPut(m2, 0x343, tval);
    GetPut(Checker.Put(m2, 0x343, tval), 0x300, StatusOnTrap(csrs[0x300]));
  }

  function Traps(t: seq<Row>): set<int> {
    set k | 0 <= k < |t| && t[k].trap && !t[k].intr
  }

  function Interrupts(t: seq<Row>): set<int> {
    set k | 0 <= k < |t| && t[k].intr
  }

  lemma TrapsSnoc(t: seq<Row>)
    requires t != []
    ensures var n := |t| - 1; |Traps(t)| == |Traps(t[..n])| + (if t[n].trap && !t[n].intr then 1 else 0)
  {
    var n := |t| - 1;
    var a := Traps(t[..n]);
    assert n !in a && Traps(t) == if t[n].trap && !t[n].intr then a + {n} else a;
  }

  lemma InterruptsSnoc(t: seq<Row>)
    requires t != []
    ensures var n := |t| - 1; |Interrupts(t)| == |Interrupts(t[..n])| + (if t[n].intr then 1 else 0)
  {
    var n := |t| - 1;
    var a := Interrupts(t[..n]);
    assert n !in a && Interrupts(t) == if t[n].intr then a + {n} else a;
  }

  /** The counts that check returns: rows, traps that are not interrupts, and interrupts. */
  lemma {:induction false} CheckCounts(cfg: Config, t: seq<Row>)
    requires !Check(cfg, t).raised
    ensures var s := Check(cfg, t).state;
            s.instructions == |t| && s.traps == |Traps(t)| && s.interrupts == |Interrupts(t)|
    decreases |t|
  {
    hide CheckRow, InitialCsrs, StateOk, Executes, Restarts, Get;
    if t == [] {
      assert Traps(t) == {} && Interrupts(t) == {};
    } else {
      hide Traps, Interrupts;
      var n := |t| - 1;
      CheckCounts(cfg, t[..n]);
      TrapsSnoc(t);
      InterruptsSnoc(t);
      RowFollowed(cfg, Check(cfg, t[..n]).state, t[n]);
    }
  }

  // ----- each mismatch -----

  /** The manifest is consulted when there is one, except on interrupt rows. */
  lemma ManifestReported(cfg: Config, row: Row)
    ensures var f := ManifestFaults(cfg, row);
            && (forall r :: r in f ==> r == OutsideManifest || r == WrongInstruction)
            && (OutsideManifest in f <==> cfg.manifest != map[] && !row.intr && row.pc !in cfg.manifest)
            && (WrongInstruction in f <==> !row.intr && row.pc in cfg.manifest && cfg.manifest[row.pc] != row.insn)
  {
    assert row.pc in cfg.manifest ==> cfg.manifest != map[];
  }

  lemma Joined(f: seq<Reason>, c: bool, q: Reason)
    ensures forall r :: r in f + When(c, q) <==> r in f || (c && r == q)
  {
  }

  /** The snapshot mismatches; a trap or interrupt row shows its own mepc, mcause and mtval. */
  lemma SnapshotReported(csrs: map<int, word>, row: Row, entry: bool)
    requires CsrsOk(csrs)
    ensures forall r :: r in SnapshotFaults(csrs, row, entry) <==>
      || (r == Snapshot(0x300) && row.mstatus != csrs[0x300])
      || (r == Snapshot(0x304) && row.mie != csrs[0x304])
      || (r == Snapshot(0x305) && row.mtvec != csrs[0x305])
      || (r == Snapshot(0x340) && row.mscratch != csrs[0x340])
      || (r == Snapshot(0x341) && !entry && row.mepc != csrs[0x341])
      || (r == Snapshot(0x342) && !entry && row.mcause != csrs[0x342])
      || (r == Snapshot(0x343) && !entry && row.mtval != csrs[0x343])
  {
    Keys(csrs);
    hide CsrsOk, When;
    var f0: seq<Reason> := [];
    Joined(f0, row.mstatus != csrs[0x300], Snapshot(0x300));
    var f1 := When(row.mstatus != csrs[0x300], Snapshot(0x300));
    assert f0 + f1 == f1;
    Joined(f1, row.mie != csrs[0x304], Snapshot(0x304));
    var f2 := f1 + When(row.mie != csrs[0x304], Snapshot(0x304));
    Joined(f2, row.mtvec != csrs[0x305], Snapshot(0x305));
    var f3 := f2 + When(row.mtvec != csrs[0x305], Snapshot(0x305));
    Joined(f3, row.mscratch != csrs[0x340], Snapshot(0x340));
    var f4 := f3 + When(row.mscratch != csrs[0x340], Snapshot(0x340));
    Joined(f4, !entry && row.mepc != csrs[0x341], Snapshot(0x341));
    var f5 := f4 + When(!entry && row.mepc != csrs[0x341], Snapshot(0x341));
    Joined(f5, !entry && row.mcause != csrs[0x342], Snapshot(0x342));
    var f6 := f5 + When(!entry && row.mcause != csrs[0x342], Snapshot(0x342));
    Joined(f6, !entry && row.mtval != csrs[0x343], Snapshot(0x343));
  }

  lemma Keys(csrs: map<int, word>)
    requires CsrsOk(csrs)
    ensures {0x300, 0x304, 0x305, 0x340, 0x341, 0x342, 0x343} <= csrs.Keys
  {
  }

  /** The mismatches of every row; only an executed row shows mepc, mcause and mtval of before. */
  lemma CommonReported(cfg: Config, s: State, row: Row)
    requires StateOk(s)
    ensures forall r :: r in CommonFaults(cfg, s, row) <==>
      || (r == CurrentPc && row.pc != s.expectedPc)
      || r in ManifestFaults(cfg, row)
      || r in SnapshotFaults(s.csrs, row, !Executes(row))
      || (r == Rs1Value && row.rs1Data != s.regs[row.rs1Addr])
      || (r == Rs2Value && row.rs2Data != s.regs[row.rs2Addr])
  {
    hide CsrsOk, ManifestFaults, SnapshotFaults, When;
    assert (row.trap || row.intr) == !Executes(row);
    var f1 := When(row.pc != s.expectedPc, CurrentPc);
    var f3 := f1 + ManifestFaults(cfg, row) + SnapshotFaults(s.csrs, row, !Executes(row));
    var f4 := f3 + When(row.rs1Data != s.regs[row.rs1Addr], Rs1Value);
    Joined([], row.pc != s.expectedPc, CurrentPc);
    assert [] + f1 == f1;
    Joined(f3, row.rs1Data != s.regs[row.rs1Addr], Rs1Value);
    Joined(f4, row.rs2Data != s.regs[row.rs2Addr], Rs2Value);
  }

  /** The mismatches of an interrupt row: an external interrupt comes before the timer's. */
  lemma InterruptReported(row: Row)
    ensures var f, cause := InterruptFaults(row), if row.irqLevel then 0x8000_000B else 0x8000_0007;
            var offset := if row.mtvec % 4 != 1 then 0 else if row.irqLevel then 44 else 28;
            && (InterruptVector in f <==> row.nextPc != row.mtvec / 4 * 4 + offset)
            && (NoInterruptSource in f <==> !row.irqLevel && !row.irqTimerLevel)
            && (InterruptCause in f <==> row.mcause != cause)
            && (InterruptEpc in f <==> row.mepc != row.pc)
            && (InterruptTval in f <==> row.mtval != 0)
  {
  }

  /** The mismatches of a trap row. */
  lemma TrapReported(s: State, row: Row)
    requires StateOk(s)
    ensures var f := TrapFaults(s, row);
            && (TrapVector in f <==> row.nextPc != row.mtvec / 4 * 4)
            && (TrapWroteRegister in f <==> row.rdAddr != 0)
            && (WrongCause in f <==> row.mcause != ExpectedCause(s, row))
            && (TrapEpc in f <==> row.mepc != row.pc)
            && (TrapTval in f <==> row.mtval != ExpectedTval(s, row))
            && (TrapDestination in f <==> row.rdAddr != 0 || row.rdData != 0)
  {
    hide CsrsOk, ExpectedCause, ExpectedTval;
  }

  /** The mismatches of an executed row's outcome. */
  lemma RetiredReported(e: Expected, row: Row)
    ensures var f := RetireFaults(e, row);
            && (UnexpectedInstruction in f <==> !e.legal)
            && (NextPc in f <==> row.nextPc != e.nextPc)
            && (RdIndex in f <==> row.rdAddr != e.rd)
            && (RdValue in f <==> row.rdAddr != 0 && row.rdData != (if e.rd == 0 then 0 else e.value))
  {
  }
}
