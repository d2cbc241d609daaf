/** What a trace shows of an instruction that is replaced by another of the same opcode, when
    no manifest fixes the instructions: only control and status registers can come out
    differently, and the next row shows nearly all of them. */
module ChangedInstructions {
  import opened Bits
  import opened Isa
  import opened Machine
  import opened Refinement
  import opened TraceTheorems
  import opened ReplacedRows
  import opened Wrappers

  /** Harts that may differ in their CSRs. */
  ghost predicate CsrsApart(h: Hart, k: Hart) {
    k.pc == h.pc && k.x == h.x && forall a: int :: k.mem(a) == h.mem(a)
  }

  /** The registers that a trap or an interrupt overwrites are the only ones that differ. */
  predicate SavedOnly(c: Csrs, d: Csrs) {
    d == c.(mepc := d.mepc, mcause := d.mcause, mtval := d.mtval)
  }

  // ----- the row itself -----

  /** Stores with the same mask write the same bytes. */
  lemma MaskFixesStore(mem: Memory, s1: Size, s2: Size, p: word, v: word, b: int)
    requires LaneMask(s1, p % 4) == LaneMask(s2, p % 4)
    ensures StoreBytes(mem, s1, p, v)(b) == StoreBytes(mem, s2, p, v)(b)
  {
    hide LaneMask, InLanes, ByteOf, Bit;
    LaneMaskBits(s1, p % 4);
    LaneMaskBits(s2, p % 4);
    if p - p % 4 <= b < p - p % 4 + 4 {
      LaneIsByte(s1, p, b);
      LaneIsByte(s2, p, b);
      assert InLanes(s1, p % 4, b - (p - p % 4)) == InLanes(s2, p % 4, b - (p - p % 4));
    } else {
      OutsideWord(s1, p, b);
      OutsideWord(s2, p, b);
    }
  }

  lemma OnlyStoresWrite(cfg: Config, h: Hart, i: Inputs, instr: Instr)
    requires Execute(cfg, h, i, instr).Some? && !instr.Store?
    ensures Execute(cfg, h, i, instr).value.mem == h.mem
  {
    hide Mmio, LoadSource, CsrCombine, ReadCsr, WriteCsr, Alu, Multiply, Taken, LoadValue, Physical, U32, Even,
      LeaveHandler, StoreBytes;
  }

  lemma StoreEffect(cfg: Config, h: Hart, i: Inputs, instr: Instr)
    requires instr.Store?
    ensures Execute(cfg, h, i, instr).Some?
    ensures Execute(cfg, h, i, instr).value.mem ==
            if Mmio(cfg, i.memAddr) then h.mem else StoreBytes(h.mem, instr.size, Physical(cfg, i.memAddr), i.memWdata)
  {
    hide Mmio, Physical, StoreBytes, U32;
  }

  /** Two instructions of one opcode, executed by the same hart with the same store mask,
      leave the same memory. */
  lemma SameMemory(cfg: Config, h: Hart, i: Inputs, j: Inputs, w: word, z: word, a: int)
    requires Opcode(w) == Opcode(z) && Decode(w).Some? && Decode(z).Some?
    requires i.memAddr == j.memAddr && i.memWdata == j.memWdata
    requires Execute(cfg, h, i, Decode(w).value).Some? && Execute(cfg, h, j, Decode(z).value).Some?
    requires Decode(w).value.Store? && Decode(z).value.Store? ==>
      LaneMask(Decode(w).value.size, i.memAddr % 4) == LaneMask(Decode(z).value.size, i.memAddr % 4)
    ensures Execute(cfg, h, i, Decode(w).value).value.mem(a) == Execute(cfg, h, j, Decode(z).value).value.mem(a)
  {
    hide Opcode, Decode, Execute, LaneMask, StoreBytes, Mmio, Physical;
    KindByOpcode(w);
    KindByOpcode(z);
    var p, q := Decode(w).value, Decode(z).value;
    if p.Store? {
      StoreEffect(cfg, h, i, p);
      StoreEffect(cfg, h, j, q);
      SameWordAddress(cfg, i.memAddr);
      MaskFixesStore(h.mem, p.size, q.size, Physical(cfg, i.memAddr), i.memWdata, a);
    } else {
      OnlyStoresWrite(cfg, h, i, p);
      OnlyStoresWrite(cfg, h, j, q);
    }
  }

  /** A row whose instruction is replaced by another of its opcode, and which is still a step,
      leaves the same PC, registers and memory; after a trap, the same CSRs too. */
  lemma OnlyCsrsDiffer(cfg: Config, h: Hart, order: int, row: Row, w: word)
    requires StepsTo(cfg, h, order, row) && StepsTo(cfg, h, order, row.(insn := w))
    requires !row.intr && Opcode(w) == Opcode(row.insn)
    ensures CsrsApart(After(cfg, h, order, row), After(cfg, h, order, row.(insn := w)))
    ensures row.trap ==> After(cfg, h, order, row).csr == After(cfg, h, order, row.(insn := w)).csr
  {
    hide Rs1, Rs2, Mmio, Opcode, Decode, Execute, LaneMask, LoadSource, Mstatus, MieReg, Mtvec, TrapCause,
      SamplesCounter, Fetches;
    var r := row.(insn := w);
    var i, j := InputsOf(cfg, row), InputsOf(cfg, r);
    if Executes(row) {
      forall a: int ensures After(cfg, h, order, row).mem(a) == After(cfg, h, order, r).mem(a) {
        SameMemory(cfg, h, i, j, row.insn, w, a);
      }
    }
  }

  // ----- the row after it -----

  lemma {:induction false} HartsAligned(cfg: Config, t: seq<Row>, k: nat)
    requires k < |t| && HartAt(cfg, t, k).Some?
    ensures Aligned(HartAt(cfg, t, k).value)
    decreases k
  {
    hide StepsTo, After, Boundary;
    if !StartsAt(t, k) {
      HartsAligned(cfg, t, k - 1);
      StepStaysAligned(cfg, HartAt(cfg, t, k - 1).value, Position(t, k - 1), t[k - 1]);
    }
  }

  /** What the snapshot columns of a row show of the CSRs. */
  lemma SnapshotShows(c: Csrs, d: Csrs)
    requires c.tvecBase % 4 == 0 && d.tvecBase % 4 == 0
    requires Mstatus(c) == Mstatus(d) && MieReg(c) == MieReg(d) && Mtvec(c) == Mtvec(d) && c.mscratch == d.mscratch
    ensures SavedOnly(c, d)
  {
    VectorShown(c.tvecBase, d.tvecBase, c.vectored, d.vectored);
  }

  lemma VectorShown(a: word, b: word, p: bool, q: bool)
    requires a % 4 == 0 && b % 4 == 0 && U32(a + (if p then 1 else 0)) == U32(b + (if q then 1 else 0))
    ensures a == b && p == q
  {
  }

  /** A step of one of the harts is a step of the other exactly when their CSRs agree, or the
      row overwrites the ones that do not; the harts it leaves are then alike. */
  lemma NextRowShows(cfg: Config, h: Hart, k: Hart, order: int, row: Row)
    requires StepsTo(cfg, h, order, row) && CsrsApart(h, k) && Aligned(h) && Aligned(k)
    ensures StepsTo(cfg, k, order, row) <==> k.csr == h.csr || ((row.trap || row.intr) && SavedOnly(h.csr, k.csr))
    ensures StepsTo(cfg, k, order, row) ==> Differs(After(cfg, h, order, row), After(cfg, k, order, row), 0, 0)
  {
    hide StepsTo, After, Mstatus, MieReg, Mtvec, SavedOnly;
    StepColumns(cfg, h, order, row);
    if StepsTo(cfg, k, order, row) {
      StepColumns(cfg, k, order, row);
      SnapshotShows(h.csr, k.csr);
      if Executes(row) {
        SavedToo(h.csr, k.csr);
      }
    }
    if k.csr == h.csr {
      assert SetReg(h.x, 0, 0) == h.x;
      StepIgnores(cfg, h, k, 0, 0, order, row);
    } else if (row.trap || row.intr) && SavedOnly(h.csr, k.csr) {
      EntryOverwrites(cfg, h, k, order, row);
    }
  }

  lemma SavedToo(c: Csrs, d: Csrs)
    requires SavedOnly(c, d) && c.mepc == d.mepc && c.mcause == d.mcause && c.mtval == d.mtval
    ensures c == d
  {
  }

  /** Entering a handler overwrites mepc, mcause and mtval. */
  lemma EntryOverwrites(cfg: Config, h: Hart, k: Hart, order: int, row: Row)
    requires StepsTo(cfg, h, order, row) && CsrsApart(h, k) && (row.trap || row.intr) && SavedOnly(h.csr, k.csr)
    ensures StepsTo(cfg, k, order, row)
    ensures Differs(After(cfg, h, order, row), After(cfg, k, order, row), 0, 0)
  {
    hide Rs1, Rs2, Mmio, Opcode, Decode, Execute, LaneMask, LoadSource, TrapCause, SamplesCounter, Fetches, U32;
  }

  // ----- the trace -----

  lemma {:induction false} AlikeOnward(cfg: Config, t: seq<Row>, u: seq<Row>, m: nat, k: nat)
    requires IsaAccepts(cfg, t) && m <= k < |t| && |u| == |t|
    requires forall j :: m <= j < |t| ==> u[j] == t[j]
    requires forall j :: m <= j < |t| ==> StartsAt(u, j) == StartsAt(t, j)
    requires HartAt(cfg, t, m).Some? && HartAt(cfg, u, m).Some? && Position(u, m) == Position(t, m)
    requires Differs(HartAt(cfg, t, m).value, HartAt(cfg, u, m).value, 0, 0)
    ensures HartAt(cfg, t, k).Some? && HartAt(cfg, u, k).Some? && Position(u, k) == Position(t, k)
    ensures Differs(HartAt(cfg, t, k).value, HartAt(cfg, u, k).value, 0, 0)
    ensures StepsAt(cfg, u, k)
    decreases k
  {
    hide IsaAccepts, StepsTo, After, StartsAt, Differs, ResetHart;
    AcceptedIff(cfg, t);
    assert StepsAt(cfg, t, k);
    if k > m {
      AlikeOnward(cfg, t, u, m, k - 1);
      assert StepsAt(cfg, t, k - 1);
      if StartsAt(t, k) {
        AlikeItself(ResetHart(cfg), 0);
      } else {
        StepIgnores(cfg, HartAt(cfg, t, k - 1).value, HartAt(cfg, u, k - 1).value, 0, 0, Position(t, k - 1), t[k - 1]);
      }
    }
    StepIgnores(cfg, HartAt(cfg, t, k).value, HartAt(cfg, u, k).value, 0, 0, Position(t, k), t[k]);
  }

  /** The CSRs that the two instructions leave are not told apart: the row ends its epoch,
      they are equal, or the next row overwrites the ones that differ. */
  predicate CsrsUnshown(t: seq<Row>, i: nat, c: Csrs, d: Csrs)
    requires i < |t|
  {
    || EndsEpoch(t, i)
    || c == d
    || ((t[i + 1].trap || t[i + 1].intr) && SavedOnly(c, d))
  }

  /** Where the new instruction w can stand in place of the one at row i unnoticed. */
  predicate InstructionUnseen(cfg: Config, t: seq<Row>, i: nat, w: word)
    requires i < |t| && StepsAt(cfg, t, i)
  {
    var h, order := HartAt(cfg, t, i).value, Position(t, i);
    && StepsTo(cfg, h, order, t[i].(insn := w))
    && CsrsUnshown(t, i, After(cfg, h, order, t[i]).csr, After(cfg, h, order, t[i].(insn := w)).csr)
  }

  lemma InstructionStands(cfg: Config, t: seq<Row>, i: nat, w: word)
    requires IsaAccepts(cfg, t) && i < |t| && !t[i].intr && Opcode(w) == Opcode(t[i].insn)
    requires StepsAt(cfg, t, i) && StepsTo(cfg, HartAt(cfg, t, i).value, Position(t, i), t[i].(insn := w))
    ensures StepsAt(cfg, t[i := t[i].(insn := w)], i)
    ensures i + 1 < |t| && !EndsEpoch(t, i) ==>
      var u, h, order := t[i := t[i].(insn := w)], HartAt(cfg, t, i).value, Position(t, i);
      && HartAt(cfg, t, i + 1) == Some(After(cfg, h, order, t[i]))
      && HartAt(cfg, u, i + 1) == Some(After(cfg, h, order, t[i].(insn := w)))
      && Position(u, i + 1) == Position(t, i + 1)
      && CsrsApart(HartAt(cfg, t, i + 1).value, HartAt(cfg, u, i + 1).value)
      && Aligned(HartAt(cfg, t, i + 1).value) && Aligned(HartAt(cfg, u, i + 1).value)
  {
    hide IsaAccepts, StepsTo, After, Boundary, CsrsApart, Aligned, Opcode;
    var r := t[i].(insn := w);
    var u := t[i := r];
    SameHartUpTo(cfg, t, i, r, i);
    OnlyCsrsDiffer(cfg, HartAt(cfg, t, i).value, Position(t, i), t[i], w);
    if i + 1 < |t| {
      SameStarts(t, i, r, i + 1);
      if !EndsEpoch(t, i) {
        HartsAligned(cfg, t, i + 1);
        HartsAligned(cfg, u, i + 1);
      }
    }
  }

  /** Replacing an instruction by another of its opcode keeps the trace accepted exactly when
      the new row is a step and the CSRs it leaves are not told apart. */
  lemma ChangedInstructionAccepted(cfg: Config, t: seq<Row>, i: nat, w: word)
    requires IsaAccepts(cfg, t) && i < |t| && !t[i].intr && Opcode(w) == Opcode(t[i].insn)
    ensures StepsAt(cfg, t, i)
    ensures IsaAccepts(cfg, t[i := t[i].(insn := w)]) <==> InstructionUnseen(cfg, t, i, w)
  {
    hide IsaAccepts, StepsTo, After, CsrsApart, SavedOnly, Boundary, Opcode, Differs, Aligned;
    var r := t[i].(insn := w);
    var u := t[i := r];
    AcceptedIff(cfg, t);
    AcceptedIff(cfg, u);
    assert StepsAt(cfg, t, i);
    if !StepsTo(cfg, HartAt(cfg, t, i).value, Position(t, i), r) {
      NoStepRejected(cfg, t, i, r);
    } else if EndsEpoch(t, i) {
      InstructionStands(cfg, t, i, w);
      EndingRowStands(cfg, t, i, r);
    } else {
      InstructionStands(cfg, t, i, w);
      assert StepsAt(cfg, t, i + 1);
      NextRowShows(cfg, HartAt(cfg, t, i + 1).value, HartAt(cfg, u, i + 1).value, Position(t, i + 1), t[i + 1]);
      assert IsaAccepts(cfg, u) ==> StepsAt(cfg, u, i + 1);
      if StepsAt(cfg, u, i + 1) {
        RestStands(cfg, t, i, w);
      }
    }
  }

  /** A step that ends its epoch affects no other row. */
  lemma EndingRowStands(cfg: Config, t: seq<Row>, i: nat, r: Row)
    requires IsaAccepts(cfg, t) && i < |t| && EndsEpoch(t, i) && r.order == t[i].order && r.epoch == t[i].epoch
    requires StepsAt(cfg, t[i := r], i)
    ensures IsaAccepts(cfg, t[i := r])
  {
    hide IsaAccepts, StepsAt;
    var u := t[i := r];
    AcceptedIff(cfg, u);
    forall k | 0 <= k < |u| ensures StepsAt(cfg, u, k) {
      if k != i {
        OutsideUnaffected(cfg, t, i, r, k);
      }
    }
  }

  /** After a next row that both harts take, everything stands. */
  lemma RestStands(cfg: Config, t: seq<Row>, i: nat, w: word)
    requires IsaAccepts(cfg, t) && i + 1 < |t| && !EndsEpoch(t, i) && !t[i].intr && Opcode(w) == Opcode(t[i].insn)
    requires StepsAt(cfg, t, i) && StepsTo(cfg, HartAt(cfg, t, i).value, Position(t, i), t[i].(insn := w))
    requires StepsAt(cfg, t[i := t[i].(insn := w)], i + 1)
    ensures IsaAccepts(cfg, t[i := t[i].(insn := w)])
  {
    hide IsaAccepts, StepsTo, After, CsrsApart, SavedOnly, StartsAt, Boundary, Opcode, Differs, Aligned,
      EndsEpoch, ResetHart;
    var r := t[i].(insn := w);
    var u := t[i := r];
    AcceptedIff(cfg, t);
    AcceptedIff(cfg, u);
    InstructionStands(cfg, t, i, w);
    assert StepsAt(cfg, t, i + 1);
    NextRowShows(cfg, HartAt(cfg, t, i + 1).value, HartAt(cfg, u, i + 1).value, Position(t, i + 1), t[i + 1]);
    forall k | 0 <= k < |t| ensures StartsAt(u, k) == StartsAt(t, k) {
      SameStarts(t, i, r, k);
    }
    forall k | 0 <= k < |u| ensures StepsAt(cfg, u, k) {
      assert StepsAt(cfg, t, k);
      if k < i {
        SameHartUpTo(cfg, t, i, r, k);
      } else if k > i + 1 {
        if StartsAt(t, i + 2) {
          AlikeItself(ResetHart(cfg), 0);
        }
        AlikeOnward(cfg, t, u, i + 2, k);
      }
    }
  }
}
