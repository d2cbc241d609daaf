/** What acceptance says about a whole trace: it is determined by its inputs, it does not
    survive mutation, and interrupt handlers return to where they came from. */
module TraceTheorems {
  import opened Bits
  import opened Isa
  import opened Machine
  import opened Checker
  import opened Refinement
  import Rv32m
  import opened Wrappers

  // ----- the harts of an accepted trace -----

  /** Row k starts an epoch. */
  predicate StartsAt(trace: seq<Row>, k: nat)
    requires k < |trace|
  {
    k == 0 || Boundary(trace[k - 1], trace[k])
  }

  /** Position of row k in its epoch. */
  function Position(trace: seq<Row>, k: nat): nat
    requires k < |trace|
  {
    if StartsAt(trace, k) then 0 else Position(trace, k - 1) + 1
  }

  /** The hart in which row k executes. */
  function HartAt(cfg: Config, trace: seq<Row>, k: nat): Option<Hart>
    requires k < |trace|
  {
    if StartsAt(trace, k) then Some(ResetHart(cfg))
    else
      var h := HartAt(cfg, trace, k - 1);
      if h.Some? && StepsTo(cfg, h.value, Position(trace, k - 1), trace[k - 1])
      then Some(After(cfg, h.value, Position(trace, k - 1), trace[k - 1]))
      else None
  }

  predicate StepsAt(cfg: Config, trace: seq<Row>, k: nat)
    requires k < |trace|
  {
    var h := HartAt(cfg, trace, k);
    h.Some? && StepsTo(cfg, h.value, Position(trace, k), trace[k])
  }

  lemma {:induction false} PositionIsLength(trace: seq<Row>, k: nat)
    requires k < |trace|
    ensures |LastEpoch(trace[..k + 1])| == Position(trace, k) + 1
    decreases k
  {
    hide Epochs, EpochStart, LastEpoch, Boundary;
    var t := trace[..k + 1];
    EpochsSnoc(t);
    assert t[..k] == trace[..k];
    if !StartsAt(trace, k) {
      PositionIsLength(trace, k - 1);
    }
  }

  /** Row by row: an accepted trace is one whose every row is a step from its hart. */
  lemma {:induction false} AcceptedRowByRow(cfg: Config, trace: seq<Row>, n: nat)
    requires n <= |trace|
    ensures IsaAccepts(cfg, trace[..n]) <==> forall k :: 0 <= k < n ==> StepsAt(cfg, trace, k)
    ensures n > 0 && IsaAccepts(cfg, trace[..n - 1]) ==> HartBefore(cfg, trace[..n]) == HartAt(cfg, trace, n - 1)
    decreases n
  {
    hide StepsTo, After, Epochs, EpochStart, LastEpoch, ResetHart, IsaAccepts, HartBefore, Boundary;
    if n == 0 {
      EmptyTrace(cfg);
    } else {
      var t := trace[..n];
      assert t[..n - 1] == trace[..n - 1];
      AcceptedRowByRow(cfg, trace, n - 1);
      IsaAcceptsSnoc(cfg, t);
      PositionIsLength(trace, n - 1);
      if IsaAccepts(cfg, trace[..n - 1]) {
        if n > 1 {
          IsaAcceptsSnoc(cfg, trace[..n - 1]);
          assert trace[..n - 1][..n - 2] == trace[..n - 2];
          assert StepsAt(cfg, trace, n - 2);
        }
        LastHart(cfg, trace, n - 1);
        assert StepsAt(cfg, trace, n - 1) <==> IsaAccepts(cfg, trace[..n]);
      }
    }
  }

  lemma LastHart(cfg: Config, trace: seq<Row>, k: nat)
    requires k < |trace| && IsaAccepts(cfg, trace[..k])
    requires k > 0 ==>
      && HartBefore(cfg, trace[..k]) == HartAt(cfg, trace, k - 1)
      && StepsAt(cfg, trace, k - 1)
    ensures HartBefore(cfg, trace[..k + 1]) == HartAt(cfg, trace, k)
  {
    hide StepsTo, After, Epochs, EpochStart, LastEpoch, ResetHart, IsaAccepts, Boundary;
    var t := trace[..k + 1];
    assert t[..k] == trace[..k];
    IsaAcceptsSnoc(cfg, t);
    var e := LastEpoch(t);
    if StartsAt(trace, k) {
      assert e[..|e| - 1] == [];
      EmptyTrace(cfg);
    } else {
      IsaAcceptsSnoc(cfg, trace[..k]);
      PositionIsLength(trace, k - 1);
      assert trace[..k][..k - 1] == trace[..k - 1];
    }
  }

  lemma AcceptedIff(cfg: Config, trace: seq<Row>)
    ensures IsaAccepts(cfg, trace) <==> forall k :: 0 <= k < |trace| ==> StepsAt(cfg, trace, k)
  {
    hide IsaAccepts, StepsAt;
    AcceptedRowByRow(cfg, trace, |trace|);
    assert trace[..|trace|] == trace;
  }

  // ----- determinism -----

  ghost predicate SameInputs(cfg: Config, t: seq<Row>, u: seq<Row>) {
    && |t| == |u|
    && (forall k :: 0 <= k < |t| ==> InputsOf(cfg, t[k]) == InputsOf(cfg, u[k]))
    && (forall k :: 0 <= k < |t| ==> StartsAt(t, k) == StartsAt(u, k))
  }

  /** Two accepted traces with the same inputs and resets show the same predicted columns,
      and pass through the same harts. */
  lemma {:induction false} InputsDetermineTrace(cfg: Config, t: seq<Row>, u: seq<Row>, k: nat)
    requires IsaAccepts(cfg, t) && IsaAccepts(cfg, u) && SameInputs(cfg, t, u) && k < |t|
    ensures OutputsOf(cfg, t[k]) == OutputsOf(cfg, u[k])
    ensures HartAt(cfg, t, k) == HartAt(cfg, u, k) && Position(t, k) == Position(u, k)
    decreases k
  {
    hide Predict, OutputsOf, InputsOf, ResetHart, IsaAccepts, Boundary;
    AcceptedIff(cfg, t);
    AcceptedIff(cfg, u);
    assert StepsAt(cfg, t, k) && StepsAt(cfg, u, k);
    if !StartsAt(t, k) {
      InputsDetermineTrace(cfg, t, u, k - 1);
      assert StepsAt(cfg, t, k - 1) && StepsAt(cfg, u, k - 1);
    }
  }

  // ----- mutations -----

  lemma {:induction false} SamePrefixSameHart(cfg: Config, t: seq<Row>, u: seq<Row>, k: nat)
    requires k < |t| && k < |u| && t[..k] == u[..k] && StartsAt(t, k) == StartsAt(u, k)
    ensures HartAt(cfg, t, k) == HartAt(cfg, u, k) && Position(t, k) == Position(u, k)
    decreases k
  {
    hide StepsTo, After, ResetHart, Boundary;
    if k > 0 {
      assert t[k - 1] == t[..k][k - 1] == u[..k][k - 1] == u[k - 1];
      assert t[..k - 1] == t[..k][..k - 1] == u[..k][..k - 1] == u[..k - 1];
      if k > 1 {
        assert t[k - 2] == t[..k][k - 2] == u[..k][k - 2] == u[k - 2];
      }
      SamePrefixSameHart(cfg, t, u, k - 1);
    }
  }

  lemma OrderIsPosition(cfg: Config, t: seq<Row>, k: nat)
    requires k < |t| && StepsAt(cfg, t, k)
    ensures t[k].order == Position(t, k)
  {
    hide StepsTo;
    StepColumns(cfg, HartAt(cfg, t, k).value, Position(t, k), t[k]);
  }

  predicate EndsEpoch(t: seq<Row>, i: nat)
    requires i < |t|
  {
    i + 1 == |t| || Boundary(t[i], t[i + 1])
  }

  /** Changing any predicted column of one row of an accepted trace, without making the row
      look like a reset or hiding one, makes the trace rejected. */
  lemma ChangedRowRejected(cfg: Config, t: seq<Row>, i: nat, r: Row)
    requires IsaAccepts(cfg, t) && i < |t|
    requires InputsOf(cfg, r) == InputsOf(cfg, t[i]) && OutputsOf(cfg, r) != OutputsOf(cfg, t[i])
    requires StartsAt(t[i := r], i) == StartsAt(t, i)
    ensures !IsaAccepts(cfg, t[i := r])
  {
    hide IsaAccepts, Predict, InputsOf, OutputsOf, Boundary;
    var u := t[i := r];
    AcceptedIff(cfg, t);
    AcceptedIff(cfg, u);
    assert StepsAt(cfg, t, i);
    SamePrefixSameHart(cfg, t, u, i);
    assert !StepsAt(cfg, u, i);
  }

  /** Row r is a step where row i stands: of the reset hart when r looks like a reset there,
      otherwise of the hart that row i - 1 leaves. */
  predicate StandsAt(cfg: Config, t: seq<Row>, i: nat, r: Row)
    requires i < |t|
  {
    if i == 0 || Boundary(t[i - 1], r) then StepsTo(cfg, ResetHart(cfg), 0, r)
    else
      && StepsAt(cfg, t, i - 1)
      && StepsTo(cfg, After(cfg, HartAt(cfg, t, i - 1).value, Position(t, i - 1), t[i - 1]), Position(t, i - 1) + 1, r)
  }

  lemma StandsIsSteps(cfg: Config, t: seq<Row>, i: nat, r: Row)
    requires i < |t|
    ensures StandsAt(cfg, t, i, r) <==> StepsAt(cfg, t[i := r], i)
  {
    hide StepsTo, After, ResetHart, Boundary;
    var u := t[i := r];
    if i > 0 {
      assert t[..i - 1] == u[..i - 1];
      SamePrefixSameHart(cfg, t, u, i - 1);
    }
  }

  /** When a row is replaced and both rows end their epoch, the rows around it are not affected. */
  lemma OutsideUnaffected(cfg: Config, t: seq<Row>, i: nat, r: Row, k: nat)
    requires IsaAccepts(cfg, t) && i < |t| && k < |t| && k != i
    requires k < i || (EndsEpoch(t, i) && EndsEpoch(t[i := r], i))
    ensures StepsAt(cfg, t[i := r], k)
  {
    hide IsaAccepts, StepsTo, HartAt, Position, Boundary;
    var u := t[i := r];
    AcceptedIff(cfg, t);
    assert StepsAt(cfg, t, k) && u[k] == t[k];
    if k < i {
      assert t[..k] == u[..k];
      SamePrefixSameHart(cfg, t, u, k);
    } else {
      AfterReset(cfg, t, u, i + 1, i + 1, k - i - 1);
    }
  }

  /** The row after row i is numbered for the epoch that row i leaves it in. */
  lemma NextPosition(cfg: Config, t: seq<Row>, i: nat)
    requires IsaAccepts(cfg, t) && i < |t|
    ensures t[i].order == Position(t, i)
    ensures i + 1 < |t| ==> t[i + 1].order == if EndsEpoch(t, i) then 0 else Position(t, i) + 1
  {
    hide IsaAccepts, StepsTo, HartAt, Boundary;
    AcceptedIff(cfg, t);
    assert StepsAt(cfg, t, i);
    OrderIsPosition(cfg, t, i);
    if i + 1 < |t| {
      assert StepsAt(cfg, t, i + 1);
      OrderIsPosition(cfg, t, i + 1);
    }
  }

  /** Replacing a row of an accepted trace by one with the same inputs and another prediction
      leaves the trace accepted exactly when the new row is a step where it stands and both
      rows end their epoch. It then hides the reset at row i, or fakes one. */
  lemma ChangedRowAccepted(cfg: Config, t: seq<Row>, i: nat, r: Row)
    requires IsaAccepts(cfg, t) && i < |t|
    requires InputsOf(cfg, r) == InputsOf(cfg, t[i]) && OutputsOf(cfg, r) != OutputsOf(cfg, t[i])
    ensures IsaAccepts(cfg, t[i := r]) <==> StandsAt(cfg, t, i, r) && EndsEpoch(t, i) && EndsEpoch(t[i := r], i)
    ensures IsaAccepts(cfg, t[i := r]) ==> StartsAt(t[i := r], i) != StartsAt(t, i)
  {
    hide IsaAccepts, StepsAt, StandsAt, InputsOf, OutputsOf, Boundary;
    var u := t[i := r];
    StandsIsSteps(cfg, t, i, r);
    AcceptedIff(cfg, u);
    if IsaAccepts(cfg, u) {
      if StartsAt(u, i) == StartsAt(t, i) {
        ChangedRowRejected(cfg, t, i, r);
      }
      NextPosition(cfg, t, i);
      NextPosition(cfg, u, i);
    } else if StandsAt(cfg, t, i, r) && EndsEpoch(t, i) && EndsEpoch(u, i) {
      forall k | 0 <= k < |u| ensures StepsAt(cfg, u, k) {
        if k != i {
          OutsideUnaffected(cfg, t, i, r, k);
        }
      }
    }
  }

  function DuplicateRow(t: seq<Row>, i: nat): seq<Row>
    requires i < |t|
  {
    t[..i + 1] + t[i..]
  }

  /** Retiring any row twice is rejected. */
  lemma DuplicateRejected(cfg: Config, t: seq<Row>, i: nat)
    requires IsaAccepts(cfg, t) && i < |t|
    ensures !IsaAccepts(cfg, DuplicateRow(t, i))
  {
    hide IsaAccepts, StepsTo;
    var u := DuplicateRow(t, i);
    AcceptedIff(cfg, t);
    AcceptedIff(cfg, u);
    assert u[i] == t[i] && u[i + 1] == t[i];
    if IsaAccepts(cfg, u) {
      assert StepsAt(cfg, u, i) && StepsAt(cfg, u, i + 1);
      OrderIsPosition(cfg, u, i);
      OrderIsPosition(cfg, u, i + 1);
      assert false;
    }
  }

  function DropRow(t: seq<Row>, i: nat): seq<Row>
    requires i < |t|
  {
    t[..i] + t[i + 1..]
  }

  /** The rows on either side of row i are still separated by a reset once it is gone. */
  predicate ResetStillSeen(t: seq<Row>, i: nat)
    requires i < |t|
  {
    i == 0 || i + 1 == |t| || Boundary(t[i - 1], t[i + 1])
  }

  /** Dropping a row goes unnoticed exactly when it is the last of its epoch and the reset
      after it is still seen. */
  lemma DroppedRowAccepted(cfg: Config, t: seq<Row>, i: nat)
    requires IsaAccepts(cfg, t) && i < |t|
    ensures IsaAccepts(cfg, DropRow(t, i)) <==> EndsEpoch(t, i) && ResetStillSeen(t, i)
  {
    hide IsaAccepts, StepsAt;
    if i + 1 == |t| {
      PrefixAccepted(cfg, t, i);
      assert DropRow(t, i) == t[..i];
    } else if EndsEpoch(t, i) && ResetStillSeen(t, i) {
      DroppedEndAccepted(cfg, t, i);
    } else {
      GapRejected(cfg, t, i);
    }
  }

  lemma PrefixAccepted(cfg: Config, t: seq<Row>, n: nat)
    requires IsaAccepts(cfg, t) && n <= |t|
    ensures IsaAccepts(cfg, t[..n])
  {
    hide IsaAccepts, StepsAt;
    AcceptedRowByRow(cfg, t, n);
    AcceptedIff(cfg, t);
  }

  /** Without the dropped row, the next row is out of sequence. */
  lemma GapRejected(cfg: Config, t: seq<Row>, i: nat)
    requires IsaAccepts(cfg, t) && i + 1 < |t| && !(EndsEpoch(t, i) && ResetStillSeen(t, i))
    ensures !IsaAccepts(cfg, DropRow(t, i))
  {
    hide IsaAccepts, StepsTo, HartAt;
    var u := DropRow(t, i);
    AcceptedIff(cfg, t);
    AcceptedIff(cfg, u);
    assert u[i] == t[i + 1];
    assert StepsAt(cfg, t, i) && StepsAt(cfg, t, i + 1);
    OrderIsPosition(cfg, t, i);
    OrderIsPosition(cfg, t, i + 1);
    if i > 0 {
      assert u[i - 1] == t[i - 1];
      assert StepsAt(cfg, t, i - 1);
      OrderIsPosition(cfg, t, i - 1);
      SamePositions(t, u, i - 1);
    }
    if IsaAccepts(cfg, u) {
      assert StepsAt(cfg, u, i);
      OrderIsPosition(cfg, u, i);
      assert false;
    }
  }

  lemma {:induction false} SamePositions(t: seq<Row>, u: seq<Row>, k: nat)
    requires k < |t| && k < |u| && forall j :: 0 <= j <= k ==> t[j] == u[j]
    ensures Position(t, k) == Position(u, k)
    decreases k
  {
    if k > 0 {
      SamePositions(t, u, k - 1);
    }
  }

  /** After a reset the hart no longer depends on what came before it. */
  lemma {:induction false} AfterReset(cfg: Config, t: seq<Row>, u: seq<Row>, i: nat, j: nat, d: nat)
    requires i + d < |t| && j + d < |u| && StartsAt(t, i) && StartsAt(u, j)
    requires forall m :: i <= m <= i + d ==> t[m] == u[m - i + j]
    ensures HartAt(cfg, t, i + d) == HartAt(cfg, u, j + d) && Position(t, i + d) == Position(u, j + d)
    decreases d
  {
    hide StepsTo, After, ResetHart;
    if d > 0 {
      AfterReset(cfg, t, u, i, j, d - 1);
      assert t[i + d] == u[j + d] && t[i + d - 1] == u[j + d - 1];
    }
  }

  lemma DroppedEndAccepted(cfg: Config, t: seq<Row>, i: nat)
    requires IsaAccepts(cfg, t) && i + 1 < |t| && EndsEpoch(t, i) && ResetStillSeen(t, i)
    ensures IsaAccepts(cfg, DropRow(t, i))
  {
    hide IsaAccepts, StepsTo, HartAt, Position;
    var u := DropRow(t, i);
    AcceptedIff(cfg, t);
    AcceptedIff(cfg, u);
    assert i > 0 ==> u[i - 1] == t[i - 1];
    assert StartsAt(t, i + 1) && StartsAt(u, i) by { assert u[i] == t[i + 1]; }
    forall k | 0 <= k < |u| ensures StepsAt(cfg, u, k) {
      if k < i {
        assert u[k] == t[k] && t[..k] == u[..k];
        assert k > 0 ==> u[k - 1] == t[k - 1];
        SamePrefixSameHart(cfg, t, u, k);
        assert StepsAt(cfg, t, k);
      } else {
        assert u[k] == t[k + 1];
        AfterReset(cfg, t, u, i + 1, i, k - i);
        assert StepsAt(cfg, t, k + 1);
      }
    }
  }

  // ----- the same, of the checker -----

  /** Row r has the inputs of row i but predicts differently. */
  ghost predicate ChangesPrediction(cfg: Config, t: seq<Row>, i: nat, r: Row) {
    i < |t| && InputsOf(cfg, r) == InputsOf(cfg, t[i]) && OutputsOf(cfg, r) != OutputsOf(cfg, t[i])
  }

  /** Replacing row i by r moves a reset without leaving a trace of it: r is a step where it
      stands, and both rows end their epoch. */
  ghost predicate MovesReset(cfg: Config, t: seq<Row>, i: nat, r: Row)
    requires i < |t|
  {
    StandsAt(cfg, t, i, r) && EndsEpoch(t, i) && EndsEpoch(t[i := r], i)
  }

  lemma NamesReplaced(t: seq<Row>, i: nat, r: Row)
    requires AllNameTheirRegisters(t) && i < |t|
    ensures AllNameTheirRegisters(t[i := r]) <==> NamesItsRegisters(r)
  {
    hide NamesItsRegisters;
    assert t[i := r][i] == r;
  }

  /** The checker's verdict on mutated traces: a row whose prediction changes is reported
      unless it moves a reset, a duplicate always, a dropped row unless it ends its epoch and
      the reset stays visible. */
  lemma CheckerCatchesMutations(cfg: Config, t: seq<Row>, i: nat, r: Row)
    requires Accepts(cfg, t) && AllNameTheirRegisters(t) && i < |t|
    ensures ChangesPrediction(cfg, t, i, r) ==>
      (Accepts(cfg, t[i := r]) && NamesItsRegisters(r) <==> MovesReset(cfg, t, i, r))
    ensures !Accepts(cfg, DuplicateRow(t, i))
    ensures Accepts(cfg, DropRow(t, i)) <==> EndsEpoch(t, i) && ResetStillSeen(t, i)
  {
    hide Accepts, IsaAccepts, NamesItsRegisters, EndsEpoch, ResetStillSeen, Run, Simulates, LastEpoch, Check,
      InputsOf, OutputsOf, StandsAt, StartsAt;
    CheckerRefinesIsa(cfg, t);
    CheckerRefinesIsa(cfg, DuplicateRow(t, i));
    CheckerRefinesIsa(cfg, DropRow(t, i));
    DuplicateRejected(cfg, t, i);
    DroppedRowAccepted(cfg, t, i);
    if ChangesPrediction(cfg, t, i, r) {
      ChangedRowAccepted(cfg, t, i, r);
      CheckerRefinesIsa(cfg, t[i := r]);
      NamesReplaced(t, i, r);
    }
  }

  // ----- interrupt handlers -----

  /** The operand of a CSR instruction, as the row shows it. */
  function RowOperand(row: Row, source: CsrSource): word {
    if source.Register? then row.rs1Data else source.z
  }

  /** The row writes mstatus or mepc, or returns from a handler. */
  predicate DisturbsReturn(row: Row) {
    var instr := Decode(row.insn);
    && instr.Some?
    && (instr.value.Mret? ||
        (instr.value.Csr? && (instr.value.csr == MSTATUS || instr.value.csr == MEPC)
         && (instr.value.csrOp == ReadWrite || RowOperand(row, instr.value.source) != 0)))
  }

  /** An undisturbing row keeps the saved PC and the saved interrupt enable. */
  lemma HandlerRowKeepsReturn(cfg: Config, h: Hart, order: int, row: Row)
    requires StepsTo(cfg, h, order, row) && Executes(row) && !DisturbsReturn(row)
    ensures After(cfg, h, order, row).csr.mepc == h.csr.mepc
    ensures After(cfg, h, order, row).csr.mpieBit == h.csr.mpieBit
  {
    hide Decode, Mmio, LaneMask, LoadSource, Mstatus, MieReg, Mtvec, SetReg, Rs1, Rs2, SamplesCounter, Opcode,
      CsrCombine, ReadCsr, StoreBytes, Alu, Multiply, Taken, LoadValue, Physical, Even, Bit;
    StepColumns(cfg, h, order, row);
    var i := InputsOf(cfg, row);
    var instr := Decode(i.insn).value;
    DecodedSource(row.insn);
    ExecuteKeepsReturn(cfg, h, i, instr);
  }

  lemma DecodedSource(w: word)
    ensures var instr := Decode(w);
            instr.Some? && instr.value.Csr? && instr.value.source.Register? ==> instr.value.source.r == Rs1(w)
  {
    hide Opcode, Field, DecodeAlu, DecodeAluImm, DecodeBranch, DecodeMul, DecodeSize, ImmB, ImmI, ImmJ, ImmS, ImmU, Rs1;
  }

  lemma ExecuteKeepsReturn(cfg: Config, h: Hart, i: Inputs, instr: Instr)
    requires Execute(cfg, h, i, instr).Some? && !instr.Mret?
    requires instr.Csr? && (instr.csr == MSTATUS || instr.csr == MEPC) ==>
      instr.csrOp != ReadWrite && (if instr.source.Register? then h.x[instr.source.r] else instr.source.z) == 0
    ensures Execute(cfg, h, i, instr).value.csr.mepc == h.csr.mepc
    ensures Execute(cfg, h, i, instr).value.csr.mpieBit == h.csr.mpieBit
  {
    hide Mmio, LoadSource, CsrCombine, ReadCsr, StoreBytes, Alu, Multiply, Taken, LoadValue, Physical, Even, Bit;
  }

  /** Rows a, a+1, ..., b lie in one epoch; row a is an interrupt and the rows between a and
      b execute without disturbing the return. */
  ghost predicate HandlerRows(t: seq<Row>, a: nat, b: nat) {
    && a < b < |t|
    && t[a].intr
    && (forall k :: a < k <= b ==> !StartsAt(t, k))
    && (forall k :: a < k < b ==> Executes(t[k]) && !DisturbsReturn(t[k]))
  }

  lemma {:induction false} ReturnIsSaved(cfg: Config, t: seq<Row>, a: nat, b: nat)
    requires IsaAccepts(cfg, t) && HandlerRows(t, a, b)
    ensures HartAt(cfg, t, a).Some? && HartAt(cfg, t, b).Some?
    ensures HartAt(cfg, t, b).value.csr.mepc == t[a].pc
    ensures HartAt(cfg, t, b).value.csr.mpieBit == HartAt(cfg, t, a).value.csr.mieBit
    decreases b
  {
    hide IsaAccepts, Boundary, Predict, DisturbsReturn;
    AcceptedIff(cfg, t);
    assert StepsAt(cfg, t, b - 1) && StepsAt(cfg, t, a) && StepsAt(cfg, t, b);
    assert !StartsAt(t, b);
    var h, order := HartAt(cfg, t, b - 1).value, Position(t, b - 1);
    if b - 1 == a {
      InterruptSaves(cfg, h, order, t[a]);
    } else {
      ReturnIsSaved(cfg, t, a, b - 1);
      HandlerRowKeepsReturn(cfg, h, order, t[b - 1]);
    }
  }

  lemma InterruptSaves(cfg: Config, h: Hart, order: int, row: Row)
    requires StepsTo(cfg, h, order, row) && row.intr
    ensures After(cfg, h, order, row).csr.mepc == row.pc
    ensures After(cfg, h, order, row).csr.mpieBit == h.csr.mieBit
  {
    hide Mstatus, MieReg, Mtvec, Rs1, Rs2, Mmio;
  }

  /** From an interrupt through any undisturbing handler, MRET resumes at the interrupted PC
      and restores the interrupt enable that was in force. */
  lemma HandlerReturns(cfg: Config, t: seq<Row>, a: nat, b: nat)
    requires IsaAccepts(cfg, t) && HandlerRows(t, a, b)
    requires Executes(t[b]) && t[b].insn == MRET
    ensures t[b].nextPc == t[a].pc
    ensures StepsAt(cfg, t, b) && HartAt(cfg, t, a).Some?
    ensures After(cfg, HartAt(cfg, t, b).value, Position(t, b), t[b]).csr.mieBit
         == HartAt(cfg, t, a).value.csr.mieBit
  {
    hide IsaAccepts, StepsTo, After, Boundary, DisturbsReturn;
    AcceptedIff(cfg, t);
    assert StepsAt(cfg, t, b);
    ReturnIsSaved(cfg, t, a, b);
    MretReturns(cfg, HartAt(cfg, t, b).value, Position(t, b), t[b]);
  }

  lemma MretReturns(cfg: Config, h: Hart, order: int, row: Row)
    requires StepsTo(cfg, h, order, row) && Executes(row) && row.insn == MRET
    ensures row.nextPc == h.csr.mepc
    ensures After(cfg, h, order, row).csr == LeaveHandler(h.csr)
  {
    hide Opcode, Field, Decode, Execute, Mstatus, MieReg, Mtvec, Rs1, Rs2, Mmio, SetReg, LaneMask, LoadSource;
    MretDecodes();
    SystemExecutes(cfg, h, InputsOf(cfg, row));
  }

  lemma MretDecodes()
    ensures Decode(MRET) == Some(Mret)
  {
    MretOpcode();
    hide Opcode, Field;
    SpecialDecodes(MRET);
  }

  lemma MretOpcode()
    ensures Opcode(MRET) == 0x73
  {
    P2Values();
    ShrIsDiv(MRET, 7);
  }

  // ----- alignment -----

  /** PC and mepc are even, and the trap vector is word-aligned, in every hart of a run. */
  predicate Aligned(h: Hart) {
    h.pc % 2 == 0 && h.csr.mepc % 2 == 0 && h.csr.tvecBase % 4 == 0
  }

  lemma {:induction false} RunStaysAligned(cfg: Config, rows: seq<Row>)
    requires Run(cfg, rows).Some?
    ensures Aligned(Run(cfg, rows).value)
  {
    hide StepsTo, After;
    if rows != [] {
      var n := |rows| - 1;
      RunStaysAligned(cfg, rows[..n]);
      StepStaysAligned(cfg, Run(cfg, rows[..n]).value, n, rows[n]);
    }
  }

  lemma StepStaysAligned(cfg: Config, h: Hart, order: int, row: Row)
    requires StepsTo(cfg, h, order, row) && Aligned(h)
    ensures Aligned(After(cfg, h, order, row))
  {
    hide Mstatus, MieReg, Mtvec, Rs1, Rs2, Mmio, SetReg, LaneMask, LoadSource, Decode, Execute, TrapCause, Opcode;
    if Executes(row) {
      var i := InputsOf(cfg, row);
      DecodedOffsetsEven(row.insn);
      ExecuteStaysAligned(cfg, h, i, Decode(row.insn).value);
    }
  }

  lemma DecodedOffsetsEven(w: word)
    ensures Decode(w).Some? && (Decode(w).value.Jal? || Decode(w).value.Branch?) ==> Decode(w).value.offset % 2 == 0
  {
    hide Opcode, Funct3, Funct7, Rd, Rs1, Rs2, Field, DecodeAlu, DecodeAluImm, DecodeBranch, DecodeMul, DecodeSize,
      ImmI, ImmS, ImmU, ImmJ, ImmB;
    OffsetsEven(w);
  }

  lemma OffsetsEven(w: word)
    ensures ImmJ(w) % 2 == 0 && ImmB(w) % 2 == 0
  {
    hide Field;
    var j: int := 0x800 * Field(w, 19, 12) + 0x400 * Field(w, 20, 20) + Field(w, 30, 21) - 0x8_0000 * Field(w, 31, 31);
    var b: int := 0x400 * Field(w, 7, 7) + 0x10 * Field(w, 30, 25) + Field(w, 11, 8) - 0x800 * Field(w, 31, 31);
    assert ImmJ(w) == 2 * j && ImmB(w) == 2 * b;
  }

  lemma ExecuteStaysAligned(cfg: Config, h: Hart, i: Inputs, instr: Instr)
    requires Aligned(h) && Execute(cfg, h, i, instr).Some?
    requires instr.Jal? || instr.Branch? ==> instr.offset % 2 == 0
    ensures var e := Execute(cfg, h, i, instr).value;
            e.pc % 2 == 0 && e.csr.mepc % 2 == 0 && e.csr.tvecBase % 4 == 0
  {
    hide Mmio, LoadSource, CsrCombine, ReadCsr, StoreBytes, Alu, Multiply, Taken, LoadValue, Physical, Bit, WriteCsr,
      U32, Even;
    EvenTargets(h.pc, 4);
    match instr
    case Jal(_, offset) => EvenTargets(h.pc, offset);
    case Jalr(_, rs1, offset) => EvenTargets(h.x[rs1], offset);
    case Branch(_, _, _, offset) => EvenTargets(h.pc, offset);
    case Csr(op, _, source, csr) =>
      var operand := if source.Register? then h.x[source.r] else source.z;
      WriteStaysAligned(h.csr, csr, CsrCombine(op, ReadCsr(cfg, h.csr, i, csr).value, operand));
    case _ =>
  }

  lemma EvenTargets(a: word, b: int)
    ensures Even(a + b) % 2 == 0
    ensures a % 2 == 0 && b % 2 == 0 ==> U32(a + b) % 2 == 0
  {
    hide U32;
    var v: int := a + b;
    EvenWord(v / 2);
    assert v - v % 2 == 2 * (v / 2);
    if a % 2 == 0 && b % 2 == 0 {
      EvenWord(a / 2 + b / 2);
      assert v == 2 * (a / 2 + b / 2);
    }
  }

  lemma EvenWord(h: int)
    ensures U32(2 * h) % 2 == 0
  {
    var q: int := 2 * h / W;
    assert 2 * h % W == 2 * (h - 0x8000_0000 * q);
  }

  lemma WriteStaysAligned(c: Csrs, csr: nat, v: word)
    requires c.mepc % 2 == 0 && c.tvecBase % 4 == 0
    ensures WriteCsr(c, csr, v).mepc % 2 == 0 && WriteCsr(c, csr, v).tvecBase % 4 == 0
  {
    hide Bit;
    RoundedDown(v);
  }

  lemma RoundedDown(v: int)
    ensures (v - v % 4) % 4 == 0 && (v - v % 4) % 2 == 0
  {
    var q := v / 4;
    assert v - v % 4 == 4 * q;
    DivUnique(4 * q, 4, q, 0);
    DivUnique(4 * q, 2, 2 * q, 0);
  }

  // ----- the checker's own state -----

  /** misa is the configured constant, and the expected PC and mepc are even. */
  ghost predicate Regular(cfg: Config, s: State) {
    && StateOk(s)
    && Get(s.csrs, MISA) == Misa(cfg)
    && s.expectedPc % 2 == 0
    && Get(s.csrs, MEPC) % 2 == 0
  }

  lemma InitialRegular(cfg: Config, s: State)
    ensures Regular(cfg, InitialState(cfg)) && Regular(cfg, ResetEpoch(cfg, s))
  {
    var m := InitialCsrs(cfg);
    assert Get(m, MISA) == Misa(cfg) && Get(m, MEPC) == 0;
  }

  lemma TargetEven(s: State, row: Row)
    requires StateOk(s) && row.pc % 2 == 0 && Opcode(row.insn) in {0x63, 0x67, 0x6F}
    ensures JumpTarget(s, row) % 2 == 0
  {
    hide JumpTarget, Opcode, ImmB, ImmI, ImmJ, CsrsOk, U32, Even;
    JumpsAgree(s, row);
    OffsetsEven(row.insn);
    EvenTargets(row.pc, ImmJ(row.insn));
    EvenTargets(row.pc, ImmB(row.insn));
    EvenTargets(s.regs[row.rs1Addr], ImmI(row.insn));
  }

  lemma ComputeRegular(s: State, row: Row)
    requires StateOk(s) && row.pc % 2 == 0
    ensures ExpectedCompute(s, row).nextPc % 2 == 0
  {
    hide JumpTarget, Opcode, Funct3, Field, CsrsOk, U32, ImmediateOp, RegisterOp, BranchTaken, Rv32m.Result, Rd;
    EvenTargets(row.pc, 4);
    if Opcode(row.insn) in {0x63, 0x67, 0x6F} {
      TargetEven(s, row);
    }
  }

  lemma AccessRegular(cfg: Config, s: State, row: Row, csr: nat)
    requires Regular(cfg, s)
    ensures var csrs := CsrsBeforeAccess(s, row, csr); Get(csrs, MISA) == Misa(cfg) && Get(csrs, MEPC) % 2 == 0
  {
    hide CsrsOk, Get, Checker.Put;
    if csr == MIP {
      GetPut(s.csrs, csr, PendingBits(row));
    } else if IsCounter(csr) {
      GetPut(s.csrs, csr, row.rdData);
    }
  }

  /** A legal write of another register than misa. */
  lemma WriteRegular(cfg: Config, csrs: map<int, word>, csr: nat, v: word)
    requires CsrsOk(csrs) && KnownCsr(csr) && csr != MISA
    requires Get(csrs, MISA) == Misa(cfg) && Get(csrs, MEPC) % 2 == 0
    ensures var m := Checker.Put(csrs, csr, Legalized(csr, v)); Get(m, MISA) == Misa(cfg) && Get(m, MEPC) % 2 == 0
  {
    hide CsrsOk, Get, Checker.Put, StatusOnWrite, MieOnWrite, Holds, KnownCsr;
    GetPut(csrs, csr, Legalized(csr, v));
    RoundedDown(v);
  }

  lemma ReturnRegular(cfg: Config, s: State, row: Row)
    requires Regular(cfg, s) && row.insn == MRET
    ensures var e := ExpectedSystem(s, row);
            e.nextPc % 2 == 0 && Get(e.csrs, MISA) == Misa(cfg) && Get(e.csrs, MEPC) % 2 == 0
  {
    EpcIsGet(s.csrs);
    hide CsrsOk, Get, Checker.Put, StatusOnMret, U32, Opcode, Field;
    GetPut(s.csrs, MSTATUS, StatusOnMret(s.csrs[MSTATUS]));
  }

  lemma SystemRegular(cfg: Config, s: State, row: Row)
    requires Regular(cfg, s) && row.pc % 2 == 0
    ensures var e := ExpectedSystem(s, row);
            && e.nextPc % 2 == 0
            && (e.legal ==> Get(e.csrs, MISA) == Misa(cfg) && Get(e.csrs, MEPC) % 2 == 0)
  {
    hide Field, Funct3, Rd, CsrsOk, Get, Checker.Put, Legalized, CombineSource, SourceOf, CsrsBeforeAccess,
      StatusOnMret, U32, Even, KnownCsr, IsStatus, Misa;
    EvenTargets(row.pc, 4);
    if row.insn == MRET {
      ReturnRegular(cfg, s, row);
    } else {
      var csr := Field(row.insn, 31, 20);
      KeysKnown(s.csrs, csr);
      AccessRegular(cfg, s, row, csr);
      if csr in s.csrs && csr != MISA {
        var csrs := CsrsBeforeAccess(s, row, csr);
        WriteRegular(cfg, csrs, csr, CombineSource(Funct3(row.insn) % 4, Get(csrs, csr), SourceOf(s, row)));
      }
    }
  }

  lemma EpcIsGet(csrs: map<int, word>)
    requires CsrsOk(csrs)
    ensures MEPC in csrs && csrs[MEPC] == Get(csrs, MEPC)
    ensures MSTATUS in csrs && IsStatus(csrs[MSTATUS])
  {
  }

  lemma EntryRegular(cfg: Config, csrs: map<int, word>, pc: word, cause: word, tval: word)
    requires CsrsOk(csrs) && Get(csrs, MISA) == Misa(cfg) && pc % 2 == 0
    ensures var m := TrapEntryCsrs(csrs, pc, cause, tval); Get(m, MISA) == Misa(cfg) && Get(m, MEPC) % 2 == 0
  {
    EpcIsGet(csrs);
    hide CsrsOk, Get, Checker.Put, StatusOnTrap;
    GetPut(csrs, 0x341, pc);
    var m1 := Checker.Put(csrs, 0x341, pc);
    GetPut(m1, 0x342, cause);
    var m2 := Checker.Put(m1, 0x342, cause);
    GetPut(m2, 0x343, tval);
    GetPut(Checker.Put(m2, 0x343, tval), 0x300, StatusOnTrap(csrs[0x300]));
  }

  lemma VectorEven(mtvec: word, c: int)
    ensures (mtvec - mtvec % 4 + 4 * c) % 2 == 0 && (mtvec - mtvec % 4) % 2 == 0
  {
    var q := mtvec / 4;
    DivUnique(4 * q + 4 * c, 2, 2 * (q + c), 0);
    DivUnique(4 * q, 2, 2 * q, 0);
  }

  lemma TargetsEven(row: Row)
    ensures InterruptFaults(row) == [] ==> row.nextPc % 2 == 0
    ensures row.nextPc == row.mtvec - row.mtvec % 4 ==> row.nextPc % 2 == 0
  {
    VectorEven(row.mtvec, 0);
    VectorEven(row.mtvec, 11);
    VectorEven(row.mtvec, 7);
    if InterruptFaults(row) == [] {
      InterruptLands(row);
    }
  }

  lemma InterruptLands(row: Row)
    requires InterruptFaults(row) == []
    ensures row.nextPc == row.mtvec - row.mtvec % 4
         || row.nextPc == row.mtvec - row.mtvec % 4 + 4 * 11
         || row.nextPc == row.mtvec - row.mtvec % 4 + 4 * 7
  {
    var base, mode := row.mtvec - row.mtvec % 4, row.mtvec % 4;
    assert 0x8000_000B % 0x8000_0000 == 11 && 0x8000_0007 % 0x8000_0000 == 7;
  }

  /** A row that reports nothing keeps the state regular, whatever its register columns name. */
  lemma QuietRowRegular(cfg: Config, s: State, row: Row)
    requires Regular(cfg, s)
    requires !CheckRow(cfg, s, row).raised && CheckRow(cfg, s, row).faults == []
    ensures Regular(cfg, CheckRow(cfg, s, row).state)
  {
    hide CsrsOk, InitialCsrs, ManifestFaults, SnapshotFaults, InterruptFaults, TrapEntryCsrs, ExpectedCause,
      ExpectedTval, ExpectedCompute, ExpectedLoad, ExpectedStore, ExpectedSystem, Get, SetReg, Opcode,
      ResetEpoch, StartsEpoch;
    InitialRegular(cfg, s);
    var s1 := Arrive(cfg, s, row);
    assert row.pc == s1.expectedPc;
    TargetsEven(row);
    if row.intr {
      EntryRegular(cfg, s1.csrs, row.pc, if row.irqLevel then 0x8000_000B else 0x8000_0007, 0);
    } else if row.trap {
      EntryRegular(cfg, s1.csrs, row.pc, ExpectedCause(s1, row), ExpectedTval(s1, row));
    } else {
      ComputeRegular(s1, row);
      SystemRegular(cfg, s1, row);
      AccessNextEven(cfg, s1, row);
    }
  }

  lemma AccessNextEven(cfg: Config, s: State, row: Row)
    requires row.pc % 2 == 0
    ensures ExpectedLoad(cfg, s, row).nextPc % 2 == 0 && ExpectedStore(cfg, s, row).nextPc % 2 == 0
  {
    hide U32, Mmio, MergedLanes, LoadedValue, MemoryWordAddress, Low, Shl, Get, Funct3, Rd;
    EvenTargets(row.pc, 4);
  }

  /** After every accepted trace, misa is constant and the expected PC and mepc are even, also
      when register columns are misnamed. */
  lemma {:induction false} AcceptedStateRegular(cfg: Config, t: seq<Row>)
    requires Accepts(cfg, t)
    ensures Regular(cfg, Check(cfg, t).state)
    decreases |t|
  {
    hide CheckRow, Regular, InitialState;
    if t == [] {
      InitialRegular(cfg, InitialState(cfg));
    } else {
      var n := |t| - 1;
      assert Accepts(cfg, t[..n]);
      AcceptedStateRegular(cfg, t[..n]);
      var o := CheckRow(cfg, Check(cfg, t[..n]).state, t[n]);
      assert |Tag(t[n].order, o.faults)| == |o.faults|;
      QuietRowRegular(cfg, Check(cfg, t[..n]).state, t[n]);
    }
  }

  /** A set or clear with a zero operand is skipped; performing it would give the same
      register, except that it would clear bit 1 of an mepc saved by a trap. */
  lemma SkippedWriteIsHarmless(csr: nat, mode: nat, was: word)
    requires KnownCsr(csr) && Holds(csr, was) && (mode == 2 || mode == 3)
    ensures Legalized(csr, CombineSource(mode, was, 0)) == was <==> csr != MEPC || was % 4 == 0
  {
    hide StatusOnWrite, MieOnWrite, Bit, Bw;
    BwZero(Or, was);
    BwZero(AndNot, was);
    if csr == MSTATUS || csr == MIE {
      ImplementedBitsOnly(csr, was);
    }
  }

  lemma ImplementedBitsOnly(csr: nat, was: word)
    requires Holds(csr, was)
    ensures csr == MSTATUS ==> StatusOnWrite(was) == was
    ensures csr == MIE ==> MieOnWrite(was) == was
  {
    hide StatusOnWrite, MieOnWrite, Bit;
    BitValues(was);
  }
}
