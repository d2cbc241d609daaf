/** Normalisation of a retirement trace to standard RVFI rows: interrupt pseudo-rows go, and
    the row after them carries the flag. */
module Rvfi {
  import opened Bits
  import opened Isa
  import opened Machine
  import opened Refinement
  import opened TraceTheorems
  import opened Wrappers

  /** A normalised row: the legacy columns with these five replaced. */
  datatype Retire = Retire(legacy: Row, order: nat, intr: bool, halt: nat, mode: nat, ixl: nat)

  /** Indices of the rows that are not interrupts. */
  function Kept(rows: seq<Row>, n: nat): (ks: seq<nat>)
    requires n <= |rows|
    ensures forall i :: 0 <= i < |ks| ==> ks[i] < n
  {
    if n == 0 then []
    else if rows[n - 1].intr then Kept(rows, n - 1)
    else Kept(rows, n - 1) + [n - 1]
  }

  function RetireOf(rows: seq<Row>, k: nat, order: nat): Retire
    requires k < |rows|
  {
    Retire(rows[k], order, k > 0 && rows[k - 1].intr, 0, 3, 1)
  }

  /** The normalisation loop. */
  method Normalize(rows: seq<Row>) returns (output: seq<Retire>)
    ensures |output| == |Kept(rows, |rows|)|
    ensures forall i :: 0 <= i < |output| ==> output[i] == RetireOf(rows, Kept(rows, |rows|)[i], i)
    ensures forall i :: 0 <= i < |output| ==>
      && output[i].order == i && output[i].legacy == rows[Kept(rows, |rows|)[i]]
      && (output[i].intr <==> Kept(rows, |rows|)[i] > 0 && rows[Kept(rows, |rows|)[i] - 1].intr)
      && output[i].halt == 0 && output[i].mode == 3 && output[i].ixl == 1
  {
    output := [];
    var pendingIntr := false;
    var order := 0;
    for n := 0 to |rows|
      invariant pendingIntr == (n > 0 && rows[n - 1].intr)
      invariant order == |output| == |Kept(rows, n)|
      invariant forall i :: 0 <= i < |output| ==> output[i] == RetireOf(rows, Kept(rows, n)[i], i)
    {
      if rows[n].intr {
        pendingIntr := true;
      } else {
        output := output + [Retire(rows[n], order, pendingIntr, 0, 3, 1)];
        pendingIntr := false;
        order := order + 1;
      }
    }
  }

  /** The kept rows are exactly the rows that are not interrupts, in order. */
  lemma {:induction false} KeptExactly(rows: seq<Row>, n: nat)
    requires n <= |rows|
    ensures forall i, j :: 0 <= i < j < |Kept(rows, n)| ==> Kept(rows, n)[i] < Kept(rows, n)[j]
    ensures forall k :: k in Kept(rows, n) <==> 0 <= k < n && !rows[k].intr
    decreases n
  {
    if n > 0 {
      KeptExactly(rows, n - 1);
    }
  }

  /** Between two consecutive kept rows there are only interrupt rows. */
  lemma BetweenKept(rows: seq<Row>, i: nat)
    requires i + 1 < |Kept(rows, |rows|)|
    ensures var ks := Kept(rows, |rows|);
            ks[i] < ks[i + 1] && forall k :: ks[i] < k < ks[i + 1] ==> rows[k].intr
  {
    var ks := Kept(rows, |rows|);
    KeptExactly(rows, |rows|);
    forall k | k in ks ensures k <= ks[i] || ks[i + 1] <= k {
      var j :| 0 <= j < |ks| && ks[j] == k;
      assert if j <= i then ks[j] <= ks[i] else ks[i + 1] <= ks[j];
    }
  }

  /** In an accepted trace each row starts where the row before it in its epoch went. */
  lemma PcContinues(cfg: Config, t: seq<Row>, k: nat)
    requires IsaAccepts(cfg, t) && k + 1 < |t| && !StartsAt(t, k + 1)
    ensures t[k + 1].pc == t[k].nextPc
  {
    hide IsaAccepts, StepsTo, After, Boundary;
    AcceptedIff(cfg, t);
    assert StepsAt(cfg, t, k) && StepsAt(cfg, t, k + 1);
    StepColumns(cfg, HartAt(cfg, t, k + 1).value, Position(t, k + 1), t[k + 1]);
    NextPcIsPc(cfg, HartAt(cfg, t, k).value, Position(t, k), t[k]);
    assert HartAt(cfg, t, k + 1) == Some(After(cfg, HartAt(cfg, t, k).value, Position(t, k), t[k]));
    PcOfCommon(cfg, HartAt(cfg, t, k + 1).value, t[k + 1]);
  }

  lemma NextPcIsPc(cfg: Config, h: Hart, order: int, row: Row)
    requires StepsTo(cfg, h, order, row)
    ensures After(cfg, h, order, row).pc == row.nextPc
  {
    hide Rs1, Rs2, Mmio, Opcode, Decode, Execute, LaneMask, LoadSource, Mstatus, MieReg, Mtvec, SetReg, TrapCause;
  }

  lemma PcOfCommon(cfg: Config, h: Hart, row: Row)
    requires CommonColumns(cfg, h, row)
    ensures row.pc == h.pc
  {
  }

  /** Consecutive normalised rows of one epoch of an accepted trace: the later one starts at
      the earlier one's next PC unless flagged; when flagged, the interrupt that precedes it
      was taken at that next PC. */
  lemma NormalizedPcChain(cfg: Config, t: seq<Row>, i: nat)
    requires IsaAccepts(cfg, t) && i + 1 < |Kept(t, |t|)|
    requires var ks := Kept(t, |t|); forall k :: ks[i] < k <= ks[i + 1] ==> !StartsAt(t, k)
    ensures var ks := Kept(t, |t|);
            var flagged := RetireOf(t, ks[i + 1], i + 1).intr;
            && ks[i] < ks[i + 1]
            && (!flagged ==> t[ks[i + 1]].pc == t[ks[i]].nextPc)
            && (flagged ==> ks[i] + 1 < ks[i + 1] && t[ks[i] + 1].intr
                            && t[ks[i] + 1].pc == t[ks[i]].nextPc
                            && t[ks[i + 1]].pc == t[ks[i + 1] - 1].nextPc)
  {
    hide IsaAccepts, StartsAt;
    var ks := Kept(t, |t|);
    BetweenKept(t, i);
    KeptExactly(t, |t|);
    assert ks[i] in ks && !t[ks[i]].intr;
    PcContinues(cfg, t, ks[i]);
    PcContinues(cfg, t, ks[i + 1] - 1);
  }
}
