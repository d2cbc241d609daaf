/** The counter replay: mcycle and minstret predicted row by row after their first access,
    and the closed form of the prediction. */
module Counters {
  import opened Bits
  import opened Isa
  import M = Machine
  import opened Wrappers

  const W64: int := 0x1_0000_0000_0000_0000

  datatype Row = Row(cycle: int, insn: word, intr: bool, rs1Data: word, rdAddr: regnum, rdData: word)

  datatype Counter = Mcycle | Minstret

  datatype Error = Error(counter: Counter, cycle: int, observed: word, expected: word)

  /** The CSR number of a SYSTEM instruction. */
  function CsrOf(insn: word): int {
    if Opcode(insn) == 0x73 then Field(insn, 31, 20) else -1
  }

  predicate Accesses(row: Row, counter: Counter) {
    CsrOf(row.insn) == LowCsr(counter) || CsrOf(row.insn) == HighCsr(counter)
  }

  function LowCsr(counter: Counter): int { if counter.Mcycle? then 0xB00 else 0xB02 }

  function HighCsr(counter: Counter): int { if counter.Mcycle? then 0xB80 else 0xB82 }

  predicate High(row: Row) {
    CsrOf(row.insn) == 0xB80 || CsrOf(row.insn) == 0xB82
  }

  /** csr_update: the new value, and whether the instruction writes. */
  function CsrUpdate(was: word, insn: word, rs1Data: word): (word, bool) {
    var source := if Funct3(insn) / 4 == 1 then Rs1(insn) else rs1Data;
    var mode := Funct3(insn) % 4;
    if mode == 1 then (source, true)
    else if mode == 2 && source != 0 then (BitOr(was, source), true)
    else if mode == 3 && source != 0 then (BitClear(was, source), true)
    else (was, false)
  }

  function Half(v: word64, high: bool): word {
    if high then v / W else v % W
  }

  /** (v & ~mask) | (half << shift): one half replaced, the other kept. */
  function WithHalf(v: word64, high: bool, half: word): (r: word64)
    ensures r == if high then v % W + half * W else v - v % W + half
  {
    var shift := if high then 32 else 0;
    HalfReplaced(v, high, half);
    Bw(Or, Bw(AndNot, v, Shl(0xFFFF_FFFF, shift)), Shl(half, shift))
  }

  lemma HalfReplaced(v: word64, high: bool, half: word)
    ensures Bw(Or, Bw(AndNot, v, Shl(0xFFFF_FFFF, if high then 32 else 0)), Shl(half, if high then 32 else 0))
         == if high then v % W + half * W else v - v % W + half
  {
    hide Bw, Shl, P2, Shr, Low;
    P2Values();
    ShrIsDiv(v, 32);
    if high {
      HighReplaced(v, half);
    } else {
      ShlIsMul(0xFFFF_FFFF, 0);
      ShlIsMul(half, 0);
      LowMask(v, 32);
      OrDisjoint(v / W, half, 32);
    }
  }

  lemma HighReplaced(v: word64, half: word)
    ensures Bw(Or, Bw(AndNot, v, Shl(0xFFFF_FFFF, 32)), Shl(half, 32)) == v % W + half * W
  {
    hide Bw, Shl, P2, Shr, Low;
    P2Values();
    ShrIsDiv(v, 32);
    ShlIsMul(0xFFFF_FFFF, 32);
    ShlIsMul(half, 32);
    ShrLowUnique(Shl(0xFFFF_FFFF, 32), 32, 0xFFFF_FFFF, 0);
    ShrLowUnique(Shl(half, 32), 32, half, 0);
    var kept := Bw(AndNot, v, Shl(0xFFFF_FFFF, 32));
    BwSplit(AndNot, v, Shl(0xFFFF_FFFF, 32), 32);
    BwZero(AndNot, v % W);
    LowMask(v / W, 32);
    LowFits(v / W, 32);
    BwSplit(Or, kept, Shl(half, 32), 32);
    BwZero(Or, v % W);
    BwZero(Or, half);
    ShrLow(Bw(Or, kept, Shl(half, 32)), 32);
  }

  /** The counter value that a first access implies, the other half taken as zero. */
  function FirstValue(row: Row): word64 {
    if High(row) then row.rdData * W else row.rdData
  }

  function Written(v: word64, row: Row): (word64, bool) {
    var (half, wrote) := CsrUpdate(Half(v, High(row)), row.insn, row.rs1Data);
    (if wrote then WithHalf(v, High(row), half) else v, wrote)
  }

  function Wrap64(v: int): word64 { v % W64 }

  function Increment(v: word64): word64 { Wrap64(v + 1) }

  // ----- the replay -----

  datatype State = State(mcyclePost: Option<word64>, minstretNext: Option<word64>, lastCycle: Option<int>)

  function Max(a: int, b: int): int { if a > b then a else b }

  /** mcycle as row sees it, before it acts on it. */
  function McyclePre(s: State, row: Row): Option<word64> {
    if s.mcyclePost.Some? && s.lastCycle.Some? then
      Some(Wrap64(s.mcyclePost.value + Max(0, row.cycle - s.lastCycle.value - 1)))
    else None
  }

  /** The value the replay expects a counter access to read. */
  function Expected(s: State, row: Row, counter: Counter): word64 {
    var known := if counter.Mcycle? then McyclePre(s, row) else s.minstretNext;
    if known.Some? then known.value else FirstValue(row)
  }

  function ReplayRow(s: State, row: Row): State {
    var pre := McyclePre(s, row);
    var mcyclePost :=
      if Accesses(row, Mcycle) then
        var (v, wrote) := Written(Expected(s, row, Mcycle), row);
        Some(if wrote then v else Increment(v))
      else if pre.Some? then Some(Increment(pre.value))
      else s.mcyclePost;
    var minstret :=
      if Accesses(row, Minstret) then Some(Written(Expected(s, row, Minstret), row).0) else s.minstretNext;
    State(mcyclePost,
          if minstret.Some? && !row.intr then Some(Increment(minstret.value)) else minstret,
          Some(row.cycle))
  }

  function RowErrors(s: State, row: Row, counter: Counter): seq<Error> {
    var expected := Half(Expected(s, row, counter), High(row));
    if Accesses(row, counter) && row.rdAddr != 0 && row.rdData != expected
    then [Error(counter, row.cycle, row.rdData, expected)] else []
  }

  function Replay(rows: seq<Row>): State {
    if rows == [] then State(None, None, None)
    else ReplayRow(Replay(rows[..|rows| - 1]), rows[|rows| - 1])
  }

  function ReplayErrors(rows: seq<Row>): seq<Error> {
    if rows == [] then []
    else
      var n := |rows| - 1;
      var s := Replay(rows[..n]);
      ReplayErrors(rows[..n]) + RowErrors(s, rows[n], Mcycle) + RowErrors(s, rows[n], Minstret)
  }

  lemma NothingReplayed()
    ensures Replay([]) == State(None, None, None) && ReplayErrors([]) == []
  {
  }

  lemma ReplaySnoc(rows: seq<Row>, n: nat)
    requires n < |rows|
    ensures var s := Replay(rows[..n]);
            && Replay(rows[..n + 1]) == ReplayRow(s, rows[n])
            && ReplayErrors(rows[..n + 1])
               == ReplayErrors(rows[..n]) + RowErrors(s, rows[n], Mcycle) + RowErrors(s, rows[n], Minstret)
  {
    hide ReplayRow, RowErrors;
    assert rows[..n + 1][..n] == rows[..n];
  }

  /** validate_counter_trace */
  method ValidateCounterTrace(rows: seq<Row>) returns (errors: seq<Error>)
    ensures errors == ReplayErrors(rows)
    ensures StrictlyIncreasing(rows) ==> errors == ClosedErrors(rows)
    ensures StrictlyIncreasing(rows) ==> DeltasJudged(rows, errors)
  {
    hide CsrOf, Half, Written, Wrap64, Max, FirstValue, Replay, ReplayErrors, DeltasJudged;
    NothingReplayed();
    errors := [];
    var mcyclePost: Option<word64>, minstretNext: Option<word64>, lastCycle: Option<int> := None, None, None;
    for n := 0 to |rows|
      invariant errors == ReplayErrors(rows[..n])
      invariant State(mcyclePost, minstretNext, lastCycle) == Replay(rows[..n])
    {
      var row := rows[n];
      ReplaySnoc(rows, n);
      ghost var s := State(mcyclePost, minstretNext, lastCycle);
      var mcyclePre: Option<word64> := None;
      if mcyclePost.Some? && lastCycle.Some? {
        mcyclePre := Some(Wrap64(mcyclePost.value + Max(0, row.cycle - lastCycle.value - 1)));
      }
      if Accesses(row, Mcycle) {
        if mcyclePre.None? {
          mcyclePre := Some(FirstValue(row));
        }
        var expected := Half(mcyclePre.value, High(row));
        if row.rdAddr != 0 && row.rdData != expected {
          errors := errors + [Error(Mcycle, row.cycle, row.rdData, expected)];
        }
        var (v, wrote) := Written(mcyclePre.value, row);
        mcyclePost := Some(if wrote then v else Increment(v));
      } else if mcyclePre.Some? {
        mcyclePost := Some(Increment(mcyclePre.value));
      }
      assert errors == ReplayErrors(rows[..n]) + RowErrors(s, row, Mcycle);
      if Accesses(row, Minstret) {
        if minstretNext.None? {
          minstretNext := Some(FirstValue(row));
        }
        var expected := Half(minstretNext.value, High(row));
        if row.rdAddr != 0 && row.rdData != expected {
          errors := errors + [Error(Minstret, row.cycle, row.rdData, expected)];
        }
        minstretNext := Some(Written(minstretNext.value, row).0);
      }
      if minstretNext.Some? && !row.intr {
        minstretNext := Some(Increment(minstretNext.value));
      }
      lastCycle := Some(row.cycle);
    }
    assert rows[..|rows|] == rows;
    if StrictlyIncreasing(rows) {
      ErrorsClosedForm(rows);
      DeltasAreJudged(rows);
    }
  }

  // ----- the closed form -----

  ghost predicate StrictlyIncreasing(rows: seq<Row>) {
    forall i, j :: 0 <= i < j < |rows| ==> rows[i].cycle < rows[j].cycle
  }

  /** The row that last fixed a counter: its first access, or its last write. */
  datatype Anchor = Anchor(row: nat, value: word64, wrote: bool)

  /** Rows from a up to b, not counting interrupts. */
  function Retired(rows: seq<Row>, a: nat, b: nat): nat
    requires a <= b <= |rows|
    decreases b
  {
    if a == b then 0 else Retired(rows, a, b - 1) + (if rows[b - 1].intr then 0 else 1)
  }

  /** mcycle before wrapping, at a cycle after its anchor. */
  function Counted(a: Anchor, anchorCycle: int, cycle: int): int {
    a.value + cycle - anchorCycle - (if a.wrote then 1 else 0)
  }

  /** A counter at row n, from its anchor: mcycle counts the cycles since, one fewer when the
      anchor wrote it; minstret counts the rows since that are not interrupts. */
  function ValueAt(rows: seq<Row>, counter: Counter, a: Anchor, n: nat): word64
    requires a.row <= n < |rows|
  {
    if counter.Mcycle? then Wrap64(Counted(a, rows[a.row].cycle, rows[n].cycle))
    else Wrap64(a.value + Retired(rows, a.row, n))
  }

  /** What an access at row n is expected to read. */
  function ClosedExpected(rows: seq<Row>, counter: Counter, n: nat): word64
    requires n < |rows|
    decreases n, 1
  {
    var a := AnchorBefore(rows, counter, n);
    if a.Some? then ValueAt(rows, counter, a.value, n) else FirstValue(rows[n])
  }

  function AnchorBefore(rows: seq<Row>, counter: Counter, n: nat): (a: Option<Anchor>)
    requires n <= |rows|
    ensures a.Some? ==> a.value.row < n
    decreases n, 0
  {
    if n == 0 then None
    else
      var before := AnchorBefore(rows, counter, n - 1);
      if !Accesses(rows[n - 1], counter) then before
      else
        var (v, wrote) := Written(ClosedExpected(rows, counter, n - 1), rows[n - 1]);
        if wrote then Some(Anchor(n - 1, v, true))
        else if before.None? then Some(Anchor(n - 1, v, false))
        else before
  }

  function ClosedRowErrors(rows: seq<Row>, counter: Counter, n: nat): seq<Error>
    requires n < |rows|
  {
    var row := rows[n];
    var expected := Half(ClosedExpected(rows, counter, n), High(row));
    if Accesses(row, counter) && row.rdAddr != 0 && row.rdData != expected
    then [Error(counter, row.cycle, row.rdData, expected)] else []
  }

  function ClosedErrorsTo(rows: seq<Row>, n: nat): seq<Error>
    requires n <= |rows|
  {
    if n == 0 then []
    else ClosedErrorsTo(rows, n - 1) + ClosedRowErrors(rows, Mcycle, n - 1) + ClosedRowErrors(rows, Minstret, n - 1)
  }

  function ClosedErrors(rows: seq<Row>): seq<Error> {
    ClosedErrorsTo(rows, |rows|)
  }

  // ----- the two agree -----

  lemma Wrap64Add(v: int, k: int)
    ensures Wrap64(Wrap64(v) + k) == Wrap64(v + k)
  {
    DivUnique(v + k, W64, (Wrap64(v) + k) / W64 + v / W64, (Wrap64(v) + k) % W64);
  }

  /** The replay's mcycle state after n rows, from the anchor. */
  ghost predicate McycleMatches(rows: seq<Row>, n: nat, s: State)
    requires n <= |rows|
  {
    var a := AnchorBefore(rows, Mcycle, n);
    && s.lastCycle == (if n == 0 then None else Some(rows[n - 1].cycle))
    && s.mcyclePost == (if a.None? then None
                        else Some(Wrap64(Counted(a.value, rows[a.value.row].cycle, rows[n - 1].cycle) + 1)))
  }

  ghost predicate MinstretMatches(rows: seq<Row>, n: nat, s: State)
    requires n <= |rows|
  {
    var b := AnchorBefore(rows, Minstret, n);
    s.minstretNext == (if b.None? then None else Some(Wrap64(b.value.value + Retired(rows, b.value.row, n))))
  }

  /** In a matching state the replay expects the closed form. */
  lemma MinstretExpected(rows: seq<Row>, n: nat, s: State)
    requires n < |rows| && MinstretMatches(rows, n, s)
    ensures Expected(s, rows[n], Minstret) == ClosedExpected(rows, Minstret, n)
  {
    hide Wrap64, FirstValue, AnchorBefore, Retired;
  }

  lemma McycleExpected(rows: seq<Row>, n: nat, s: State)
    requires n < |rows| && McycleMatches(rows, n, s)
    requires n > 0 ==> rows[n - 1].cycle < rows[n].cycle
    ensures Expected(s, rows[n], Mcycle) == ClosedExpected(rows, Mcycle, n)
    ensures McyclePre(s, rows[n]).Some? <==> AnchorBefore(rows, Mcycle, n).Some?
  {
    hide Wrap64, Counted, Max, FirstValue, AnchorBefore;
    var a := AnchorBefore(rows, Mcycle, n);
    if a.Some? {
      ElapsedCycles(a.value, rows[a.value.row].cycle, rows[n - 1].cycle, rows[n].cycle);
    }
  }

  lemma ElapsedCycles(a: Anchor, anchorCycle: int, previous: int, cycle: int)
    requires previous < cycle
    ensures Wrap64(Wrap64(Counted(a, anchorCycle, previous) + 1) + Max(0, cycle - previous - 1))
         == Wrap64(Counted(a, anchorCycle, cycle))
  {
    hide Wrap64;
    Wrap64Add(Counted(a, anchorCycle, previous) + 1, cycle - previous - 1);
  }

  lemma McycleStep(rows: seq<Row>, n: nat, s: State)
    requires n < |rows| && McycleMatches(rows, n, s)
    requires n > 0 ==> rows[n - 1].cycle < rows[n].cycle
    ensures McycleMatches(rows, n + 1, ReplayRow(s, rows[n]))
  {
    hide Wrap64, Written, FirstValue, CsrOf, High, Expected, McyclePre, ClosedExpected;
    McycleExpected(rows, n, s);
    var pre := ClosedExpected(rows, Mcycle, n);
    ReadKeeps(pre, rows[n]);
    WrapFits(Written(pre, rows[n]).0);
    PreIsExpected(s, rows[n]);
    ClosedFromAnchor(rows, n);
    var before := AnchorBefore(rows, Mcycle, n);
    if before.Some? {
      Wrap64Add(Counted(before.value, rows[before.value.row].cycle, rows[n].cycle), 1);
    }
  }

  lemma PreIsExpected(s: State, row: Row)
    ensures McyclePre(s, row).Some? ==> McyclePre(s, row).value == Expected(s, row, Mcycle)
    ensures McyclePre(s, row).None? && s.lastCycle.Some? ==> s.mcyclePost.None?
  {
  }

  lemma ClosedFromAnchor(rows: seq<Row>, n: nat)
    requires n < |rows|
    ensures var a := AnchorBefore(rows, Mcycle, n);
            a.Some? ==>
              ClosedExpected(rows, Mcycle, n) == Wrap64(Counted(a.value, rows[a.value.row].cycle, rows[n].cycle))
  {
    hide Wrap64, Counted, AnchorBefore;
  }

  lemma ReadKeeps(v: word64, row: Row)
    ensures !Written(v, row).1 ==> Written(v, row).0 == v
  {
  }

  lemma WrapFits(v: word64)
    ensures Wrap64(v) == v
  {
  }

  lemma MinstretStep(rows: seq<Row>, n: nat, s: State)
    requires n < |rows| && MinstretMatches(rows, n, s)
    ensures MinstretMatches(rows, n + 1, ReplayRow(s, rows[n]))
  {
    hide Wrap64, Written, FirstValue, CsrOf, High, Expected, McyclePre, ClosedExpected;
    MinstretExpected(rows, n, s);
    var pre := ClosedExpected(rows, Minstret, n);
    ReadKeeps(pre, rows[n]);
    var v := Written(pre, rows[n]).0;
    WrapFits(v);
    assert Retired(rows, n, n) == 0;
    Wrap64Add(v, 1);
    var before := AnchorBefore(rows, Minstret, n);
    if before.Some? {
      MinstretFromAnchor(rows, n);
      Wrap64Add(before.value.value + Retired(rows, before.value.row, n), 1);
    }
  }

  lemma MinstretFromAnchor(rows: seq<Row>, n: nat)
    requires n < |rows| && AnchorBefore(rows, Minstret, n).Some?
    ensures var b := AnchorBefore(rows, Minstret, n).value;
            ClosedExpected(rows, Minstret, n) == Wrap64(b.value + Retired(rows, b.row, n))
  {
    hide Wrap64, Retired, AnchorBefore;
  }

  lemma {:induction false} ReplayMatches(rows: seq<Row>, n: nat)
    requires n <= |rows| && StrictlyIncreasing(rows)
    ensures McycleMatches(rows, n, Replay(rows[..n])) && MinstretMatches(rows, n, Replay(rows[..n]))
    decreases n
  {
    hide ReplayRow, McycleMatches, MinstretMatches;
    if n > 0 {
      assert rows[..n][..n - 1] == rows[..n - 1];
      var s := Replay(rows[..n - 1]);
      ReplayMatches(rows, n - 1);
      McycleStep(rows, n - 1, s);
      MinstretStep(rows, n - 1, s);
    } else {
      StartMatches(rows);
    }
  }

  lemma StartMatches(rows: seq<Row>)
    ensures McycleMatches(rows, 0, State(None, None, None)) && MinstretMatches(rows, 0, State(None, None, None))
  {
  }

  lemma {:induction false} ErrorsTo(rows: seq<Row>, n: nat)
    requires n <= |rows| && StrictlyIncreasing(rows)
    ensures ReplayErrors(rows[..n]) == ClosedErrorsTo(rows, n)
    decreases n
  {
    hide Expected, ClosedExpected, ReplayRow, Half, CsrOf, High, McycleMatches, MinstretMatches, Accesses;
    if n > 0 {
      assert rows[..n][..n - 1] == rows[..n - 1];
      var s := Replay(rows[..n - 1]);
      ErrorsTo(rows, n - 1);
      ReplayMatches(rows, n - 1);
      McycleExpected(rows, n - 1, s);
      MinstretExpected(rows, n - 1, s);
    }
  }

  /** For strictly increasing cycles, the replay reports exactly the closed-form errors. */
  lemma ErrorsClosedForm(rows: seq<Row>)
    requires StrictlyIncreasing(rows)
    ensures ReplayErrors(rows) == ClosedErrors(rows)
  {
    ErrorsTo(rows, |rows|);
    assert rows[..|rows|] == rows;
  }

  /** Row n reads a counter into a register. */
  predicate ReadsInto(row: Row, counter: Counter) {
    Accesses(row, counter) && row.rdAddr != 0
  }

  /** If row n reads the counter, it shows the closed-form value. */
  predicate ReadsRight(rows: seq<Row>, counter: Counter, n: nat)
    requires n < |rows|
  {
    ReadsInto(rows[n], counter) ==> rows[n].rdData == Half(ClosedExpected(rows, counter, n), High(rows[n]))
  }

  lemma RowQuiet(rows: seq<Row>, c: Counter, n: nat)
    requires n < |rows|
    ensures ClosedRowErrors(rows, c, n) == [] <==> ReadsRight(rows, c, n)
  {
    hide ClosedExpected, Half, CsrOf, High;
  }

  lemma {:induction false} NoClosedErrors(rows: seq<Row>, n: nat)
    requires n <= |rows|
    ensures ClosedErrorsTo(rows, n) == [] <==>
      forall k :: 0 <= k < n ==> ReadsRight(rows, Mcycle, k) && ReadsRight(rows, Minstret, k)
    decreases n
  {
    hide ClosedRowErrors, ReadsRight;
    if n > 0 {
      NoClosedErrors(rows, n - 1);
      RowQuiet(rows, Mcycle, n - 1);
      RowQuiet(rows, Minstret, n - 1);
    }
  }

  /** No errors means exactly that every read into a register shows the closed-form value. */
  lemma NoErrorsIff(rows: seq<Row>)
    requires StrictlyIncreasing(rows)
    ensures ReplayErrors(rows) == [] <==>
      forall k :: 0 <= k < |rows| ==> ReadsRight(rows, Mcycle, k) && ReadsRight(rows, Minstret, k)
  {
    hide ReadsRight;
    ErrorsClosedForm(rows);
    NoClosedErrors(rows, |rows|);
  }

  /** Which rows access which counter, and which half. */
  lemma AccessNumbers(row: Row)
    ensures var csr := Field(row.insn, 31, 20);
            && (Accesses(row, Mcycle) <==> Opcode(row.insn) == 0x73 && (csr == 0xB00 || csr == 0xB80))
            && (Accesses(row, Minstret) <==> Opcode(row.insn) == 0x73 && (csr == 0xB02 || csr == 0xB82))
            && (High(row) <==> Opcode(row.insn) == 0x73 && (csr == 0xB80 || csr == 0xB82))
    ensures Decode(row.insn).Some? && Decode(row.insn).value.Csr? ==>
      var n := Decode(row.insn).value.csr;
      && (Accesses(row, Mcycle) <==> n == 0xB00 || n == 0xB80)
      && (Accesses(row, Minstret) <==> n == 0xB02 || n == 0xB82)
      && (High(row) <==> n == 0xB80 || n == 0xB82)
  {
    hide Opcode, Funct3, Funct7, Field, Rd, Rs1, Rs2, DecodeAlu, DecodeAluImm, DecodeBranch, DecodeMul, DecodeSize,
      ImmB, ImmI, ImmJ, ImmS, ImmU;
  }

  // ----- deltas between reads -----

  /** The low half's CSR number. */
  function LowNumber(counter: Counter): int {
    match counter
    case Mcycle => 0xB00
    case Minstret => 0xB02
  }

  predicate Touches(row: Row, counter: Counter) {
    && Opcode(row.insn) == 0x73
    && (Field(row.insn, 31, 20) == LowNumber(counter) || Field(row.insn, 31, 20) == LowNumber(counter) + 0x80)
  }

  /** The row reads the low half into a register and writes nothing: csrrs or csrrc with a
      zero operand. */
  predicate PlainRead(row: Row, counter: Counter) {
    && Opcode(row.insn) == 0x73 && Field(row.insn, 31, 20) == LowNumber(counter)
    && (Funct3(row.insn) == 2 || Funct3(row.insn) == 3) && row.rs1Data == 0 && row.rdAddr != 0
  }

  /** Rows i and j read the counter, and no row between touches it. */
  ghost predicate ReadPair(rows: seq<Row>, counter: Counter, i: nat, j: nat) {
    && i < j < |rows| && PlainRead(rows[i], counter) && PlainRead(rows[j], counter)
    && forall k :: i < k < j ==> !Touches(rows[k], counter)
  }

  /** What the counter advances by: cycles, or rows that are not interrupts. */
  function Advance(rows: seq<Row>, counter: Counter, i: nat, j: nat): int
    requires i <= j < |rows|
  {
    match counter
    case Mcycle => rows[j].cycle - rows[i].cycle
    case Minstret => |Retirements(rows, i, j)|
  }

  function Retirements(rows: seq<Row>, a: nat, b: nat): set<int>
    requires a <= b <= |rows|
  {
    set k | a <= k < b && !rows[k].intr
  }

  ghost predicate Reported(errors: seq<Error>, counter: Counter, cycle: int) {
    exists k :: 0 <= k < |errors| && errors[k].counter == counter && errors[k].cycle == cycle
  }

  /** If the first read of a pair is not reported, the second is, exactly when it is not the
      first plus the advance modulo 2^32. */
  ghost predicate DeltasJudged(rows: seq<Row>, errors: seq<Error>) {
    forall counter, i: nat, j: nat ::
      ReadPair(rows, counter, i, j) && !Reported(errors, counter, rows[i].cycle) ==>
        (Reported(errors, counter, rows[j].cycle) <==>
          rows[j].rdData != (rows[i].rdData + Advance(rows, counter, i, j)) % W)
  }

  lemma PlainReadMeans(row: Row, counter: Counter)
    requires PlainRead(row, counter)
    ensures Accesses(row, counter) && !High(row) && ReadsInto(row, counter)
    ensures forall v: word64 :: Written(v, row) == (v, false)
  {
    hide Opcode, Field, Funct3, Half, WithHalf, Rs1, BitOr, BitClear;
    assert Funct3(row.insn) / 4 == 0 && Funct3(row.insn) % 4 == Funct3(row.insn);
  }

  lemma TouchesIff(row: Row, counter: Counter)
    ensures Touches(row, counter) <==> Accesses(row, counter)
  {
    hide Opcode, Field;
  }

  lemma {:induction false} RetiredCount(rows: seq<Row>, a: nat, b: nat)
    requires a <= b <= |rows|
    ensures Retired(rows, a, b) == |Retirements(rows, a, b)|
    decreases b
  {
    if a == b {
      assert Retirements(rows, a, b) == {};
    } else {
      RetiredCount(rows, a, b - 1);
      var rest := Retirements(rows, a, b - 1);
      assert b - 1 !in rest;
      assert Retirements(rows, a, b) == if rows[b - 1].intr then rest else rest + {b - 1};
    }
  }

  lemma {:induction false} RetiredSplit(rows: seq<Row>, a: nat, b: nat, c: nat)
    requires a <= b <= c <= |rows|
    ensures Retired(rows, a, c) == Retired(rows, a, b) + Retired(rows, b, c)
    decreases c
  {
    if b < c {
      RetiredSplit(rows, a, b, c - 1);
    }
  }

  /** Without an access, the anchor stays. */
  lemma {:induction false} AnchorStays(rows: seq<Row>, counter: Counter, m: nat, n: nat)
    requires m <= n <= |rows| && forall k :: m <= k < n ==> !Accesses(rows[k], counter)
    ensures AnchorBefore(rows, counter, n) == AnchorBefore(rows, counter, m)
    decreases n
  {
    hide Accesses, Written, ClosedExpected;
    if m < n {
      AnchorStays(rows, counter, m, n - 1);
    }
  }

  /** Between the reads of a pair the expected value advances. */
  lemma PairAdvances(rows: seq<Row>, counter: Counter, i: nat, j: nat)
    requires ReadPair(rows, counter, i, j)
    ensures ClosedExpected(rows, counter, j) == Wrap64(ClosedExpected(rows, counter, i) + Advance(rows, counter, i, j))
  {
    hide Accesses, Touches, PlainRead, Written, Wrap64, FirstValue, Advance, ClosedExpected, ValueAt, AnchorBefore;
    PlainReadMeans(rows[i], counter);
    forall k | i < k < j ensures !Accesses(rows[k], counter) {
      TouchesIff(rows[k], counter);
    }
    AnchorStays(rows, counter, i + 1, j);
    AnchorAtRead(rows, counter, i);
    FromAnchor(rows, counter, j);
    var before := AnchorBefore(rows, counter, i);
    if before.Some? {
      FromAnchor(rows, counter, i);
      ValueAdvances(rows, counter, before.value, i, j);
    } else {
      ReadAnchorAdvances(rows, counter, Anchor(i, ClosedExpected(rows, counter, i), false), j);
    }
  }

  lemma FromAnchor(rows: seq<Row>, counter: Counter, n: nat)
    requires n < |rows| && AnchorBefore(rows, counter, n).Some?
    ensures ClosedExpected(rows, counter, n) == ValueAt(rows, counter, AnchorBefore(rows, counter, n).value, n)
  {
    hide ValueAt, AnchorBefore;
  }

  lemma ValueAdvances(rows: seq<Row>, counter: Counter, a: Anchor, i: nat, j: nat)
    requires a.row <= i <= j < |rows|
    ensures ValueAt(rows, counter, a, j) == Wrap64(ValueAt(rows, counter, a, i) + Advance(rows, counter, i, j))
  {
    hide Wrap64, Retired, Retirements;
    RetiredCount(rows, i, j);
    RetiredSplit(rows, a.row, i, j);
    Wrap64Add(Counted(a, rows[a.row].cycle, rows[i].cycle), rows[j].cycle - rows[i].cycle);
    Wrap64Add(a.value + Retired(rows, a.row, i), Retired(rows, i, j));
  }

  lemma ReadAnchorAdvances(rows: seq<Row>, counter: Counter, a: Anchor, j: nat)
    requires a.row <= j < |rows| && !a.wrote
    ensures ValueAt(rows, counter, a, j) == Wrap64(a.value + Advance(rows, counter, a.row, j))
  {
    hide Wrap64, Retired, Retirements;
    RetiredCount(rows, a.row, j);
  }

  /** A read that writes nothing anchors a counter that has no anchor, with what it expects. */
  lemma AnchorAtRead(rows: seq<Row>, counter: Counter, i: nat)
    requires i < |rows| && Accesses(rows[i], counter)
    requires Written(ClosedExpected(rows, counter, i), rows[i]) == (ClosedExpected(rows, counter, i), false)
    ensures AnchorBefore(rows, counter, i + 1) ==
      if AnchorBefore(rows, counter, i).Some? then AnchorBefore(rows, counter, i)
      else Some(Anchor(i, ClosedExpected(rows, counter, i), false))
  {
    hide Accesses, Written, ClosedExpected;
  }

  /** An error is reported for row n exactly when the row's own check fails. */
  lemma {:induction false} ReportedIff(rows: seq<Row>, counter: Counter, m: nat, n: nat)
    requires n < m <= |rows| && StrictlyIncreasing(rows)
    ensures Reported(ClosedErrorsTo(rows, m), counter, rows[n].cycle) <==> !ReadsRight(rows, counter, n)
    decreases m
  {
    hide ReadsRight, ClosedRowErrors;
    var before := ClosedErrorsTo(rows, m - 1);
    var c, i := ClosedRowErrors(rows, Mcycle, m - 1), ClosedRowErrors(rows, Minstret, m - 1);
    ReportedSum(before, c, i, counter, rows[n].cycle);
    RowReported(rows, Mcycle, m - 1, counter, rows[n].cycle);
    RowReported(rows, Minstret, m - 1, counter, rows[n].cycle);
    if n < m - 1 {
      ReportedIff(rows, counter, m - 1, n);
    } else {
      NotYetReported(rows, counter, m - 1, rows[n].cycle);
    }
  }

  lemma ReportedSum(a: seq<Error>, b: seq<Error>, c: seq<Error>, counter: Counter, cycle: int)
    ensures Reported(a + b + c, counter, cycle) <==>
      Reported(a, counter, cycle) || Reported(b, counter, cycle) || Reported(c, counter, cycle)
  {
    var s := a + b + c;
    if Reported(a, counter, cycle) {
      var k :| 0 <= k < |a| && a[k].counter == counter && a[k].cycle == cycle;
      assert s[k] == a[k];
    }
    if Reported(b, counter, cycle) {
      var k :| 0 <= k < |b| && b[k].counter == counter && b[k].cycle == cycle;
      assert s[|a| + k] == b[k];
    }
    if Reported(c, counter, cycle) {
      var k :| 0 <= k < |c| && c[k].counter == counter && c[k].cycle == cycle;
      assert s[|a| + |b| + k] == c[k];
    }
  }

  lemma RowReported(rows: seq<Row>, c: Counter, n: nat, counter: Counter, cycle: int)
    requires n < |rows|
    ensures Reported(ClosedRowErrors(rows, c, n), counter, cycle) <==>
      c == counter && rows[n].cycle == cycle && !ReadsRight(rows, c, n)
  {
    var errors := ClosedRowErrors(rows, c, n);
    RowQuiet(rows, c, n);
    hide ReadsRight, ClosedExpected, Half, CsrOf, High, Accesses;
    if errors != [] {
      assert errors[0].counter == c && errors[0].cycle == rows[n].cycle;
    }
  }

  lemma {:induction false} NotYetReported(rows: seq<Row>, counter: Counter, m: nat, cycle: int)
    requires m <= |rows| && forall k :: 0 <= k < m ==> rows[k].cycle < cycle
    ensures !Reported(ClosedErrorsTo(rows, m), counter, cycle)
    decreases m
  {
    hide ClosedRowErrors, ReadsRight;
    if m > 0 {
      NotYetReported(rows, counter, m - 1, cycle);
      RowReported(rows, Mcycle, m - 1, counter, cycle);
      RowReported(rows, Minstret, m - 1, counter, cycle);
      var c, i := ClosedRowErrors(rows, Mcycle, m - 1), ClosedRowErrors(rows, Minstret, m - 1);
      ReportedSum(ClosedErrorsTo(rows, m - 1), c, i, counter, cycle);
    }
  }

  /** Adding commutes with taking the low half. */
  lemma LowHalfAdds(v: word64, d: int)
    ensures Half(Wrap64(v + d), false) == (Half(v, false) + d) % W
  {
    var s := v + d;
    U32Shift(s % W64, s / W64 * W);
    assert s == s % W64 + s / W64 * W * W;
    U32Shift(v % W + d, v / W);
    assert v == v % W + v / W * W;
  }

  lemma DeltasAreJudged(rows: seq<Row>)
    requires StrictlyIncreasing(rows)
    ensures DeltasJudged(rows, ReplayErrors(rows))
  {
    hide ReplayErrors, ClosedErrorsTo, Advance, PlainRead, Touches, Reported, StrictlyIncreasing;
    ErrorsClosedForm(rows);
    forall counter, i: nat, j: nat |
      ReadPair(rows, counter, i, j) && !Reported(ReplayErrors(rows), counter, rows[i].cycle)
      ensures Reported(ReplayErrors(rows), counter, rows[j].cycle) <==>
        rows[j].rdData != (rows[i].rdData + Advance(rows, counter, i, j)) % W
    {
      PairJudged(rows, counter, i, j);
    }
  }

  lemma PairJudged(rows: seq<Row>, counter: Counter, i: nat, j: nat)
    requires StrictlyIncreasing(rows) && ReadPair(rows, counter, i, j)
    requires !Reported(ClosedErrors(rows), counter, rows[i].cycle)
    ensures Reported(ClosedErrors(rows), counter, rows[j].cycle) <==>
      rows[j].rdData != (rows[i].rdData + Advance(rows, counter, i, j)) % W
  {
    hide ClosedErrorsTo, ClosedExpected, Advance, Half, Wrap64, PlainRead, Touches, Accesses, Reported, Written, High;
    PlainReadMeans(rows[i], counter);
    PlainReadMeans(rows[j], counter);
    ReportedIff(rows, counter, |rows|, i);
    ReportedIff(rows, counter, |rows|, j);
    PairAdvances(rows, counter, i, j);
    LowHalfAdds(ClosedExpected(rows, counter, i), Advance(rows, counter, i, j));
  }

  /** The update of a half by a CSR instruction is the hart's: what it writes, and whether. */
  lemma UpdateIsAccess(was: word, insn: word, rs1Data: word)
    requires Decode(insn).Some? && Decode(insn).value.Csr?
    ensures var instr := Decode(insn).value;
            var operand: word := if instr.source.Register? then rs1Data else instr.source.z;
            CsrUpdate(was, insn, rs1Data) ==
              if instr.csrOp == ReadWrite || operand != 0 then (M.CsrCombine(instr.csrOp, was, operand), true)
              else (was, false)
  {
    hide Opcode, Field, Rs1, BitOr, BitClear, DecodeAlu, DecodeAluImm, DecodeBranch, DecodeMul, DecodeSize,
      ImmB, ImmI, ImmJ, ImmS, ImmU;
  }

  /** The value that a first access implies shows what the access read, the other half zero. */
  lemma FirstAccess(row: Row)
    ensures Half(FirstValue(row), High(row)) == row.rdData && Half(FirstValue(row), !High(row)) == 0
  {
    hide CsrOf;
    DivUnique(row.rdData * W, W, row.rdData, 0);
    DivUnique(row.rdData, W, 0, row.rdData);
  }

  /** Writing one half keeps the other, and counting on carries from the low half into the high one. */
  lemma HalvesIndependent(v: word64, high: bool, half: word)
    ensures Half(WithHalf(v, high, half), high) == half
    ensures Half(WithHalf(v, high, half), !high) == Half(v, !high)
    ensures Half(v, false) == 0xFFFF_FFFF ==>
      Half(Wrap64(v + 1), false) == 0 && Half(Wrap64(v + 1), true) == U32(Half(v, true) + 1)
  {
    hide WithHalf, Wrap64, U32;
    HalfParts(v);
    HalfParts(WithHalf(v, high, half));
    if high {
      DivUnique(v % W + half * W, W, half, v % W);
    } else {
      DivUnique(v - v % W + half, W, v / W, half);
    }
    CarryAcross(v);
  }

  lemma CarryAcross(v: word64)
    ensures Half(v, false) == 0xFFFF_FFFF ==>
      Half(Wrap64(v + 1), false) == 0 && Half(Wrap64(v + 1), true) == U32(Half(v, true) + 1)
  {
    HalfParts(v);
    if v % W == 0xFFFF_FFFF {
      var h := v / W;
      if h == W - 1 {
        assert v + 1 == W64;
      } else {
        HalfParts(v + 1);
        DivUnique(v + 1, W, h + 1, 0);
      }
    }
  }

  lemma HalfParts(v: word64)
    ensures v == Half(v, true) * W + Half(v, false)
  {
  }
}
