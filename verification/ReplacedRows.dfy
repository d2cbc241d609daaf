/** What a trace shows of a row that is replaced by another: the harts that follow differ in
    one register, and the difference lives until the register is read, written, or reset. */
module ReplacedRows {
  import opened Bits
  import opened Isa
  import opened Machine
  import opened Refinement
  import opened TraceTheorems
  import opened Wrappers

  // ----- harts that differ in one register -----

  /** k is h with v in register x; with x0 for x, the two are alike. */
  ghost predicate Differs(h: Hart, k: Hart, x: regnum, v: word) {
    && k.pc == h.pc && k.csr == h.csr && k.x == SetReg(h.x, x, v)
    && forall a: int :: k.mem(a) == h.mem(a)
  }

  /** The operand columns of the row show register x. */
  predicate Reads(row: Row, x: regnum) {
    Rs1(row.insn) == x || Rs2(row.insn) == x
  }

  predicate Writes(row: Row, x: regnum) {
    Executes(row) && row.rdAddr == x
  }

  /** The instruction takes an operand from register x. */
  predicate Uses(instr: Instr, x: regnum) {
    match instr
    case Jalr(_, rs1, _) => rs1 == x
    case Branch(_, rs1, rs2, _) => rs1 == x || rs2 == x
    case OpImm(_, _, rs1, _) => rs1 == x
    case Op(_, _, rs1, rs2) => rs1 == x || rs2 == x
    case MulDiv(_, _, rs1, rs2) => rs1 == x || rs2 == x
    case Csr(_, _, Register(r), _) => r == x
    case _ => false
  }

  lemma UsedIsRead(row: Row, x: regnum)
    requires Decode(row.insn).Some? && Uses(Decode(row.insn).value, x)
    ensures Reads(row, x)
  {
    hide Opcode, Funct3, Funct7, Rd, Rs1, Rs2, Field, DecodeAlu, DecodeAluImm, DecodeBranch, DecodeMul, DecodeSize,
      ImmI, ImmS, ImmB, ImmU, ImmJ;
  }

  ghost predicate SameEffect(e: Effect, f: Effect) {
    && e.rd == f.rd && e.value == f.value && e.pc == f.pc && e.csr == f.csr
    && forall a: int :: e.mem(a) == f.mem(a)
  }

  lemma SameSource(cfg: Config, h: Hart, k: Hart, x: regnum, v: word, i: Inputs)
    requires Differs(h, k, x, v)
    ensures LoadSource(cfg, h, i) == LoadSource(cfg, k, i)
  {
    hide Mmio, Physical, SetReg;
  }

  /** An instruction that does not use the register has the same effect on both. */
  lemma ExecuteIgnores(cfg: Config, h: Hart, k: Hart, x: regnum, v: word, i: Inputs, instr: Instr)
    requires Differs(h, k, x, v) && (x == 0 || !Uses(instr, x))
    ensures var e, f := Execute(cfg, h, i, instr), Execute(cfg, k, i, instr);
            (e.Some? <==> f.Some?) && (e.Some? ==> SameEffect(e.value, f.value))
  {
    hide Mmio, LoadSource, CsrCombine, ReadCsr, WriteCsr, Alu, Multiply, Taken, LoadValue, Physical, U32, Even,
      LeaveHandler;
    SameSource(cfg, h, k, x, v, i);
  }

  lemma SetRegCommutes(xs: Regs, x: regnum, v: word, rd: regnum, w: word)
    ensures SetReg(SetReg(xs, x, v), rd, w) == SetReg(SetReg(xs, rd, w), if rd == x then 0 else x, v)
  {
  }

  /** A row that does not read the register is a step of both, and the difference stays
      until the row writes the register. */
  lemma StepIgnores(cfg: Config, h: Hart, k: Hart, x: regnum, v: word, order: int, row: Row)
    requires StepsTo(cfg, h, order, row) && Differs(h, k, x, v) && (x == 0 || !Reads(row, x))
    ensures StepsTo(cfg, k, order, row)
    ensures Differs(After(cfg, h, order, row), After(cfg, k, order, row), if Writes(row, x) then 0 else x, v)
  {
    hide Rs1, Rs2, Mmio, Opcode, Decode, Execute, LaneMask, LoadSource, Mstatus, MieReg, Mtvec, TrapCause,
      SamplesCounter, InterruptTarget, Uses, Fetches, EnterHandler;
    var i := InputsOf(cfg, row);
    SameSource(cfg, h, k, x, v, i);
    if Executes(row) {
      var instr := Decode(row.insn).value;
      if Uses(instr, x) {
        UsedIsRead(row, x);
      }
      ExecuteIgnores(cfg, h, k, x, v, i, instr);
      var e := Execute(cfg, h, i, instr).value;
      SetRegCommutes(h.x, x, v, e.rd, e.value);
    }
  }

  /** A row that reads the register shows the difference. */
  lemma StepSees(cfg: Config, h: Hart, k: Hart, x: regnum, v: word, order: int, row: Row)
    requires StepsTo(cfg, h, order, row) && Differs(h, k, x, v)
    requires x != 0 && Reads(row, x) && h.x[x] != v
    ensures !StepsTo(cfg, k, order, row)
  {
    hide StepsTo;
    StepColumns(cfg, h, order, row);
    if StepsTo(cfg, k, order, row) {
      StepColumns(cfg, k, order, row);
    }
  }

  /** A row keeps the registers that it does not write. */
  lemma StepKeeps(cfg: Config, h: Hart, order: int, row: Row, x: regnum)
    requires StepsTo(cfg, h, order, row) && !Writes(row, x)
    ensures After(cfg, h, order, row).x[x] == h.x[x]
  {
    hide Rs1, Rs2, Mmio, Opcode, Decode, Execute, LaneMask, LoadSource, Mstatus, MieReg, Mtvec, TrapCause,
      SamplesCounter, InterruptTarget, Fetches, EnterHandler;
  }

  // ----- from one row on -----

  /** Row k is reached from row i + 1 in the same epoch without register x being written. */
  predicate Reaches(t: seq<Row>, i: nat, x: regnum, k: nat) {
    && i < k < |t|
    && (forall j :: i < j <= k ==> !StartsAt(t, j))
    && (forall j :: i < j < k ==> !Writes(t[j], x))
  }

  /** Some later row of the epoch reads the register, up to and including the first that writes it. */
  ghost predicate ReadLater(t: seq<Row>, i: nat, x: regnum) {
    x != 0 && exists k: nat :: Reaches(t, i, x, k) && Reads(t[k], x)
  }

  /** Row r can stand at row i: it keeps the order and the epoch, is a step there, and leaves
      a hart that differs in register x. */
  ghost predicate Replaces(cfg: Config, t: seq<Row>, i: nat, r: Row, x: regnum, v: word) {
    && i < |t| && r.order == t[i].order && r.epoch == t[i].epoch
    && StepsAt(cfg, t, i) && StepsTo(cfg, HartAt(cfg, t, i).value, Position(t, i), r)
    && Differs(After(cfg, HartAt(cfg, t, i).value, Position(t, i), t[i]),
               After(cfg, HartAt(cfg, t, i).value, Position(t, i), r), x, v)
  }

  lemma SameStarts(t: seq<Row>, i: nat, r: Row, k: nat)
    requires i < |t| && k < |t| && r.order == t[i].order && r.epoch == t[i].epoch
    ensures StartsAt(t[i := r], k) == StartsAt(t, k)
  {
  }

  lemma SameHartUpTo(cfg: Config, t: seq<Row>, i: nat, r: Row, k: nat)
    requires k <= i < |t| && r.order == t[i].order && r.epoch == t[i].epoch
    ensures HartAt(cfg, t[i := r], k) == HartAt(cfg, t, k) && Position(t[i := r], k) == Position(t, k)
  {
    hide HartAt, Position, StartsAt;
    SameStarts(t, i, r, k);
    assert t[..k] == t[i := r][..k];
    SamePrefixSameHart(cfg, t, t[i := r], k);
  }

  /** Up to the first row that reads the register, the harts differ at most in it. */
  lemma {:induction false} HartsAfter(cfg: Config, t: seq<Row>, i: nat, r: Row, x: regnum, v: word, k: nat)
    requires IsaAccepts(cfg, t) && Replaces(cfg, t, i, r, x, v) && i < k < |t|
    requires forall j: nat :: Reaches(t, i, x, j) && j < k ==> x == 0 || !Reads(t[j], x)
    ensures HartAt(cfg, t, k).Some? && HartAt(cfg, t[i := r], k).Some? && Position(t[i := r], k) == Position(t, k)
    ensures Differs(HartAt(cfg, t, k).value, HartAt(cfg, t[i := r], k).value, if Reaches(t, i, x, k) then x else 0, v)
    decreases k
  {
    hide IsaAccepts, StepsTo, After, StartsAt, Differs, ResetHart, Reads, Writes;
    var u := t[i := r];
    SameStarts(t, i, r, k);
    AcceptedIff(cfg, t);
    assert StepsAt(cfg, t, k) && StepsAt(cfg, t, k - 1);
    if StartsAt(t, k) {
      AlikeItself(ResetHart(cfg), v);
    } else if k == i + 1 {
      SameHartUpTo(cfg, t, i, r, i);
    } else {
      HartsAfter(cfg, t, i, r, x, v, k - 1);
      var y := if Reaches(t, i, x, k - 1) then x else 0;
      StepIgnores(cfg, HartAt(cfg, t, k - 1).value, HartAt(cfg, u, k - 1).value, y, v, Position(t, k - 1), t[k - 1]);
    }
  }

  lemma AlikeItself(h: Hart, v: word)
    ensures Differs(h, h, 0, v)
  {
  }

  /** While it is not written, the register keeps what row i left in it. */
  lemma {:induction false} Unwritten(cfg: Config, t: seq<Row>, i: nat, x: regnum, k: nat)
    requires IsaAccepts(cfg, t) && Reaches(t, i, x, k) && StepsAt(cfg, t, i)
    ensures HartAt(cfg, t, k).Some?
    ensures HartAt(cfg, t, k).value.x[x] == After(cfg, HartAt(cfg, t, i).value, Position(t, i), t[i]).x[x]
    decreases k
  {
    hide IsaAccepts, StepsTo, After, StartsAt, Writes;
    AcceptedIff(cfg, t);
    assert StepsAt(cfg, t, k) && StepsAt(cfg, t, k - 1);
    if k > i + 1 {
      Unwritten(cfg, t, i, x, k - 1);
      StepKeeps(cfg, HartAt(cfg, t, k - 1).value, Position(t, k - 1), t[k - 1], x);
    }
  }

  /** The first later read of the register rejects the trace. */
  lemma {:induction false} ReadShows(cfg: Config, t: seq<Row>, i: nat, r: Row, x: regnum, v: word, k: nat)
    requires IsaAccepts(cfg, t) && Replaces(cfg, t, i, r, x, v) && x != 0
    requires After(cfg, HartAt(cfg, t, i).value, Position(t, i), t[i]).x[x] != v
    requires Reaches(t, i, x, k) && Reads(t[k], x)
    ensures !IsaAccepts(cfg, t[i := r])
    decreases k
  {
    hide IsaAccepts, StepsTo, After, StartsAt, Differs, Reads, Writes, HartAt, Position;
    if j: nat :| Reaches(t, i, x, j) && j < k && Reads(t[j], x) {
      ReadShows(cfg, t, i, r, x, v, j);
    } else {
      var u := t[i := r];
      HartsAfter(cfg, t, i, r, x, v, k);
      Unwritten(cfg, t, i, x, k);
      AcceptedIff(cfg, t);
      AcceptedIff(cfg, u);
      assert StepsAt(cfg, t, k);
      StepSees(cfg, HartAt(cfg, t, k).value, HartAt(cfg, u, k).value, x, v, Position(t, k), t[k]);
      assert !StepsAt(cfg, u, k);
    }
  }

  lemma UnreadSteps(cfg: Config, t: seq<Row>, i: nat, r: Row, x: regnum, v: word, k: nat)
    requires IsaAccepts(cfg, t) && Replaces(cfg, t, i, r, x, v) && k < |t| && !ReadLater(t, i, x)
    ensures StepsAt(cfg, t[i := r], k)
  {
    hide IsaAccepts, StepsTo, After, StartsAt, Differs, Reads, Reaches, HartAt, Position;
    AcceptedIff(cfg, t);
    assert StepsAt(cfg, t, k);
    if k <= i {
      SameHartUpTo(cfg, t, i, r, k);
    } else {
      HartsAfter(cfg, t, i, r, x, v, k);
      var y := if Reaches(t, i, x, k) then x else 0;
      StepIgnores(cfg, HartAt(cfg, t, k).value, HartAt(cfg, t[i := r], k).value, y, v, Position(t, k), t[k]);
    }
  }

  /** Replacing a row by one that leaves another value in register x keeps the trace accepted
      exactly when no later row of the epoch reads the register before it is written again. */
  lemma ReplacedRowAccepted(cfg: Config, t: seq<Row>, i: nat, r: Row, x: regnum, v: word)
    requires IsaAccepts(cfg, t) && i < |t| && Replaces(cfg, t, i, r, x, v)
    requires x != 0 ==> After(cfg, HartAt(cfg, t, i).value, Position(t, i), t[i]).x[x] != v
    ensures IsaAccepts(cfg, t[i := r]) <==> !ReadLater(t, i, x)
  {
    hide IsaAccepts, StepsAt, Replaces, StartsAt, Writes, Reads, HartAt, After;
    var u := t[i := r];
    if ReadLater(t, i, x) {
      var k: nat :| Reaches(t, i, x, k) && Reads(t[k], x);
      ReadShows(cfg, t, i, r, x, v, k);
    } else {
      AcceptedIff(cfg, u);
      forall k | 0 <= k < |u| ensures StepsAt(cfg, u, k) {
        UnreadSteps(cfg, t, i, r, x, v, k);
      }
    }
  }

  /** Replacing a row by one that is no step there is always reported. */
  lemma NoStepRejected(cfg: Config, t: seq<Row>, i: nat, r: Row)
    requires i < |t| && r.order == t[i].order && r.epoch == t[i].epoch
    requires StepsAt(cfg, t, i) && !StepsTo(cfg, HartAt(cfg, t, i).value, Position(t, i), r)
    ensures !IsaAccepts(cfg, t[i := r])
  {
    hide IsaAccepts, StepsTo, HartAt, Position;
    SameHartUpTo(cfg, t, i, r, i);
    AcceptedIff(cfg, t[i := r]);
    assert !StepsAt(cfg, t[i := r], i);
  }
}
