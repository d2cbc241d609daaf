/** Why acceptance by the hart needs the register columns to name the instruction's
    registers: the checker takes its operands from the columns. */
module RegisterColumns {
  import opened Bits
  import opened Isa
  import opened Machine
  import opened Checker
  import opened Refinement
  import opened Encoding

  const PLAIN: Config := Config(false, [], [], map[], map[])

  /** csrrwi x0, mscratch, z */
  predicate WritesScratch(w: word) {
    && Opcode(w) == 0x73 && Funct3(w) == 5 && Rd(w) == 0 && Field(w, 31, 20) == MSCRATCH
    && w !in {0x0010_0073, 0x3020_0073, 0x1050_0073}
  }

  /** The instruction as the first after reset, its rs1 column naming register c. */
  function FirstRow(w: word, c: regnum): Row {
    Row(0, 0, w, 0, 4, false, false, c, 0, 0, 0, 0, 0,
        0, 0, 0, 0, 0, 0x1800, 0, 0x300, 0, 0, 0, 0, false, false)
  }

  lemma FreshSnapshot(w: word, c: regnum)
    ensures var s := Arrive(PLAIN, InitialState(PLAIN), FirstRow(w, c));
            && StateOk(s) && s.csrs == InitialCsrs(PLAIN)
            && CommonFaults(PLAIN, s, FirstRow(w, c)) == [] && OrderFaults(InitialState(PLAIN), FirstRow(w, c)) == []
  {
  }

  lemma ScratchExpected(s: State, w: word, c: regnum)
    requires StateOk(s) && WritesScratch(w)
    ensures var e := ExpectedOf(PLAIN, s, FirstRow(w, c));
            && e.legal && e.rd == 0 && e.nextPc == 4 && e.faults == [] && !e.raised
            && e.csrs == Checker.Put(s.csrs, MSCRATCH, c)
  {
    hide Opcode, Funct3, Rd, Field, Put;
    assert KnownCsr(MSCRATCH) && Holds(MSCRATCH, c) && MSCRATCH in s.csrs;
  }

  /** Whatever register the column names, the checker accepts the row and mscratch becomes
      that number; a hart takes the row only when the column is the instruction's own. */
  lemma ColumnIsTrusted(w: word, c: regnum)
    requires WritesScratch(w)
    ensures Accepts(PLAIN, [FirstRow(w, c)])
    ensures Get(Check(PLAIN, [FirstRow(w, c)]).state.csrs, MSCRATCH) == c
    ensures IsaAccepts(PLAIN, [FirstRow(w, c)]) <==> c == Rs1(w) && Rs2(w) == 0
  {
    hide ExpectedOf, Opcode, Funct3, Rd, Rs1, Rs2, Field, CommonFaults, OrderFaults, StateOk,
      IsaAccepts, InitialCsrs, SetReg, Arrive, InitialState, WritesScratch, Run;
    var row := FirstRow(w, c);
    FreshSnapshot(w, c);
    var s := Arrive(PLAIN, InitialState(PLAIN), row);
    ScratchExpected(s, w, c);
    GetPut(s.csrs, MSCRATCH, c);
    assert [row][..0] == [];
    assert Check(PLAIN, [row][..0]) == Verdict(InitialState(PLAIN), [], false);
    CheckerRefinesIsa(PLAIN, [row]);
    assert NamesItsRegisters([row][0]) <==> c == Rs1(w) && 0 == Rs2(w);
  }

  /** Such instructions exist: csrrwi x0, mscratch, 5. */
  lemma ScratchWriteExists()
    ensures WritesScratch(Pack(26, 0, 5, 5, 0, 0x73)) && Rs1(Pack(26, 0, 5, 5, 0, 0x73)) == 5
  {
    hide Field, Opcode, Funct3, Rd, Rs1, Rs2;
    PackFields(26, 0, 5, 5, 0, 0x73);
    PackSubfields(26, 0, 5, 5, 0, 0x73);
  }
}
