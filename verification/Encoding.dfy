/** Instruction words put together from fields, and the fields read back. */
module Encoding {
  import opened Bits
  import opened Isa

  predicate FieldsFit(f7: int, rs2: int, rs1: int, f3: int, rd: int, op: int) {
    && 0 <= f7 < 0x80 && 0 <= rs2 < 0x20 && 0 <= rs1 < 0x20 && 0 <= f3 < 8 && 0 <= rd < 0x20 && 0 <= op < 0x80
  }

  /** The six fields of a 32-bit instruction, funct7 on top. */
  function Pack(f7: int, rs2: int, rs1: int, f3: int, rd: int, op: int): word
    requires FieldsFit(f7, rs2, rs1, f3, rd, op)
  {
    op + 0x80 * (rd + 0x20 * (f3 + 8 * (rs1 + 0x20 * (rs2 + 0x20 * f7))))
  }

  /** The word from each field boundary up. */
  lemma PackShifts(f7: int, rs2: int, rs1: int, f3: int, rd: int, op: int)
    requires FieldsFit(f7, rs2, rs1, f3, rd, op)
    ensures var w := Pack(f7, rs2, rs1, f3, rd, op);
            && Low(w, 7) == op
            && Shr(w, 7) == rd + 0x20 * (f3 + 8 * (rs1 + 0x20 * (rs2 + 0x20 * f7)))
            && Shr(w, 12) == f3 + 8 * (rs1 + 0x20 * (rs2 + 0x20 * f7))
            && Shr(w, 15) == rs1 + 0x20 * (rs2 + 0x20 * f7)
            && Shr(w, 20) == rs2 + 0x20 * f7
            && Shr(w, 25) == f7
  {
    hide Shr, Low, P2;
    P2Values();
    var w := Pack(f7, rs2, rs1, f3, rd, op);
    var h4: int := rs2 + 0x20 * f7;
    var h3: int := rs1 + 0x20 * h4;
    var h2: int := f3 + 8 * h3;
    var h1: int := rd + 0x20 * h2;
    ShrLowUnique(w, 7, h1, op);
    ShrLowUnique(h1, 5, h2, rd);
    ShrLowUnique(h2, 3, h3, f3);
    ShrLowUnique(h3, 5, h4, rs1);
    ShrLowUnique(h4, 5, f7, rs2);
    ShrShr(w, 7, 5);
    ShrShr(w, 12, 3);
    ShrShr(w, 15, 5);
    ShrShr(w, 20, 5);
  }

  lemma PackFields(f7: int, rs2: int, rs1: int, f3: int, rd: int, op: int)
    requires FieldsFit(f7, rs2, rs1, f3, rd, op)
    ensures var w := Pack(f7, rs2, rs1, f3, rd, op);
            && Opcode(w) == op && Rd(w) == rd && Funct3(w) == f3
            && Rs1(w) == rs1 && Rs2(w) == rs2 && Funct7(w) == f7
  {
    hide Shr, Low, P2;
    P2Values();
    PackShifts(f7, rs2, rs1, f3, rd, op);
    var h4: int := rs2 + 0x20 * f7;
    var h3: int := rs1 + 0x20 * h4;
    var h2: int := f3 + 8 * h3;
    var h1: int := rd + 0x20 * h2;
    ShrLowUnique(h1, 5, h2, rd);
    ShrLowUnique(h2, 3, h3, f3);
    ShrLowUnique(h3, 5, h4, rs1);
    ShrLowUnique(h4, 5, f7, rs2);
    LowFits(f7, 7);
  }

  /** The subfields that the immediate formats use. */
  lemma PackSubfields(f7: int, rs2: int, rs1: int, f3: int, rd: int, op: int)
    requires FieldsFit(f7, rs2, rs1, f3, rd, op)
    ensures var w := Pack(f7, rs2, rs1, f3, rd, op);
            && Field(w, 31, 31) == f7 / 0x40 && Field(w, 30, 25) == f7 % 0x40
            && Field(w, 30, 20) == 0x20 * (f7 % 0x40) + rs2 && Field(w, 31, 20) == 0x20 * f7 + rs2
            && Field(w, 11, 7) == rd && Field(w, 11, 8) == rd / 2 && Field(w, 7, 7) == rd % 2
            && Field(w, 19, 12) == 8 * rs1 + f3 && Field(w, 20, 20) == rs2 % 2
            && Field(w, 30, 21) == 0x10 * (f7 % 0x40) + rs2 / 2
  {
    hide Shr, Low, P2;
    P2Values();
    assert P2(9) == 2 * P2(8) && P2(10) == 2 * P2(9) && P2(11) == 2 * P2(10) by { SmallPowers(); }
    var w := Pack(f7, rs2, rs1, f3, rd, op);
    PackShifts(f7, rs2, rs1, f3, rd, op);
    var h4: int := rs2 + 0x20 * f7;
    var h3: int := rs1 + 0x20 * h4;
    var h2: int := f3 + 8 * h3;
    var h1: int := rd + 0x20 * h2;
    var top, rest := f7 / 0x40, f7 % 0x40;
    ShrShr(w, 25, 6);
    ShrLowUnique(f7, 6, top, rest);
    LowFits(top, 1);
    ShrLowUnique(h4, 11, top, 0x20 * rest + rs2);
    LowFits(h4, 12);
    ShrLowUnique(h1, 5, h2, rd);
    ShrShr(w, 7, 1);
    ShrLowUnique(h1, 1, rd / 2 + 0x10 * h2, rd % 2);
    ShrLowUnique(rd / 2 + 0x10 * h2, 4, h2, rd / 2);
    ShrLowUnique(h2, 8, h4, 8 * rs1 + f3);
    ShrShr(w, 20, 1);
    ShrLowUnique(h4, 1, rs2 / 2 + 0x10 * f7, rs2 % 2);
    ShrLowUnique(rs2 / 2 + 0x10 * f7, 10, top, 0x10 * rest + rs2 / 2);
  }

  lemma SmallPowers()
    ensures P2(9) == 2 * P2(8) && P2(10) == 2 * P2(9) && P2(11) == 2 * P2(10)
  {
  }
}
