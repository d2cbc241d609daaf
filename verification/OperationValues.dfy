/** What the word operations that checker and hart have in common compute, as numbers and bits. */
module OperationValues {
  import opened Bits
  import opened Isa
  import opened Machine
  import opened Checker
  import opened Refinement
  import opened Wrappers

  /** r has exactly the bits that op makes of those of a and b. */
  ghost predicate BitByBit(r: nat, a: nat, b: nat, op: (bool, bool) -> bool) {
    forall i: nat :: Bit(r, i) == op(Bit(a, i), Bit(b, i))
  }

  lemma BitwiseValues(a: word, b: word)
    ensures BitByBit(BitAnd(a, b), a, b, (p, q) => p && q)
    ensures BitByBit(BitOr(a, b), a, b, (p, q) => p || q)
    ensures BitByBit(BitXor(a, b), a, b, (p, q) => p != q)
    ensures BitByBit(BitClear(a, b), a, b, (p, q) => p && !q)
  {
    hide Bit, Bw;
    forall i: nat
      ensures Bit(BitAnd(a, b), i) == (Bit(a, i) && Bit(b, i))
      ensures Bit(BitOr(a, b), i) == (Bit(a, i) || Bit(b, i))
      ensures Bit(BitXor(a, b), i) == (Bit(a, i) != Bit(b, i))
      ensures Bit(BitClear(a, b), i) == (Bit(a, i) && !Bit(b, i))
    {
      BwBit(And, a, b, i);
      BwBit(Or, a, b, i);
      BwBit(Xor, a, b, i);
      BwBit(AndNot, a, b, i);
    }
  }

  /** Shifts are multiplication, floor division, and floor division of the signed value. */
  lemma ShiftValues(a: word, k: nat)
    ensures U32(Shl(a, k)) == a * P2(k) % W
    ensures ShrWord(a, k) == a / P2(k)
  {
    hide Shr, P2;
    ShlIsMul(a, k);
    ShrIsDiv(a, k);
  }

  /** The register-register operations of the checker. */
  lemma RegisterOpValues(a: word, b: word)
    ensures RegisterOp(0x00, 0, a, b) == Some((a + b) % W)
    ensures RegisterOp(0x20, 0, a, b) == Some((a - b) % W)
    ensures RegisterOp(0x00, 1, a, b) == Some(a * P2(b % 32) % W)
    ensures RegisterOp(0x00, 5, a, b) == Some(a / P2(b % 32))
    ensures RegisterOp(0x20, 5, a, b) == Some(S32(a) / P2(b % 32) % W)
    ensures RegisterOp(0x00, 4, a, b).Some? && BitByBit(RegisterOp(0x00, 4, a, b).value, a, b, (p, q) => p != q)
    ensures RegisterOp(0x00, 6, a, b).Some? && BitByBit(RegisterOp(0x00, 6, a, b).value, a, b, (p, q) => p || q)
    ensures RegisterOp(0x00, 7, a, b).Some? && BitByBit(RegisterOp(0x00, 7, a, b).value, a, b, (p, q) => p && q)
  {
    hide ShrWord, BitAnd, BitOr, BitXor, Shl, P2, S32, BitByBit;
    ShiftValues(a, b % 32);
    BitwiseValues(a, b);
  }

  /** The register-immediate operations of the checker, the immediate read as a signed integer. */
  lemma ImmediateOpValues(w: word, a: word)
    ensures Funct3(w) == 0 ==> ImmediateOp(w, a) == Some((a + ImmI(w)) % W)
    ensures Funct3(w) == 1 && Funct7(w) == 0 ==> ImmediateOp(w, a) == Some(a * P2(Rs2(w)) % W)
    ensures Funct3(w) == 5 && Funct7(w) == 0 ==> ImmediateOp(w, a) == Some(a / P2(Rs2(w)))
    ensures Funct3(w) == 5 && Funct7(w) == 0x20 ==> ImmediateOp(w, a) == Some(S32(a) / P2(Rs2(w)) % W)
    ensures Funct3(w) == 4 ==>
      ImmediateOp(w, a).Some? && BitByBit(ImmediateOp(w, a).value, a, ImmI(w) % W, (p, q) => p != q)
    ensures Funct3(w) == 6 ==>
      ImmediateOp(w, a).Some? && BitByBit(ImmediateOp(w, a).value, a, ImmI(w) % W, (p, q) => p || q)
    ensures Funct3(w) == 7 ==>
      ImmediateOp(w, a).Some? && BitByBit(ImmediateOp(w, a).value, a, ImmI(w) % W, (p, q) => p && q)
  {
    hide ShrWord, BitAnd, BitOr, BitXor, Shl, P2, S32, BitByBit, ImmI, AddImm, Field;
    AddImmIsImmI(w);
    U32Add(a, ImmI(w));
    ShiftValues(a, Rs2(w));
    BitwiseValues(a, U32(ImmI(w)));
  }

  /** The same of the hart. */
  lemma AluValues(a: word, b: word)
    ensures Alu(Srl, a, b) == a / P2(b % 32)
    ensures Alu(Sll, a, b) == a * P2(b % 32) % W
    ensures Alu(Sra, a, b) == S32(a) / P2(b % 32) % W
    ensures BitByBit(Alu(Exclusive, a, b), a, b, (p, q) => p != q)
    ensures BitByBit(Alu(Inclusive, a, b), a, b, (p, q) => p || q)
    ensures BitByBit(Alu(Conjunct, a, b), a, b, (p, q) => p && q)
  {
    hide ShrWord, BitAnd, BitOr, BitXor, Shl, P2, S32, BitByBit;
    ShiftValues(a, b % 32);
    BitwiseValues(a, b);
  }

  /** A set takes the union of the bits, a clear removes those of the operand, in the checker
      and in the hart. */
  lemma CombineValues(was: word, source: word)
    ensures CombineSource(1, was, source) == CsrCombine(ReadWrite, was, source) == source
    ensures CombineSource(2, was, source) == CsrCombine(ReadSet, was, source)
    ensures CombineSource(3, was, source) == CsrCombine(ReadClear, was, source)
    ensures BitByBit(CsrCombine(ReadSet, was, source), was, source, (p, q) => p || q)
    ensures BitByBit(CsrCombine(ReadClear, was, source), was, source, (p, q) => p && !q)
  {
    hide BitOr, BitClear, BitByBit;
    BitwiseValues(was, source);
  }

  /** The CSR numbers that can be read, and what the counters and pending bits read as. */
  lemma CsrNumbers(cfg: Config, c: Csrs, i: Inputs, csr: nat)
    ensures ReadCsr(cfg, c, i, csr).Some? <==>
      csr in {0x300, 0x301, 0x304, 0x305, 0x340, 0x341, 0x342, 0x343, 0x344, 0xB00, 0xB02, 0xB80, 0xB82}
    ensures csr in {0xB00, 0xB02, 0xB80, 0xB82} ==> ReadCsr(cfg, c, i, csr) == Some(i.sample)
  {
    hide Mstatus, Misa, MieReg, Mtvec;
  }

  /** The keys of the checker's CSR dictionary are the same numbers. */
  lemma DictionaryKeys(s: State, csr: int)
    requires StateOk(s)
    ensures csr in s.csrs <==>
      csr in {0x300, 0x301, 0x304, 0x305, 0x340, 0x341, 0x342, 0x343, 0x344, 0xB00, 0xB02, 0xB80, 0xB82}
  {
    KeysKnown(s.csrs, csr);
  }
}
