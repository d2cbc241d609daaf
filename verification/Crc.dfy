/** The CRC-8 of a flit: a bit-serial shift register with polynomial x^8 + x^2 + x + 1,
    over bit strings of any length, most significant bit first. */
module Crc {
  import opened Bits

  type bits = seq<bool>

  const POLY: nat := 0x07

  /** x^8 + x^2 + x + 1 as a bit pattern. */
  const GENERATOR: nat := 0x107

  // ----- the register -----

  /** One clock of the register with one data bit. */
  function Step(crc: byte, b: bool): byte {
    StepByte(crc, b);
    var feedback := b != (crc >= 0x80);
    var shifted := crc * 2 % 256;
    if feedback then Bw(Xor, shifted, POLY) else shifted
  }

  lemma StepByte(crc: byte, b: bool)
    ensures 0 <= Bw(Xor, crc * 2 % 256, POLY) < 256
  {
    P2Values();
    BwBound(Xor, crc * 2 % 256, POLY, 8);
  }

  /** The register after a bit string. */
  function Shift(crc: byte, m: bits): byte
    decreases |m|
  {
    if m == [] then crc else Shift(Step(crc, m[0]), m[1..])
  }

  function Crc8(m: bits): byte {
    Shift(0, m)
  }

  lemma {:induction false} ShiftAppend(crc: byte, m: bits, n: bits)
    ensures Shift(crc, m + n) == Shift(Shift(crc, m), n)
    decreases |m|
  {
    if m == [] {
      assert m + n == n;
    } else {
      assert (m + n)[1..] == m[1..] + n;
      ShiftAppend(Step(crc, m[0]), m[1..], n);
    }
  }

  lemma ShiftSnoc(crc: byte, m: bits, b: bool)
    ensures Shift(crc, m + [b]) == Step(Shift(crc, m), b)
  {
    ShiftAppend(crc, m, [b]);
    assert [b][1..] == [];
  }

  // ----- the flit model -----

  /** The 256 payload bits: word 3 first, each word from bit 63 down. */
  function FlitBits(words: seq<word64>): bits
    requires |words| == 4
  {
    seq(256, i requires 0 <= i < 256 => Bit(words[3 - i / 64], 63 - i % 64))
  }

  lemma ShiftNothing(crc: byte)
    ensures Shift(crc, []) == crc
  {
  }

  // ----- carry-less arithmetic -----

  /** Product of polynomials over GF(2), coefficients as bits. */
  function ClMul(a: nat, b: nat): nat
    decreases a
  {
    if a == 0 then 0 else Bw(Xor, 2 * ClMul(a / 2, b), if a % 2 == 1 then b else 0)
  }

  /** The polynomial of a bit string, first bit the highest coefficient. */
  function Poly(m: bits): nat
    decreases |m|
  {
    if m == [] then 0 else 2 * Poly(m[..|m| - 1]) + (if m[|m| - 1] then 1 else 0)
  }

  /** r is the remainder of p modulo the generator. */
  ghost predicate IsRemainder(p: nat, r: nat) {
    r < 256 && exists q: nat :: p == Bw(Xor, ClMul(q, GENERATOR), r)
  }

  lemma XorDouble(a: nat, b: nat)
    ensures Bw(Xor, 2 * a, 2 * b) == 2 * Bw(Xor, a, b)
  {
    BwStep(Xor, 2 * a, 2 * b);
  }

  lemma XorDisjoint(h: nat, b: nat, k: nat, p: nat)
    requires p == P2(k) && b < p
    ensures Bw(Xor, p * h, b) == p * h + b
  {
    MulNonNeg(p, h);
    ShrLowUnique(p * h, k, h, 0);
    LowFits(b, k);
    BwSplit(Xor, p * h, b, k);
    BwZero(Xor, h);
    BwZero(Xor, b);
    ShrLow(Bw(Xor, p * h, b), k);
  }

  /** (a ^ b) ^ (c ^ d) == (a ^ c) ^ (b ^ d) */
  lemma XorExchange(a: nat, b: nat, c: nat, d: nat)
    ensures Bw(Xor, Bw(Xor, a, b), Bw(Xor, c, d)) == Bw(Xor, Bw(Xor, a, c), Bw(Xor, b, d))
  {
    hide Bw;
    XorAssoc(a, b, Bw(Xor, c, d));
    XorAssoc(b, c, d);
    BwComm(Xor, b, c);
    XorAssoc(c, b, d);
    XorAssoc(a, c, Bw(Xor, b, d));
  }

  function If(c: bool, v: nat): nat {
    if c then v else 0
  }

  lemma XorIf(c: bool, d: bool, v: nat)
    ensures Bw(Xor, If(c, v), If(d, v)) == If(c != d, v)
  {
    XorSelf(v);
    BwZero(Xor, v);
    BwZero(Xor, 0);
  }

  /** The shift register multiplies by x, adds the bit at x^8, and reduces once. */
  lemma StepReduces(p: nat, q: nat, crc: byte, b: bool)
    requires p * 256 == Bw(Xor, ClMul(q, GENERATOR), crc)
    ensures var feedback := b != (crc >= 0x80);
            (2 * p + If(b, 1)) * 256
              == Bw(Xor, ClMul(2 * q + If(feedback, 1), GENERATOR), Step(crc, b))
  {
    hide Bw, ClMul, If, Step;
    var feedback, top := b != (crc >= 0x80), crc >= 0x80;
    var low := crc * 2 % 256;
    var g := ClMul(q, GENERATOR);
    calc {
      (2 * p + If(b, 1)) * 256;
      { AppendBit(p, b); }
      Bw(Xor, 2 * (p * 256), If(b, 256));
      { XorDouble(g, crc); }
      Bw(Xor, Bw(Xor, 2 * g, 2 * crc), If(b, 256));
      { SplitTop(crc); }
      Bw(Xor, Bw(Xor, 2 * g, Bw(Xor, If(top, 256), low)), If(b, 256));
      { FeedbackXor(2 * g, top, low, b); }
      Bw(Xor, Bw(Xor, 2 * g, If(feedback, GENERATOR)), Bw(Xor, low, If(feedback, POLY)));
      { StepIsXor(crc, b); ClMulAppend(q, feedback); }
      Bw(Xor, ClMul(2 * q + If(feedback, 1), GENERATOR), Step(crc, b));
    }
  }

  lemma AppendBit(p: nat, b: bool)
    ensures (2 * p + If(b, 1)) * 256 == Bw(Xor, 2 * (p * 256), If(b, 256))
  {
    hide Bw, P2;
    FiveHundredTwelve();
    XorDisjoint(p, If(b, 256), 9, 512);
  }

  lemma FiveHundredTwelve()
    ensures P2(9) == 512
  {
    P2Values();
    assert P2(9) == 2 * P2(8);
  }

  lemma SplitTop(crc: byte)
    ensures 2 * crc == Bw(Xor, If(crc >= 0x80, 256), crc * 2 % 256)
  {
    hide Bw, P2;
    P2Values();
    XorDisjoint(If(crc >= 0x80, 1), crc * 2 % 256, 8, 256);
  }

  lemma StepIsXor(c: byte, b: bool)
    ensures Step(c, b) == Bw(Xor, c * 2 % 256, If(b != (c >= 0x80), POLY))
  {
    BwZero(Xor, c * 2 % 256);
  }

  lemma ClMulAppend(q: nat, f: bool)
    ensures ClMul(2 * q + If(f, 1), GENERATOR) == Bw(Xor, 2 * ClMul(q, GENERATOR), If(f, GENERATOR))
  {
    BwZero(Xor, 0);
    assert (2 * q + If(f, 1)) / 2 == q;
  }

  lemma FeedbackXor(g: nat, top: bool, low: nat, b: bool)
    ensures Bw(Xor, Bw(Xor, g, Bw(Xor, If(top, 256), low)), If(b, 256))
         == Bw(Xor, Bw(Xor, g, If(b != top, GENERATOR)), Bw(Xor, low, If(b != top, POLY)))
  {
    hide Bw, If;
    var t, bb, f, g7, p7 := If(top, 256), If(b, 256), If(b != top, 256), If(b != top, GENERATOR), If(b != top, POLY);
    calc {
      Bw(Xor, Bw(Xor, g, Bw(Xor, t, low)), bb);
      { XorAssoc(g, Bw(Xor, t, low), bb); BwComm(Xor, t, low); XorAssoc(low, t, bb); XorIf(top, b, 256); }
      Bw(Xor, g, Bw(Xor, low, f));
      { GeneratorParts(b != top); BwComm(Xor, low, f); }
      Bw(Xor, g, Bw(Xor, Bw(Xor, g7, p7), low));
      { XorAssoc(g7, p7, low); BwComm(Xor, p7, low); XorAssoc(g, g7, Bw(Xor, low, p7)); }
      Bw(Xor, Bw(Xor, g, g7), Bw(Xor, low, p7));
    }
  }

  lemma GeneratorParts(c: bool)
    ensures Bw(Xor, If(c, GENERATOR), If(c, POLY)) == If(c, 256)
  {
    P2Values();
    XorDisjoint(1, POLY, 8, 256);
    XorAssoc(256, POLY, POLY);
    XorSelf(POLY);
    BwZero(Xor, 256);
    BwZero(Xor, 0);
  }

  /** The register after m holds M(x) * x^8 modulo the generator. */
  lemma {:induction false} CrcIsRemainder(m: bits)
    ensures IsRemainder(Poly(m) * 256, Crc8(m))
    decreases |m|
  {
    hide Step, Bw, ClMul;
    if m == [] {
      BwZeroZero();
    } else {
      var n := |m| - 1;
      CrcIsRemainder(m[..n]);
      var q: nat :| Poly(m[..n]) * 256 == Bw(Xor, ClMul(q, GENERATOR), Crc8(m[..n]));
      StepReduces(Poly(m[..n]), q, Crc8(m[..n]), m[n]);
      ShiftSnoc(0, m[..n], m[n]);
      assert m == m[..n] + [m[n]];
    }
  }

  lemma BwZeroZero()
    ensures Bw(Xor, ClMul(0, GENERATOR), 0) == 0
  {
  }

  /** A remainder modulo the generator is unique. */
  lemma RemainderUnique(p: nat, r: nat, s: nat)
    requires IsRemainder(p, r) && IsRemainder(p, s)
    ensures r == s
  {
    hide Bw, ClMul;
    var q: nat :| p == Bw(Xor, ClMul(q, GENERATOR), r);
    var t: nat :| p == Bw(Xor, ClMul(t, GENERATOR), s);
    XorSelf(p);
    XorExchange(ClMul(q, GENERATOR), r, ClMul(t, GENERATOR), s);
    ClMulXor(q, t);
    var d, e := ClMul(Bw(Xor, q, t), GENERATOR), Bw(Xor, r, s);
    XorZeroMeansEqual(d, e);
    P2Values();
    BwBound(Xor, r, s, 8);
    if Bw(Xor, q, t) != 0 {
      MultipleIsLarge(Bw(Xor, q, t));
    }
    ClMulZero();
    XorZeroMeansEqual(r, s);
  }

  lemma ClMulZero()
    ensures ClMul(0, GENERATOR) == 0
  {
  }

  lemma {:induction false} XorZeroMeansEqual(a: nat, b: nat)
    requires Bw(Xor, a, b) == 0
    ensures a == b
    decreases a + b
  {
    if a != 0 || b != 0 {
      XorZeroMeansEqual(a / 2, b / 2);
    }
  }

  lemma {:induction false} ClMulXor(a: nat, b: nat)
    ensures Bw(Xor, ClMul(a, GENERATOR), ClMul(b, GENERATOR)) == ClMul(Bw(Xor, a, b), GENERATOR)
    decreases a + b
  {
    if a == 0 && b == 0 {
      BwZero(Xor, 0);
    } else {
      ClMulXor(a / 2, b / 2);
      ClMulStep(a);
      ClMulStep(b);
      BwStep(Xor, a, b);
      ClMulStep(Bw(Xor, a, b));
      hide Bw, ClMul;
      var x, y := ClMul(a / 2, GENERATOR), ClMul(b / 2, GENERATOR);
      XorExchange(2 * x, If(a % 2 == 1, GENERATOR), 2 * y, If(b % 2 == 1, GENERATOR));
      XorDouble(x, y);
      XorIf(a % 2 == 1, b % 2 == 1, GENERATOR);
    }
  }

  lemma ClMulStep(a: nat)
    ensures ClMul(a, GENERATOR) == Bw(Xor, 2 * ClMul(a / 2, GENERATOR), If(a % 2 == 1, GENERATOR))
  {
    BwZero(Xor, 0);
  }

  /** A nonzero multiple of the generator has degree at least eight. */
  lemma {:induction false} MultipleIsLarge(d: nat)
    requires d != 0
    ensures ClMul(d, GENERATOR) >= 256
  {
    ClMulStep(d);
    if d == 1 {
      ClMulZero();
      BwZero(Xor, GENERATOR);
    } else {
      MultipleIsLarge(d / 2);
      HighBitsStay(2 * ClMul(d / 2, GENERATOR), If(d % 2 == 1, GENERATOR));
    }
  }

  lemma HighBitsStay(a: nat, b: nat)
    requires a >= 512 && b < 512
    ensures Bw(Xor, a, b) >= 512
  {
    P2Values();
    assert P2(9) == 512;
    BwSplit(Xor, a, b, 9);
    LowFits(b, 9);
    BwZero(Xor, Shr(a, 9));
    ShrLow(a, 9);
    ShrLow(Bw(Xor, a, b), 9);
    assert Shr(a, 9) > 0;
    MulStrict(512, 0, Shr(a, 9));
  }

  // ----- the flit as a polynomial -----

  const W64: nat := 0x1_0000_0000_0000_0000

  /** The 256-bit payload, word 0 least significant. */
  function FlitValue(words: seq<word64>): nat
    requires |words| == 4
  {
    words[0] + W64 * (words[1] + W64 * (words[2] + W64 * words[3]))
  }

  lemma {:induction false} PolyAppend(m: bits, n: bits)
    ensures Poly(m + n) == P2(|n|) * Poly(m) + Poly(n)
    decreases |n|
  {
    if n == [] {
      assert m + n == m;
    } else {
      var k := |n| - 1;
      assert (m + n)[..|m + n| - 1] == m + n[..k];
      PolyAppend(m, n[..k]);
      PolySnoc(m + n);
      PolySnoc(n);
      hide Poly;
      DoublingLeft(P2(k), Poly(m));
    }
  }

  lemma PolySnoc(m: bits)
    requires m != []
    ensures Poly(m) == 2 * Poly(m[..|m| - 1]) + (if m[|m| - 1] then 1 else 0)
  {
  }

  /** The k low bits of c, from bit k - 1 down. */
  function BitsDown(c: nat, k: nat): bits {
    seq(k, i requires 0 <= i < k => Bit(c, k - 1 - i))
  }

  lemma BitsDownSnoc(c: nat, k: nat)
    requires k > 0
    ensures |BitsDown(c / 2, k - 1)| == k - 1
    ensures BitsDown(c, k) == BitsDown(c / 2, k - 1) + [c % 2 == 1]
  {
    hide Bit;
    var m := BitsDown(c / 2, k - 1) + [c % 2 == 1];
    forall i | 0 <= i < k ensures BitsDown(c, k)[i] == m[i] {
      BitBelow(c, k - 1 - i);
    }
  }

  lemma BitBelow(c: nat, j: nat)
    ensures Bit(c, j) == if j == 0 then c % 2 == 1 else Bit(c / 2, j - 1)
  {
    if j > 0 {
      ShrHalf(c, j);
    }
  }

  lemma ShrHalf(c: nat, j: nat)
    requires j > 0
    ensures Shr(c, j) == Shr(c / 2, j - 1)
  {
  }

  lemma {:induction false} BitsDownValue(c: nat, k: nat)
    ensures Poly(BitsDown(c, k)) == Low(c, k)
    decreases k
  {
    if k > 0 {
      BitsDownValue(c / 2, k - 1);
      BitsDownSnoc(c, k);
      hide BitsDown, Bit;
      var m := BitsDown(c / 2, k - 1);
      assert (m + [c % 2 == 1])[..k - 1] == m;
    }
  }

  lemma WordBits(w: word64)
    ensures |BitsDown(w, 64)| == 64 && Poly(BitsDown(w, 64)) == w
  {
    hide Poly, Bit, P2;
    SixtyFour();
    BitsDownValue(w, 64);
    LowFits(w, 64);
  }

  lemma SixtyFour()
    ensures P2(64) == W64
  {
    hide P2;
    P2Values();
    P2Add(32, 32);
  }

  lemma FourWords(words: seq<word64>)
    requires |words| == 4
    ensures FlitBits(words) ==
      BitsDown(words[3], 64) + BitsDown(words[2], 64) + BitsDown(words[1], 64) + BitsDown(words[0], 64)
  {
    hide Bit;
    var m := BitsDown(words[3], 64) + BitsDown(words[2], 64) + BitsDown(words[1], 64) + BitsDown(words[0], 64);
    forall i | 0 <= i < 256 ensures FlitBits(words)[i] == m[i] {
      assert i / 64 == 0 || i / 64 == 1 || i / 64 == 2 || i / 64 == 3;
    }
  }

  /** The bits shifted in are those of the payload, most significant first. */
  lemma FlitBitsValue(words: seq<word64>)
    requires |words| == 4
    ensures Poly(FlitBits(words)) == FlitValue(words)
  {
    hide Poly, Bit, P2, FlitBits, BitsDown;
    var w0, w1 := BitsDown(words[0], 64), BitsDown(words[1], 64);
    var w2, w3 := BitsDown(words[2], 64), BitsDown(words[3], 64);
    SixtyFour();
    WordBits(words[0]);
    WordBits(words[1]);
    WordBits(words[2]);
    WordBits(words[3]);
    FourWords(words);
    PolyAppend(w3, w2);
    PolyAppend(w3 + w2, w1);
    PolyAppend(w3 + w2 + w1, w0);
  }

  // ----- the C function -----

  /** crc8_words */
  method Crc8Words(words: seq<word64>) returns (crc: byte)
    requires |words| == 4
    ensures crc == Crc8(FlitBits(words))
    ensures IsRemainder(FlitValue(words) * 256, crc)
  {
    hide Step, Shift, Bit;
    crc := 0;
    ghost var m := FlitBits(words);
    assert Shift(0, m[..0]) == 0 by { ShiftNothing(0); assert m[..0] == []; }
    for word := 4 downto 0
      invariant crc == Shift(0, m[..64 * (4 - word)])
    {
      for bit := 64 downto 0
        invariant crc == Shift(0, m[..64 * (3 - word) + 64 - bit])
      {
        ghost var k := 64 * (3 - word) + 63 - bit;
        assert k / 64 == 3 - word && k % 64 == 63 - bit;
        assert m[..k + 1] == m[..k] + [m[k]];
        ShiftSnoc(0, m[..k], m[k]);
        crc := Step(crc, Bit(words[word], bit));
      }
    }
    assert m[..256] == m;
    CrcIsRemainder(m);
    FlitBitsValue(words);
  }
}
