/** What the flit CRC detects: the register is linear in the payload, so a set of flipped
    bits is missed exactly when its own CRC is zero. */
module CrcErrors {
  import opened Bits
  import opened Crc

  // ----- linearity -----

  /** The payload m with the bits of e flipped. */
  function Flip(m: bits, e: bits): (r: bits)
    requires |m| == |e|
    ensures |r| == |m| && forall i :: 0 <= i < |m| ==> r[i] == (m[i] != e[i])
  {
    seq(|m|, i requires 0 <= i < |m| => m[i] != e[i])
  }

  function XorByte(a: byte, b: byte): byte {
    P2Values();
    BwBound(Xor, a, b, 8);
    Bw(Xor, a, b)
  }

  lemma TopAndLow(c: byte)
    ensures Shr(c, 7) == (if c >= 0x80 then 1 else 0) && Low(2 * c, 8) == c * 2 % 256
  {
    P2Values();
    ShrIsDiv(c, 7);
    ShrIsDiv(2 * c, 8);
  }

  lemma XorTop(c: byte, d: byte)
    ensures XorByte(c, d) >= 0x80 <==> (c >= 0x80) != (d >= 0x80)
    ensures XorByte(c, d) * 2 % 256 == Bw(Xor, c * 2 % 256, d * 2 % 256)
  {
    hide Bw, Low, Shr;
    var x := XorByte(c, d);
    TopAndLow(c);
    TopAndLow(d);
    TopAndLow(x);
    BwBit(Xor, c, d, 7);
    BwSplit(Xor, 2 * c, 2 * d, 8);
    XorDouble(c, d);
  }

  lemma StepLinear(c: byte, d: byte, a: bool, b: bool)
    ensures Step(XorByte(c, d), a != b) == XorByte(Step(c, a), Step(d, b))
  {
    var x := XorByte(c, d);
    StepIsXor(c, a);
    StepIsXor(d, b);
    StepIsXor(x, a != b);
    XorTop(c, d);
    hide Bw, Step;
    var f, g := a != (c >= 0x80), b != (d >= 0x80);
    XorExchange(c * 2 % 256, If(f, POLY), d * 2 % 256, If(g, POLY));
    XorIf(f, g, POLY);
  }

  lemma {:induction false} ShiftLinear(c: byte, d: byte, m: bits, e: bits)
    requires |m| == |e|
    ensures Shift(XorByte(c, d), Flip(m, e)) == XorByte(Shift(c, m), Shift(d, e))
    decreases |m|
  {
    hide XorByte, Step;
    if m != [] {
      StepLinear(c, d, m[0], e[0]);
      ShiftLinear(Step(c, m[0]), Step(d, e[0]), m[1..], e[1..]);
      assert Flip(m, e)[1..] == Flip(m[1..], e[1..]);
    }
  }

  /** The CRC of a payload with flipped bits is the CRC of the payload plus that of the flips. */
  lemma CrcLinear(m: bits, e: bits)
    requires |m| == |e|
    ensures Crc8(Flip(m, e)) == XorByte(Crc8(m), Crc8(e))
  {
    ShiftLinear(0, 0, m, e);
    BwZero(Xor, 0);
  }

  /** Flipping bits goes unnoticed exactly when the flips have CRC zero. */
  lemma Undetected(m: bits, e: bits)
    requires |m| == |e|
    ensures Crc8(Flip(m, e)) == Crc8(m) <==> Crc8(e) == 0
  {
    hide Bw, Crc8;
    CrcLinear(m, e);
    var a, b := Crc8(m), Crc8(e);
    BwZero(Xor, a);
    if Bw(Xor, a, b) == a {
      XorAssoc(a, a, b);
      XorSelf(a);
      BwZero(Xor, b);
    }
  }

  // ----- parity -----

  /** Whether an odd number of bits is set. */
  function OddBits(m: bits): bool
    decreases |m|
  {
    m != [] && (m[0] != OddBits(m[1..]))
  }

  function OddByte(v: nat): bool {
    v != 0 && ((v % 2 == 1) != OddByte(v / 2))
  }

  lemma {:induction false} OddXor(a: nat, b: nat)
    ensures OddByte(Bw(Xor, a, b)) == (OddByte(a) != OddByte(b))
    decreases a + b
  {
    if a != 0 || b != 0 {
      OddXor(a / 2, b / 2);
      BwStep(Xor, a, b);
      OddStep(a);
      OddStep(b);
      OddStep(Bw(Xor, a, b));
    }
  }

  lemma OddStep(v: nat)
    ensures OddByte(v) == ((v % 2 == 1) != OddByte(v / 2))
  {
  }

  /** One step changes the register's parity exactly when the data bit is set. */
  lemma StepParity(c: byte, b: bool)
    ensures OddByte(Step(c, b)) == (OddByte(c) != b)
  {
    hide Bw, Step, OddByte;
    var top, low := c >= 0x80, c * 2 % 256;
    StepIsXor(c, b);
    P2Values();
    XorDisjoint(If(top, 1), low, 8, 256);
    OddStep(2 * c);
    OddXor(low, If(b != top, POLY));
    OddXor(If(top, 256), low);
    OddConstants();
  }

  lemma OddConstants()
    ensures OddByte(POLY) && OddByte(256) && !OddByte(0)
  {
  }

  lemma {:induction false} ShiftParity(c: byte, m: bits)
    ensures OddByte(Shift(c, m)) == (OddByte(c) != OddBits(m))
    decreases |m|
  {
    hide Step, OddByte;
    if m != [] {
      StepParity(c, m[0]);
      ShiftParity(Step(c, m[0]), m[1..]);
    }
  }

  /** The CRC has the parity of its payload: an odd number of flips is always detected. */
  lemma OddFlipsDetected(m: bits, e: bits)
    requires |m| == |e| && OddBits(e)
    ensures OddByte(Crc8(m)) == OddBits(m)
    ensures Crc8(Flip(m, e)) != Crc8(m)
  {
    ShiftParity(0, m);
    ShiftParity(0, e);
    Undetected(m, e);
  }

  // ----- bursts -----

  /** A bit string as a number, first bit most significant. */
  function Value(m: bits): nat
    decreases |m|
  {
    if m == [] then 0 else (if m[0] then P2(|m| - 1) else 0) + Value(m[1..])
  }

  lemma StepNumeric(c: byte, b: bool)
    ensures b == (c >= 0x80) ==> Step(c, b) == c * 2 % 256
    ensures b != (c >= 0x80) ==> Step(c, b) % 2 == 1
  {
    BwStep(Xor, c * 2 % 256, POLY);
  }

  /** Up to eight bits clear the register only by matching its leading bits, the rest being zero. */
  lemma {:induction false} ClearsOnlyIfMatching(c: byte, m: bits)
    requires |m| <= 8
    ensures Shift(c, m) == 0 <==> c == Value(m) * P2(8 - |m|)
    decreases |m|
  {
    hide Step;
    if m == [] {
      P2Values();
    } else {
      var d, k := Step(c, m[0]), |m| - 1;
      StepNumeric(c, m[0]);
      ClearsOnlyIfMatching(d, m[1..]);
      ValueBound(m[1..]);
      P2Add(k, 8 - k);
      P2Add(k, 7 - k);
      P2Values();
      MatchOne(c, m[0], d, Value(m[1..]), P2(7 - k), P2(k));
    }
  }

  lemma {:induction false} ValueBound(m: bits)
    ensures Value(m) < P2(|m|)
    decreases |m|
  {
    if m != [] {
      ValueBound(m[1..]);
    }
  }

  /** One bit of the match: d holds v on top of zeros exactly when c holds the bit and v. */
  lemma MatchOne(c: byte, b: bool, d: byte, v: nat, p: nat, t: nat)
    requires p > 0 && t * p == 128 && v < t
    requires b == (c >= 0x80) ==> d == c * 2 % 256
    requires b != (c >= 0x80) ==> d % 2 == 1
    ensures d == v * (2 * p) <==> c == ((if b then t else 0) + v) * p
  {
    var x: int := v * p;
    assert v * (2 * p) == 2 * x;
    assert ((if b then t else 0) + v) * p == (if b then 128 else 0) + x by {
      assert (t + v) * p == t * p + v * p;
    }
    assert 0 <= x < 128 by {
      MulNonNeg(v, p);
      MulStrict(p, v, t);
      assert p * v == v * p && p * t == t * p;
    }
    TopBitMatches(c, b, d, x);
  }

  lemma TopBitMatches(c: byte, b: bool, d: byte, x: int)
    requires 0 <= x < 128
    requires b == (c >= 0x80) ==> d == c * 2 % 256
    requires b != (c >= 0x80) ==> d % 2 == 1
    ensures d == 2 * x <==> c == (if b then 128 else 0) + x
  {
  }

  /** A window of at most eight bits, one of them set. */
  ghost predicate IsBurst(e: bits, start: nat, length: nat) {
    && 0 < length <= 8 && start + length <= |e|
    && (forall i :: 0 <= i < |e| && e[i] ==> start <= i < start + length)
    && (exists i :: 0 <= i < |e| && e[i])
  }

  lemma {:induction false} ZerosKeepZero(m: bits)
    requires forall i :: 0 <= i < |m| ==> !m[i]
    ensures Shift(0, m) == 0
    decreases |m|
  {
    if m != [] {
      StepNumeric(0, false);
      ZerosKeepZero(m[1..]);
    }
  }

  lemma {:induction false} ZerosKeepNonzero(c: byte, m: bits)
    requires forall i :: 0 <= i < |m| ==> !m[i]
    requires c != 0
    ensures Shift(c, m) != 0
    decreases |m|
  {
    if m != [] {
      hide Step;
      ClearsOnlyIfMatching(c, [false]);
      assert [false][1..] == [];
      ZerosKeepNonzero(Step(c, false), m[1..]);
    }
  }

  lemma {:induction false} ValuePositive(m: bits, i: nat)
    requires i < |m| && m[i]
    ensures Value(m) > 0
    decreases |m|
  {
    if i > 0 {
      ValuePositive(m[1..], i - 1);
    }
  }

  /** Up to eight bits, one of them set, leave a cleared register nonzero. */
  lemma WindowNonzero(m: bits, i: nat)
    requires i < |m| <= 8 && m[i]
    ensures Shift(0, m) != 0
  {
    hide Shift, Value, P2;
    ValuePositive(m, i);
    ClearsOnlyIfMatching(0, m);
    ProductPositive(Value(m), P2(8 - |m|));
  }

  lemma ProductPositive(a: int, b: int)
    requires a > 0 && b > 0
    ensures a * b > 0
  {
  }

  /** Any burst of at most eight bits is detected. */
  lemma BurstDetected(m: bits, e: bits, start: nat, length: nat)
    requires |m| == |e| && IsBurst(e, start, length)
    ensures Crc8(Flip(m, e)) != Crc8(m)
  {
    hide Shift, IsBurst, Flip;
    BurstNonzero(e, start, length);
    Undetected(m, e);
  }

  lemma BurstNonzero(e: bits, start: nat, length: nat)
    requires IsBurst(e, start, length)
    ensures Shift(0, e) != 0
  {
    hide Step, Shift;
    var before, window, after := e[..start], e[start..start + length], e[start + length..];
    assert e == before + (window + after);
    ZerosKeepZero(before);
    ShiftAppend(0, before, window + after);
    ShiftAppend(0, window, after);
    var i :| 0 <= i < |e| && e[i];
    WindowNonzero(window, i - start);
    ZerosKeepNonzero(Shift(0, window), after);
  }

  // ----- the receiver -----

  /** The eight bits of a CRC, most significant first. */
  function CrcBits(c: byte): bits {
    seq(8, i requires 0 <= i < 8 => Bit(c, 7 - i))
  }

  lemma CrcBitsValue(c: byte)
    ensures Value(CrcBits(c)) == c
  {
    P2Values();
    BitsRebuild(c, 8);
    LowFits(c, 8);
  }

  /** The k low bits of c, from bit k - 1 down, have the value of those bits. */
  lemma {:induction false} BitsRebuild(c: nat, k: nat)
    requires k <= 8
    ensures Value(seq(k, i requires 0 <= i < k => Bit(c, k - 1 - i))) == Low(c, k)
  {
    hide Shr, Low, P2;
    LowZero(c);
    if k > 0 {
      var m := seq(k, i requires 0 <= i < k => Bit(c, k - 1 - i));
      var n := seq(k - 1, i requires 0 <= i < k - 1 => Bit(c, k - 2 - i));
      assert m[1..] == n;
      BitsRebuild(c, k - 1);
      LowSplit(c, k - 1, 1);
      LowOne(Shr(c, k - 1));
      ScaledBit(P2(k - 1), Bit(c, k - 1));
    }
  }

  lemma LowZero(v: nat)
    ensures Low(v, 0) == 0
  {
  }

  lemma LowOne(v: nat)
    ensures Low(v, 1) == if v % 2 == 1 then 1 else 0
  {
  }

  lemma ScaledBit(p: nat, b: bool)
    ensures p * (if b then 1 else 0) == if b then p else 0
  {
  }

  /** Eight further bits bring the register to zero exactly when they are the CRC. */
  lemma ReceiverChecks(m: bits, tail: bits)
    requires |tail| == 8
    ensures Crc8(m + CrcBits(Crc8(m))) == 0
    ensures Crc8(m + tail) == 0 <==> Value(tail) == Crc8(m)
  {
    hide Step, Shift, Bit;
    var c := Crc8(m);
    ShiftAppend(0, m, CrcBits(c));
    ShiftAppend(0, m, tail);
    CrcBitsValue(c);
    ClearsOnlyIfMatching(c, CrcBits(c));
    ClearsOnlyIfMatching(c, tail);
    P2Values();
  }

  // ----- two flipped bits -----

  /** The register clocked n times with zeros: multiplication by x^n. */
  function Clock(c: byte, n: nat): byte {
    if n == 0 then c else Step(Clock(c, n - 1), false)
  }

  lemma {:induction false} ClockAdd(c: byte, m: nat, n: nat)
    ensures Clock(c, m + n) == Clock(Clock(c, m), n)
    decreases n
  {
    hide Step;
    if n > 0 {
      ClockAdd(c, m, n - 1);
    }
  }

  lemma {:induction false} ZerosClock(c: byte, m: bits)
    requires forall i :: 0 <= i < |m| ==> !m[i]
    ensures Shift(c, m) == Clock(c, |m|)
    decreases |m|
  {
    hide Step;
    if m != [] {
      var n := |m| - 1;
      ZerosClock(c, m[..n]);
      ShiftSnoc(c, m[..n], m[n]);
      assert m == m[..n] + [m[n]];
    }
  }

  /** n is a period of the register's orbit of 7 = x^2 + x + 1, the pattern one bit leaves. */
  predicate Period(n: nat) {
    Clock(7, n) == 7
  }

  lemma {:induction false} PeriodMultiple(n: nat, k: nat)
    requires Period(n)
    ensures Period(n * k)
    decreases k
  {
    hide Clock;
    if k == 0 {
      ClockNothing(7);
    } else {
      PeriodMultiple(n, k - 1);
      assert n * k == n * (k - 1) + n;
      MulNonNeg(n, k - 1);
      ClockAdd(7, n * (k - 1), n);
    }
  }

  lemma ClockNothing(c: byte)
    ensures Clock(c, 0) == c
  {
  }

  /** Dividing one period by another leaves a period. */
  lemma PeriodRemainder(n: nat, d: nat)
    requires d > 0 && Period(n) && Period(d)
    ensures Period(n % d)
  {
    hide Clock;
    DivNonNeg(n, d);
    PeriodMultiple(d, n / d);
    ClockAdd(7, d * (n / d), n % d);
    assert n == d * (n / d) + n % d;
  }

  /** 127 is prime and 1 is not a period, so no period lies between 0 and 127: Euclid's
      algorithm on a period and 127 would end at 1. */
  lemma {:induction false} NoSmallerPeriod(d: nat)
    requires 0 < d < 127 && Period(d)
    ensures false
    decreases d
  {
    hide Clock;
    Period127();
    PeriodRemainder(127, d);
    if d == 1 {
      OneIsNoPeriod();
    } else {
      Prime127(d);
      NoSmallerPeriod(127 % d);
    }
  }

  lemma Prime127(d: nat)
    requires 1 < d < 127
    ensures 0 < 127 % d
  {
    var q := 127 / d;
    assert 127 == d * q + 127 % d;
    if d < 12 {
      assert d == 2 || d == 3 || d == 4 || d == 5 || d == 6 || d == 7 || d == 8 || d == 9 || d == 10 || d == 11;
    } else {
      MulStrict(d, 10, q);
      MulStrict(d, q, 0);
      assert q == 0 || q == 1 || q == 2 || q == 3 || q == 4 || q == 5 || q == 6 || q == 7 || q == 8 || q == 9
          || q == 10;
    }
  }

  lemma OneIsNoPeriod()
    ensures !Period(1)
  {
    assert Clock(7, 0) == 7;
    StepNumeric(7, false);
  }

  /** One clock by arithmetic: a carry out of bit 7 complements the low three bits. */
  function Times2(c: byte): byte {
    if c < 0x80 then 2 * c else 2 * c - 256 + 7 - 2 * (2 * c % 8)
  }

  lemma ClockArithmetic(c: byte)
    ensures Step(c, false) == Times2(c)
  {
    hide Bw, Step;
    StepIsXor(c, false);
    if c >= 0x80 {
      XorSeven(2 * c - 256);
    } else {
      BwZero(Xor, 2 * c);
    }
  }

  lemma XorSeven(v: nat)
    ensures Bw(Xor, v, 7) == v + 7 - 2 * (v % 8)
  {
    P2Values();
    ShrIsDiv(v, 3);
    BwSplit(Xor, v, 7, 3);
    LowFits(7, 3);
    BwZero(Xor, Shr(v, 3));
    ShrLow(Bw(Xor, v, 7), 3);
    ComplementThree(Low(v, 3));
  }

  lemma ComplementThree(l: nat)
    requires l < 8
    ensures Bw(Xor, l, 7) == 7 - l
  {
    assert l == 0 || l == 1 || l == 2 || l == 3 || l == 4 || l == 5 || l == 6 || l == 7;
  }

  /** From state c to state d in four clocks, one line of arithmetic each. */
  lemma FourOn(at: nat, c: byte, c1: byte, c2: byte, c3: byte, d: byte)
    requires Clock(7, at) == c
    requires c1 == if c < 0x80 then 2 * c else 2 * c - 249 - 2 * (2 * c % 8)
    requires c2 == if c1 < 0x80 then 2 * c1 else 2 * c1 - 249 - 2 * (2 * c1 % 8)
    requires c3 == if c2 < 0x80 then 2 * c2 else 2 * c2 - 249 - 2 * (2 * c2 % 8)
    requires d == if c3 < 0x80 then 2 * c3 else 2 * c3 - 249 - 2 * (2 * c3 % 8)
    ensures Clock(7, at + 4) == d
  {
    hide Step;
    ClockArithmetic(c);
    ClockArithmetic(c1);
    ClockArithmetic(c2);
    ClockArithmetic(c3);
    assert Clock(7, at + 1) == c1;
    assert Clock(7, at + 2) == c2;
    assert Clock(7, at + 3) == c3;
  }

  /** Through the 127 states of the orbit. */
  lemma Period127()
    ensures Period(127)
  {
    hide Clock;
    ClockNothing(7);
    FirstHalf();
    SecondHalf();
    LastThree();
  }

  lemma FirstHalf()
    ensures Clock(7, 64) == 121
  {
    hide Clock;
    ClockNothing(7);
    FourOn(0, 7, 14, 28, 56, 112);
    FourOn(4, 112, 224, 199, 137, 21);
    FourOn(8, 21, 42, 84, 168, 87);
    FourOn(12, 87, 174, 91, 182, 107);
    FourOn(16, 107, 214, 171, 81, 162);
    FourOn(20, 162, 67, 134, 11, 22);
    FourOn(24, 22, 44, 88, 176, 103);
    FourOn(28, 103, 206, 155, 49, 98);
    FourOn(32, 98, 196, 143, 25, 50);
    FourOn(36, 50, 100, 200, 151, 41);
    FourOn(40, 41, 82, 164, 79, 158);
    FourOn(44, 158, 59, 118, 236, 223);
    FourOn(48, 223, 185, 117, 234, 211);
    FourOn(52, 211, 161, 69, 138, 19);
    FourOn(56, 19, 38, 76, 152, 55);
    FourOn(60, 55, 110, 220, 191, 121);
  }

  lemma SecondHalf()
    requires Clock(7, 64) == 121
    ensures Clock(7, 124) == 32
  {
    hide Clock;
    FourOn(64, 121, 242, 227, 193, 133);
    FourOn(68, 133, 13, 26, 52, 104);
    FourOn(72, 104, 208, 167, 73, 146);
    FourOn(76, 146, 35, 70, 140, 31);
    FourOn(80, 31, 62, 124, 248, 247);
    FourOn(84, 247, 233, 213, 173, 93);
    FourOn(88, 93, 186, 115, 230, 203);
    FourOn(92, 203, 145, 37, 74, 148);
    FourOn(96, 148, 47, 94, 188, 127);
    FourOn(100, 127, 254, 251, 241, 229);
    FourOn(104, 229, 205, 157, 61, 122);
    FourOn(108, 122, 244, 239, 217, 181);
    FourOn(112, 181, 109, 218, 179, 97);
    FourOn(116, 97, 194, 131, 1, 2);
    FourOn(120, 2, 4, 8, 16, 32);
  }

  lemma LastThree()
    requires Clock(7, 124) == 32
    ensures Clock(7, 127) == 7
  {
    hide Step;
    ClockArithmetic(32);
    ClockArithmetic(64);
    ClockArithmetic(128);
    assert Clock(7, 125) == 64;
    assert Clock(7, 126) == 128;
  }

  /** Bits i and j, and no others, are flipped. */
  ghost predicate FlipsTwo(e: bits, i: nat, j: nat) {
    i < j < |e| && forall k :: 0 <= k < |e| ==> (e[k] <==> k == i || k == j)
  }

  /** The periods of the orbit are the multiples of 127. */
  lemma PeriodIff(n: nat)
    ensures Period(n) <==> n % 127 == 0
  {
    hide Clock;
    Period127();
    if n % 127 == 0 {
      PeriodMultiple(127, n / 127);
    } else if Period(n) {
      PeriodRemainder(n, 127);
      NoSmallerPeriod(n % 127);
    }
  }

  /** Two flipped bits are missed exactly when their distance is a multiple of 127. */
  lemma TwoFlips(m: bits, e: bits, i: nat, j: nat)
    requires |m| == |e| && FlipsTwo(e, i, j)
    ensures Crc8(Flip(m, e)) == Crc8(m) <==> (j - i) % 127 == 0
  {
    hide Step, Shift, Clock;
    var before, gap, after := e[..i], e[i + 1..j], e[j + 1..];
    assert e == before + ([true] + (gap + ([true] + after)));
    ZerosKeepZero(before);
    ShiftAppend(0, before, [true] + (gap + ([true] + after)));
    ShiftAppend(0, [true], gap + ([true] + after));
    ShiftAppend(7, gap, [true] + after);
    ZerosClock(7, gap);
    var c := Clock(7, |gap|);
    ShiftAppend(c, [true], after);
    OneBitPattern(c);
    OneBitPattern(0);
    var d := Shift(c, [true]);
    ZerosFate(d, after);
    ClockAdd(7, |gap|, 1);
    PeriodIff(j - i);
    Undetected(m, e);
  }

  lemma ZerosFate(c: byte, m: bits)
    requires forall i :: 0 <= i < |m| ==> !m[i]
    ensures Shift(c, m) == 0 <==> c == 0
  {
    if c == 0 {
      ZerosKeepZero(m);
    } else {
      ZerosKeepNonzero(c, m);
    }
  }

  /** A one bit leaves 7 in a clear register, and clears exactly the register one clock before 7. */
  lemma OneBitPattern(c: byte)
    ensures Shift(c, [true]) == 0 <==> Clock(c, 1) == 7
    ensures c == 0 ==> Shift(c, [true]) == 7
  {
    assert [true][1..] == [];
    assert Clock(c, 0) == c;
    assert Clock(c, 1) == Step(c, false);
    StepIsXor(c, true);
    StepIsXor(c, false);
    var s := c * 2 % 256;
    BwZero(Xor, s);
    BwZero(Xor, 7);
    XorSelf(7);
    hide Bw, Step;
    if Bw(Xor, s, 7) == 0 {
      XorZeroMeansEqual(s, 7);
    }
    if Bw(Xor, s, 7) == 7 {
      XorAssoc(s, 7, 7);
      BwZero(Xor, s);
    }
  }
}
