/** Words as integers: powers of two, Python's bitwise operators on non-negative
    integers, two's-complement views, bit fields and bytes. */
module Bits {

  const W: int := 0x1_0000_0000

  type word = x: int | 0 <= x < 0x1_0000_0000
  type word64 = x: int | 0 <= x < 0x1_0000_0000_0000_0000
  type byte = x: int | 0 <= x < 256
  type regnum = x: int | 0 <= x < 32

  // ----- arithmetic -----

  function P2(n: nat): (r: nat)
    ensures r > 0
  {
    if n == 0 then 1 else 2 * P2(n - 1)
  }

  lemma {:induction false} P2Add(m: nat, n: nat)
    ensures P2(m + n) == P2(m) * P2(n)
  {
    if m > 0 {
      P2Add(m - 1, n);
      assert P2(m + n) == 2 * P2(m - 1 + n);
      DoublingLeft(P2(m - 1), P2(n));
    }
  }

  lemma P2Values()
    ensures P2(0) == 1 && P2(1) == 2 && P2(2) == 4 && P2(3) == 8 && P2(4) == 16
    ensures P2(5) == 32 && P2(6) == 64 && P2(7) == 128 && P2(8) == 256
    ensures P2(12) == 0x1000 && P2(16) == 0x1_0000 && P2(20) == 0x10_0000
    ensures P2(24) == 0x100_0000 && P2(31) == 0x8000_0000 && P2(32) == W
  {
    assert P2(8) == 256;
    P2Add(8, 4);
    P2Add(8, 8);
    P2Add(16, 4);
    P2Add(16, 8);
    P2Add(24, 7);
    P2Add(24, 8);
  }

  lemma MulNonNeg(a: int, b: int)
    requires a >= 0 && b >= 0
    ensures a * b >= 0
  {
  }

  lemma Doubling(h: int, p: int)
    ensures h * (2 * p) == 2 * (h * p)
  {
  }

  lemma MulStrict(d: int, a: int, b: int)
    requires d > 0
    ensures a < b ==> d * a + d <= d * b
  {
    if a < b {
      MulNonNeg(d, b - a - 1);
      assert d * (b - a - 1) == d * b - d * a - d;
    }
  }

  lemma DivUnique(n: int, d: int, q: int, r: int)
    requires d > 0 && 0 <= r < d && n == d * q + r
    ensures n / d == q && n % d == r
  {
    MulStrict(d, n / d, q);
    MulStrict(d, q, n / d);
  }

  lemma DivNonNeg(n: nat, d: int)
    requires d > 0
    ensures 0 <= n / d <= n
  {
    var q := n / d;
    MulStrict(d, q, 0);
    if q >= 0 {
      MulNonNeg(d - 1, q);
      assert (d - 1) * q == d * q - q;
    }
  }

  // ----- shifts and low bits -----

  /** Python's v >> k on a non-negative integer. */
  function Shr(v: nat, k: nat): nat
    decreases v, k
  {
    if k == 0 then v else Shr(v / 2, k - 1)
  }

  /** Python's v << k. */
  function Shl(v: nat, k: nat): nat
    decreases k
  {
    if k == 0 then v else Shl(2 * v, k - 1)
  }

  lemma {:induction false} ShlIsMul(v: nat, k: nat)
    ensures Shl(v, k) == v * P2(k)
    decreases k
  {
    if k > 0 {
      ShlIsMul(2 * v, k - 1);
      DoublingLeft(v, P2(k - 1));
      Doubling(v, P2(k - 1));
    }
  }

  /** The low k bits of v, that is v & ((1 << k) - 1). */
  function Low(v: nat, k: nat): nat
    decreases v, k
  {
    if k == 0 then 0 else v % 2 + 2 * Low(v / 2, k - 1)
  }

  /** Bit i of v. */
  predicate Bit(v: nat, i: nat) {
    Shr(v, i) % 2 == 1
  }

  lemma {:induction false} ShrLow(v: nat, k: nat)
    ensures v == P2(k) * Shr(v, k) + Low(v, k) && Low(v, k) < P2(k)
    decreases k
  {
    if k > 0 {
      ShrLow(v / 2, k - 1);
      LowStep(v, P2(k - 1), Shr(v / 2, k - 1), Low(v / 2, k - 1));
    }
  }

  lemma LowStep(v: nat, p: int, h: int, l: int)
    requires v / 2 == p * h + l
    ensures v == (2 * p) * h + (v % 2 + 2 * l)
  {
    DoublingLeft(p, h);
  }

  lemma ShrLowUnique(v: nat, k: nat, q: nat, r: nat)
    requires r < P2(k) && v == P2(k) * q + r
    ensures Shr(v, k) == q && Low(v, k) == r
  {
    ShrLow(v, k);
    DivUnique(v, P2(k), q, r);
    DivUnique(v, P2(k), Shr(v, k), Low(v, k));
  }

  /** Shifting is division, and the bits shifted out are the remainder. */
  lemma ShrIsDiv(v: nat, k: nat)
    ensures Shr(v, k) == v / P2(k) && Low(v, k) == v % P2(k)
  {
    ShrLow(v, k);
    DivUnique(v, P2(k), Shr(v, k), Low(v, k));
  }

  lemma LowFits(a: nat, k: nat)
    requires a < P2(k)
    ensures Low(a, k) == a && Shr(a, k) == 0
  {
    ShrLowUnique(a, k, 0, a);
  }

  lemma {:induction false} ShrShr(v: nat, j: nat, k: nat)
    ensures Shr(Shr(v, j), k) == Shr(v, j + k)
    decreases j
  {
    if j > 0 {
      ShrShr(v / 2, j - 1, k);
    }
  }

  lemma ShrSmall(v: nat)
    ensures Shr(v, 0) == v && Shr(v, 1) == v / 2 && Shr(v, 2) == v / 2 / 2 && Shr(v, 3) == v / 2 / 2 / 2
  {
    assert Shr(v / 2 / 2, 1) == v / 2 / 2 / 2;
    assert Shr(v / 2, 1) == v / 2 / 2;
    assert Shr(v / 2, 2) == Shr(v / 2 / 2, 1);
  }

  /** The low m + n bits are the low m bits and the n bits above them. */
  lemma {:induction false} LowSplit(v: nat, m: nat, n: nat)
    ensures Low(v, m + n) == Low(v, m) + P2(m) * Low(Shr(v, m), n)
    decreases m
  {
    if m > 0 {
      LowSplit(v / 2, m - 1, n);
      assert Low(v, m + n) == v % 2 + 2 * Low(v / 2, m - 1 + n);
      DoublingLeft(P2(m - 1), Low(Shr(v, m), n));
    }
  }

  lemma DoublingLeft(p: int, h: int)
    ensures (2 * p) * h == 2 * (p * h)
  {
  }

  // ----- bitwise operators -----

  datatype BitOp = And | Or | Xor | AndNot

  function ApplyBit(op: BitOp, p: bool, q: bool): bool {
    match op
    case And => p && q
    case Or => p || q
    case Xor => p != q
    case AndNot => p && !q
  }

  /** Python's a & b, a | b, a ^ b and a & ~b on non-negative integers. */
  function Bw(op: BitOp, a: nat, b: nat): (r: nat)
    decreases a + b
  {
    if a == 0 && b == 0 then 0
    else 2 * Bw(op, a / 2, b / 2) + (if ApplyBit(op, a % 2 == 1, b % 2 == 1) then 1 else 0)
  }

  lemma BwStep(op: BitOp, a: nat, b: nat)
    ensures Bw(op, a, b) == 2 * Bw(op, a / 2, b / 2) + (if ApplyBit(op, a % 2 == 1, b % 2 == 1) then 1 else 0)
    ensures Bw(op, a, b) / 2 == Bw(op, a / 2, b / 2)
    ensures Bw(op, a, b) % 2 == 1 <==> ApplyBit(op, a % 2 == 1, b % 2 == 1)
  {
  }

  /** The operators act bit by bit: this fixes Bw without its recursion. */
  lemma {:induction false} BwBit(op: BitOp, a: nat, b: nat, i: nat)
    ensures Bit(Bw(op, a, b), i) == ApplyBit(op, Bit(a, i), Bit(b, i))
    decreases i
  {
    BwStep(op, a, b);
    if i > 0 {
      BwBit(op, a / 2, b / 2, i - 1);
    }
  }

  /** A value is determined by its bits. */
  lemma {:induction false} BitsDetermine(a: nat, b: nat)
    requires forall i: nat :: Bit(a, i) == Bit(b, i)
    ensures a == b
    decreases a + b
  {
    if a != 0 || b != 0 {
      assert Bit(a, 0) == Bit(b, 0);
      forall i: nat ensures Bit(a / 2, i) == Bit(b / 2, i) {
        assert Bit(a, i + 1) == Bit(b, i + 1);
      }
      BitsDetermine(a / 2, b / 2);
    }
  }

  /** Splitting both operands at bit k splits the result at bit k. */
  lemma {:induction false} BwSplit(op: BitOp, a: nat, b: nat, k: nat)
    ensures Low(Bw(op, a, b), k) == Bw(op, Low(a, k), Low(b, k))
    ensures Shr(Bw(op, a, b), k) == Bw(op, Shr(a, k), Shr(b, k))
    decreases k
  {
    if k > 0 {
      BwSplit(op, a / 2, b / 2, k - 1);
      BwStep(op, a, b);
      BwStep(op, Low(a, k), Low(b, k));
    }
  }

  lemma {:induction false} BwZero(op: BitOp, a: nat)
    ensures Bw(op, a, 0) == if op == And then 0 else a
    ensures Bw(op, 0, a) == if op == And || op == AndNot then 0 else a
  {
    if a > 0 {
      BwZero(op, a / 2);
    }
  }

  lemma BwBound(op: BitOp, a: nat, b: nat, k: nat)
    requires a < P2(k) && b < P2(k)
    ensures Bw(op, a, b) < P2(k)
  {
    BwSplit(op, a, b, k);
    LowFits(a, k);
    LowFits(b, k);
    BwZero(op, 0);
    ShrLow(Bw(op, a, b), k);
  }

  lemma BwWord(op: BitOp, a: word, b: word)
    ensures 0 <= Bw(op, a, b) < W
  {
    P2Values();
    BwBound(op, a, b, 32);
  }

  function BitAnd(a: word, b: word): word {
    BwWord(And, a, b);
    Bw(And, a, b)
  }

  function BitOr(a: word, b: word): word {
    BwWord(Or, a, b);
    Bw(Or, a, b)
  }

  function BitXor(a: word, b: word): word {
    BwWord(Xor, a, b);
    Bw(Xor, a, b)
  }

  /** a & ~b */
  function BitClear(a: word, b: word): word {
    BwWord(AndNot, a, b);
    Bw(AndNot, a, b)
  }

  /** a | b adds when the operands share no bit position: a is a multiple of 2^k, b fits below it. */
  lemma OrDisjoint(h: nat, b: nat, k: nat)
    requires b < P2(k)
    ensures Bw(Or, P2(k) * h, b) == P2(k) * h + b
  {
    MulNonNeg(P2(k), h);
    var a := P2(k) * h;
    ShrLowUnique(a, k, h, 0);
    LowFits(b, k);
    BwSplit(Or, a, b, k);
    BwZero(Or, h);
    BwZero(Or, b);
    ShrLow(Bw(Or, a, b), k);
  }

  /** OrDisjoint with the power of two written as a number. */
  lemma OrSum(k: nat, p: nat, h: nat, b: nat)
    requires p == P2(k) && b < p
    ensures Bw(Or, p * h, b) == p * h + b
  {
    OrDisjoint(h, b, k);
  }

  lemma {:induction false} BwComm(op: BitOp, a: nat, b: nat)
    requires op != AndNot
    ensures Bw(op, a, b) == Bw(op, b, a)
    decreases a + b
  {
    if a != 0 || b != 0 {
      BwComm(op, a / 2, b / 2);
    }
  }

  lemma {:induction false} XorAssoc(a: nat, b: nat, c: nat)
    ensures Bw(Xor, Bw(Xor, a, b), c) == Bw(Xor, a, Bw(Xor, b, c))
    decreases a + b + c
  {
    if a == 0 && b == 0 {
      BwZero(Xor, c);
      BwZero(Xor, Bw(Xor, b, c));
    } else if b == 0 && c == 0 {
      BwZero(Xor, a);
    } else {
      XorAssoc(a / 2, b / 2, c / 2);
      var x, y := Bw(Xor, a, b), Bw(Xor, b, c);
      BwStep(Xor, a, b);
      BwStep(Xor, b, c);
      BwStep(Xor, x, c);
      BwStep(Xor, a, y);
    }
  }

  lemma {:induction false} XorSelf(a: nat)
    ensures Bw(Xor, a, a) == 0
  {
    if a > 0 {
      XorSelf(a / 2);
    }
  }

  // ----- masks -----

  /** A mask of the n lowest bits keeps or clears them. */
  lemma {:induction false} LowMask(v: nat, n: nat)
    ensures Bw(And, v, P2(n) - 1) == Low(v, n)
    ensures Bw(AndNot, v, P2(n) - 1) == v - Low(v, n)
    decreases n
  {
    if n == 0 {
      BwZero(And, v);
      BwZero(AndNot, v);
    } else {
      LowMask(v / 2, n - 1);
      MaskStep(v, P2(n - 1));
      hide Bw;
    }
  }

  lemma MaskStep(v: nat, p: nat)
    requires p > 0
    ensures Bw(And, v, 2 * p - 1) == 2 * Bw(And, v / 2, p - 1) + v % 2
    ensures Bw(AndNot, v, 2 * p - 1) == 2 * Bw(AndNot, v / 2, p - 1)
  {
    var m := 2 * p - 1;
    assert m / 2 == p - 1 && m % 2 == 1;
    BwStep(And, v, m);
    BwStep(AndNot, v, m);
  }

  /** (v & ~(0xFF << k)) | (b << k) replaces the eight bits from position k. */
  lemma PutByte(v: nat, k: nat, b: byte)
    ensures var r := Bw(Or, Bw(AndNot, v, Shl(0xFF, k)), Shl(b, k));
            Low(r, k) == Low(v, k) && Shr(r, k) == Shr(v, k) - Low(Shr(v, k), 8) + b
  {
    P2Values();
    ShlIsMul(0xFF, k);
    ShlIsMul(b, k);
    var cleared := Bw(AndNot, v, Shl(0xFF, k));
    ShrLowUnique(Shl(0xFF, k), k, 0xFF, 0);
    ShrLowUnique(Shl(b, k), k, b, 0);
    BwSplit(AndNot, v, Shl(0xFF, k), k);
    BwZero(AndNot, Low(v, k));
    LowMask(Shr(v, k), 8);
    ShrLow(Shr(v, k), 8);
    var h := Shr(Shr(v, k), 8);
    assert Shr(cleared, k) == P2(8) * h;
    BwSplit(Or, cleared, Shl(b, k), k);
    BwZero(Or, Low(v, k));
    OrDisjoint(h, b, 8);
  }

  lemma BitValues(v: nat)
    ensures Bit(v, 3) <==> v / 0x8 % 2 == 1
    ensures Bit(v, 7) <==> v / 0x80 % 2 == 1
    ensures Bit(v, 11) <==> v / 0x800 % 2 == 1
    ensures P2(3) == 0x8 && P2(7) == 0x80 && P2(11) == 0x800
  {
    P2Values();
    assert P2(11) == 2 * P2(10) && P2(10) == 2 * P2(9);
    ShrIsDiv(v, 3);
    ShrIsDiv(v, 7);
    ShrIsDiv(v, 11);
  }

  /** Testing, setting and clearing one bit. */
  lemma {:induction false} OneBit(v: nat, k: nat)
    ensures Bw(And, v, P2(k)) == if Bit(v, k) then P2(k) else 0
    ensures Bw(Or, v, P2(k)) == if Bit(v, k) then v else v + P2(k)
    ensures Bw(AndNot, v, P2(k)) == if Bit(v, k) then v - P2(k) else v
    decreases k
  {
    BwStep(And, v, P2(k));
    BwStep(Or, v, P2(k));
    BwStep(AndNot, v, P2(k));
    if k == 0 {
      BwZero(And, v / 2);
      BwZero(Or, v / 2);
      BwZero(AndNot, v / 2);
    } else {
      OneBit(v / 2, k - 1);
      assert P2(k) / 2 == P2(k - 1) && P2(k) % 2 == 0;
    }
  }

  lemma P2Halves(k: nat)
    requires k > 0
    ensures P2(k) / 2 == P2(k - 1) && P2(k) % 2 == 0
  {
  }

  /** A mask of two bits acts as its two bits do. */
  lemma {:induction false} TwoBits(v: nat, j: nat, k: nat)
    requires j < k
    ensures Bw(And, v, P2(j) + P2(k)) == Bw(And, v, P2(j)) + Bw(And, v, P2(k))
    ensures Bw(AndNot, v, P2(j) + P2(k)) == v - Bw(And, v, P2(j)) - Bw(And, v, P2(k))
    decreases j
  {
    hide Bw, P2, Bit;
    var m := P2(j) + P2(k);
    P2Halves(k);
    BwStep(And, v, m);
    BwStep(AndNot, v, m);
    BwStep(And, v, P2(j));
    BwStep(And, v, P2(k));
    if j == 0 {
      P2Values();
      BwZero(And, v / 2);
      OneBit(v / 2, k - 1);
      assert m / 2 == P2(k - 1) && m % 2 == 1;
    } else {
      P2Halves(j);
      TwoBits(v / 2, j - 1, k - 1);
      assert m / 2 == P2(j - 1) + P2(k - 1) && m % 2 == 0;
    }
  }

  // ----- two's complement -----

  function U32(v: int): word {
    v % W
  }

  /** Adding a multiple of 2^32 does not change the word. */
  lemma U32Shift(v: int, k: int)
    ensures U32(v + k * W) == U32(v)
  {
    DivUnique(v + k * W, W, v / W + k, v % W);
  }

  /** A word read as a signed 32-bit integer. */
  function S32(v: word): (r: int)
    ensures -0x8000_0000 <= r < 0x8000_0000
    ensures U32(r) == v
  {
    if v >= 0x8000_0000 then v - W else v
  }

  /** sext(v, bits) for a value that fits in that many bits, as a signed integer:
      the top bit weighs -2^(bits-1). */
  function SignExtend(v: nat, bits: nat): int
    requires bits > 0
  {
    if v >= P2(bits - 1) then v - P2(bits) else v
  }

  /** Bits high..low of a word. */
  function Field(v: word, high: nat, low: nat): nat
    requires low <= high
  {
    Low(Shr(v, low), high - low + 1)
  }

  lemma FieldBound(v: word, high: nat, low: nat)
    requires low <= high
    ensures Field(v, high, low) < P2(high - low + 1)
  {
    ShrLow(Shr(v, low), high - low + 1);
  }

  /** A field is its lower part and its upper part. */
  lemma FieldSplit(v: word, high: nat, mid: nat, low: nat)
    requires low < mid <= high
    ensures Field(v, high, low) == Field(v, mid - 1, low) + P2(mid - low) * Field(v, high, mid)
  {
    LowSplit(Shr(v, low), mid - low, high - mid + 1);
    ShrShr(v, low, mid - low);
  }

  /** Words add like the integers they stand for. */
  lemma U32Add(a: int, b: int)
    ensures U32(a + U32(b)) == U32(a + b)
  {
    U32Shift(a + U32(b), b / W);
  }

  // ----- bytes of a word -----

  /** Byte i of a word, counted from the least significant. */
  function ByteOf(w: word, i: nat): byte
    requires i < 4
  {
    match i
    case 0 => w % 256
    case 1 => w / 256 % 256
    case 2 => w / 256 / 256 % 256
    case 3 => w / 256 / 256 / 256
  }

  function WordOf(b0: byte, b1: byte, b2: byte, b3: byte): word {
    b0 + 256 * (b1 + 256 * (b2 + 256 * b3))
  }

  lemma WordBytes(w: word)
    ensures WordOf(ByteOf(w, 0), ByteOf(w, 1), ByteOf(w, 2), ByteOf(w, 3)) == w
  {
  }

  lemma BytesWord(b0: byte, b1: byte, b2: byte, b3: byte)
    ensures ByteOf(WordOf(b0, b1, b2, b3), 0) == b0 && ByteOf(WordOf(b0, b1, b2, b3), 1) == b1
    ensures ByteOf(WordOf(b0, b1, b2, b3), 2) == b2 && ByteOf(WordOf(b0, b1, b2, b3), 3) == b3
  {
    var h1, h2 := b1 + 256 * (b2 + 256 * b3), b2 + 256 * b3;
    assert WordOf(b0, b1, b2, b3) / 256 == h1;
    assert h1 / 256 == h2;
  }

  /** Shifting a word right by whole bytes. */
  lemma WordShifts(w: word)
    ensures var b0, b1, b2, b3 := ByteOf(w, 0), ByteOf(w, 1), ByteOf(w, 2), ByteOf(w, 3);
            && Shr(w, 0) == w && Low(w, 0) == 0
            && Shr(w, 8) == b1 + 256 * (b2 + 256 * b3) && Low(w, 8) == b0
            && Shr(w, 16) == b2 + 256 * b3 && Low(w, 16) == b0 + 256 * b1
            && Shr(w, 24) == b3 && Low(w, 24) == b0 + 256 * (b1 + 256 * b2)
  {
    P2Values();
    WordBytes(w);
    var b0: int, b1: int, b2: int, b3: int := ByteOf(w, 0), ByteOf(w, 1), ByteOf(w, 2), ByteOf(w, 3);
    ShrLowUnique(w, 8, b1 + 256 * (b2 + 256 * b3), b0);
    ShrLowUnique(w, 16, b2 + 256 * b3, b0 + 256 * b1);
    ShrLowUnique(w, 24, b3, b0 + 256 * (b1 + 256 * b2));
  }

  /** Byte i of a word, and the halfword from byte i, by shift and mask. */
  lemma ByteShift(w: word, i: nat)
    requires i < 4
    ensures Low(Shr(w, 8 * i), 8) == ByteOf(w, i)
    ensures Low(Shr(w, 8 * i), 16) == ByteOf(w, i) + (if i < 3 then 256 * ByteOf(w, i + 1) else 0)
  {
    WordShifts(w);
    var b1: int, b2: int, b3: int := ByteOf(w, 1), ByteOf(w, 2), ByteOf(w, 3);
    P2Values();
    if i == 0 {
    } else if i == 1 {
      ShrLowUnique(Shr(w, 8), 8, b2 + 256 * b3, b1);
      ShrLowUnique(Shr(w, 8), 16, b3, b1 + 256 * b2);
    } else if i == 2 {
      ShrLowUnique(Shr(w, 16), 8, b3, b2);
      ShrLowUnique(Shr(w, 16), 16, 0, b2 + 256 * b3);
    } else {
      ShrLowUnique(Shr(w, 24), 8, 0, b3);
      ShrLowUnique(Shr(w, 24), 16, 0, b3);
    }
  }
}
