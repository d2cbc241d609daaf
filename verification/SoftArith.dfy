/** The soft multiply/divide runtime: 32-bit unsigned registers that wrap, proved to
    return what the hardware M extension returns. */
module SoftArith {
  import opened Bits
  import opened Rv32m

  /** A signed 32-bit C integer. */
  type int32 = x: int | -0x8000_0000 <= x < 0x8000_0000

  /** __mulsi3 */
  method Mulsi3(lhs0: word, rhs0: word) returns (result: word)
    ensures result == Result(0, lhs0, rhs0)
  {
    var lhs: word, rhs: word := lhs0, rhs0;
    result := 0;
    while rhs != 0
      invariant U32(result + lhs * rhs) == U32(lhs0 * rhs0)
    {
      ShiftAdd(result, lhs, rhs);
      if rhs % 2 == 1 {
        result := U32(result + lhs);
      }
      lhs := U32(lhs * 2);
      rhs := rhs / 2;
    }
  }

  /** One shift-add step keeps result + lhs * rhs modulo 2^32, although all three wrap. */
  lemma ShiftAdd(result: word, lhs: word, rhs: word)
    ensures var result' := if rhs % 2 == 1 then U32(result + lhs) else result;
            U32(result' + U32(lhs * 2) * (rhs / 2)) == U32(result + lhs * rhs)
  {
    var result' := if rhs % 2 == 1 then U32(result + lhs) else result;
    var h, c := rhs / 2, lhs * 2 / W;
    var e := if rhs % 2 == 1 then (result + lhs) / W else 0;
    WrappedTimes(lhs, c, h);
    HalfTimes(lhs, rhs);
    assert result' + U32(lhs * 2) * h == result + lhs * rhs + (-(c * h) - e) * W;
    U32Shift(result + lhs * rhs, -(c * h) - e);
  }

  lemma WrappedTimes(lhs: int, c: int, h: int)
    ensures (lhs * 2 - c * W) * h == 2 * (lhs * h) - (c * h) * W
  {
    assert (lhs * 2 - c * W) * h == (2 * lhs) * h - (W * c) * h;
    assert (2 * lhs) * h == 2 * (lhs * h);
    assert (W * c) * h == W * (c * h);
  }

  lemma HalfTimes(lhs: int, rhs: nat)
    ensures lhs * rhs == 2 * (lhs * (rhs / 2)) + (if rhs % 2 == 1 then lhs else 0)
  {
    var h, b := rhs / 2, rhs % 2;
    assert lhs * (2 * h + b) == lhs * (2 * h) + lhs * b;
    Doubling(lhs, h);
  }

  /** unsigned_divmod: restoring division, most significant bit first. The partial
      remainder needs 33 bits; the lost carry is kept in `high`. */
  method UnsignedDivmod(dividend: word, divisor: word) returns (quotient: word, remainder: word)
    ensures quotient == Result(5, dividend, divisor) && remainder == Result(7, dividend, divisor)
  {
    quotient := 0;
    var rem: word := 0;
    if divisor == 0 {
      UnsignedDivision(dividend, divisor);
      return 0xFFFF_FFFF, dividend;
    }
    hide Times, P2, Bw, Shr, Result, DivState, U32;
    ghost var q := 0;
    DivStart(dividend, divisor);
    for bit := 32 downto 0
      invariant DivState(dividend, divisor, bit, q, quotient, rem)
    {
      DivStep(dividend, divisor, bit, q, quotient, rem);
      TopBit(rem);
      var high := rem / 0x8000_0000;
      rem := Bw(Or, U32(rem * 2), Shr(dividend, bit) % 2);
      q := 2 * q;
      if high != 0 || rem >= divisor {
        rem := U32(rem - divisor);
        quotient := Bw(Or, quotient, P2(bit));
        q := q + 1;
      }
    }
    FinalQuotient(dividend, divisor, q, quotient, rem);
    UnsignedResult(dividend, divisor);
    remainder := rem;
  }

  lemma TopBit(v: word)
    ensures v / 0x8000_0000 != 0 <==> v >= 0x8000_0000
  {
  }

  function Times(a: int, b: int): int { a * b }

  /** The dividend bits brought down so far are q times the divisor plus a partial
      remainder, and the quotient register holds q in the bits decided so far. */
  ghost predicate DivState(dividend: word, divisor: word, bit: nat, q: int, quotient: word, rem: word) {
    && 0 <= q
    && quotient == Times(P2(bit), q)
    && Shr(dividend, bit) == Times(q, divisor) + rem
    && rem < divisor
  }

  lemma DivStart(dividend: word, divisor: word)
    requires divisor != 0
    ensures DivState(dividend, divisor, 32, 0, 0, 0)
  {
    P2Values();
    LowFits(dividend, 32);
  }

  lemma FinalQuotient(dividend: word, divisor: word, q: int, quotient: word, rem: word)
    requires DivState(dividend, divisor, 0, q, quotient, rem)
    ensures quotient == dividend / divisor && rem == dividend % divisor
  {
    assert divisor * q == q * divisor;
    DivUnique(dividend, divisor, q, rem);
  }

  /** One step of the restoring division, lost carry included. */
  lemma DivStep(dividend: word, divisor: word, bit: nat, q: int, quotient: word, rem: word)
    requires DivState(dividend, divisor, bit + 1, q, quotient, rem)
    ensures var b := Shr(dividend, bit) % 2;
            var shifted := Bw(Or, U32(rem * 2), b);
            && shifted == U32(rem * 2) + b && 0 <= shifted < W
            && if rem >= 0x8000_0000 || shifted >= divisor then
                 && 0 <= Bw(Or, quotient, P2(bit)) < W
                 && DivState(dividend, divisor, bit, 2 * q + 1, Bw(Or, quotient, P2(bit)), U32(shifted - divisor))
               else
                 DivState(dividend, divisor, bit, 2 * q, quotient, shifted)
  {
    hide Shr, P2, Bw, Times;
    var b := Shr(dividend, bit) % 2;
    var shifted := U32(rem * 2) + b;
    EvenOr(U32(rem * 2), b);
    ShrHalves(dividend, bit);
    Regroup(bit, q, divisor);
    LostCarry(rem, b, divisor, shifted);
    if 2 * rem + b >= divisor {
      OrLowBit(quotient, 2 * q, dividend, divisor, bit);
    }
  }

  lemma Regroup(bit: nat, q: int, d: int)
    ensures Times(P2(bit + 1), q) == Times(P2(bit), 2 * q)
    ensures Times(2 * q, d) == 2 * Times(q, d) && Times(2 * q + 1, d) == 2 * Times(q, d) + d
  {
    assert (2 * P2(bit)) * q == P2(bit) * (2 * q);
    assert (2 * q) * d == 2 * (q * d);
    assert (2 * q + 1) * d == (2 * q) * d + d;
  }

  /** Testing the lost carry or the wrapped register compares the 33-bit remainder. */
  lemma LostCarry(rem: word, b: int, divisor: word, shifted: int)
    requires 0 <= b < 2 && rem < divisor && shifted == U32(rem * 2) + b
    ensures rem >= 0x8000_0000 || shifted >= divisor <==> 2 * rem + b >= divisor
    ensures 2 * rem + b >= divisor ==> U32(shifted - divisor) == 2 * rem + b - divisor < divisor
    ensures 2 * rem + b < divisor ==> shifted == 2 * rem + b
  {
    if rem >= 0x8000_0000 {
      assert U32(rem * 2) == rem * 2 - W;
    }
  }

  lemma EvenOr(even: word, b: int)
    requires even % 2 == 0 && 0 <= b < 2
    ensures Bw(Or, even, b) == even + b
  {
    P2Values();
    OrDisjoint(even / 2, b, 1);
  }

  lemma {:induction false} ShrHalves(v: nat, k: nat)
    ensures Shr(v, k) == 2 * Shr(v, k + 1) + Shr(v, k) % 2
    decreases k
  {
    if k > 0 {
      ShrHalves(v / 2, k - 1);
    }
  }

  /** Setting a bit below all those set so far adds it, and stays within 32 bits. */
  lemma OrLowBit(quotient: word, q: nat, dividend: word, divisor: word, bit: nat)
    requires quotient == Times(P2(bit), q) && q % 2 == 0 && divisor > 0
    requires Times(q, divisor) + divisor <= Shr(dividend, bit)
    ensures Bw(Or, quotient, P2(bit)) == Times(P2(bit), q + 1) < W
  {
    hide Shr, Bw;
    var p, m := P2(bit), Shr(dividend, bit);
    assert P2(bit + 1) * (q / 2) == p * q by {
      DoublingLeft(p, q / 2);
      Doubling(p, q / 2);
    }
    OrDisjoint(q / 2, p, bit + 1);
    QuotientFits(p, q, divisor, m);
    ShrLow(dividend, bit);
  }

  lemma QuotientFits(p: int, q: nat, d: int, m: int)
    requires p > 0 && d > 0 && Times(q, d) + d <= m
    ensures p * (q + 1) == p * q + p <= p * m
  {
    MulNonNeg(q, d - 1);
    assert q * (d - 1) == q * d - q;
    assert q + 1 <= m;
    MulNonNeg(p, m - (q + 1));
    assert p * (m - (q + 1)) == p * m - p * (q + 1);
  }

  /** __udivsi3 */
  method Udivsi3(lhs: word, rhs: word) returns (r: word)
    ensures r == Result(5, lhs, rhs)
  {
    var remainder;
    r, remainder := UnsignedDivmod(lhs, rhs);
  }

  /** __umodsi3 */
  method Umodsi3(lhs: word, rhs: word) returns (r: word)
    ensures r == Result(7, lhs, rhs)
  {
    var quotient;
    quotient, r := UnsignedDivmod(lhs, rhs);
  }

  /** lhs < 0 ? 0u - (uint32_t)lhs : (uint32_t)lhs */
  function Magnitude(v: int32): (r: word)
    ensures r == Abs(v)
  {
    if v < 0 then U32(0 - U32(v)) else U32(v)
  }

  /** __divsi3 */
  method Divsi3(lhs: int32, rhs: int32) returns (r: int32)
    ensures U32(r) == Result(4, U32(lhs), U32(rhs))
  {
    hide Result, Magnitude, Overflows;
    var quotient: word, remainder: word := UnsignedDivmod(Magnitude(lhs), Magnitude(rhs));
    SpecialCases(lhs, rhs);
    if rhs == 0 {
      return -1;
    }
    if U32(lhs) == 0x8000_0000 && rhs == -1 {
      return lhs;
    }
    SignFromMagnitudes(lhs, rhs);
    r := if (lhs < 0) != (rhs < 0) then S32(U32(0 - quotient)) else S32(quotient);
  }

  /** __modsi3 */
  method Modsi3(lhs: int32, rhs: int32) returns (r: int32)
    ensures U32(r) == Result(6, U32(lhs), U32(rhs))
  {
    hide Result, Magnitude, Overflows;
    var quotient: word, remainder: word := UnsignedDivmod(Magnitude(lhs), Magnitude(rhs));
    SpecialCases(lhs, rhs);
    if rhs == 0 {
      return lhs;
    }
    if U32(lhs) == 0x8000_0000 && rhs == -1 {
      return 0;
    }
    SignFromMagnitudes(lhs, rhs);
    r := if lhs < 0 then S32(U32(0 - remainder)) else S32(remainder);
  }

  /** Division by zero and INT_MIN / -1. */
  lemma SpecialCases(x: int32, y: int32)
    ensures y == 0 ==> Result(4, U32(x), U32(y)) == 0xFFFF_FFFF && Result(6, U32(x), U32(y)) == U32(x)
    ensures U32(x) == 0x8000_0000 && y == -1 ==> Result(4, U32(x), U32(y)) == U32(x) && Result(6, U32(x), U32(y)) == 0
    ensures Overflows(x, y) <==> U32(x) == 0x8000_0000 && y == -1
  {
    hide Result, TruncDiv, TruncRem, IsTruncDivision;
    S32U32(x);
    S32U32(y);
    SignedDivision(U32(x), U32(y));
  }

  /** Dividing the magnitudes and restoring the signs divides toward zero. */
  lemma SignFromMagnitudes(x: int32, y: int32)
    requires y != 0 && !Overflows(x, y)
    ensures var q, r := Result(5, Magnitude(x), Magnitude(y)), Result(7, Magnitude(x), Magnitude(y));
            && Result(4, U32(x), U32(y)) == U32(if (x < 0) != (y < 0) then 0 - q else q)
            && Result(6, U32(x), U32(y)) == U32(if x < 0 then 0 - r else r)
  {
    hide Result, TruncDiv, TruncRem, IsTruncDivision;
    S32U32(x);
    S32U32(y);
    SignedDivision(U32(x), U32(y));
    UnsignedResult(Magnitude(x), Magnitude(y));
    SignedQuotient(x, y);
    MagnitudeRemainder(x, y);
  }

  /** The remainder of the magnitudes, with the dividend's sign, is the signed remainder. */
  lemma MagnitudeRemainder(x: int, y: int)
    requires y != 0
    ensures TruncRem(x, y) == if x < 0 then -(Abs(x) % Abs(y)) else Abs(x) % Abs(y)
  {
    var n, m := Abs(x), Abs(y);
    assert n == m * (n / m) + n % m;
    SignedQuotient(x, y);
    NegMul(n / m, y);
    NegMul(n / m, m);
  }
}
