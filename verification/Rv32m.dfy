/** The M extension: rv32m_result of the checker, and what the standard says of it
    (RISC-V Unprivileged ISA, sections 7.1 and 7.2). */
module Rv32m {
  import opened Bits

  /** rv32m_result(funct3, lhs, rhs). */
  function Result(funct3: nat, lhs: word, rhs: word): word
    requires funct3 < 8
  {
    var ls, rs := S32(lhs), S32(rhs);
    if funct3 == 0 then U32(lhs * rhs)
    else if funct3 == 1 then U32(ls * rs / W)
    else if funct3 == 2 then U32(ls * rhs / W)
    else if funct3 == 3 then U32(lhs * rhs / W)
    else if rhs == 0 then (if funct3 == 4 || funct3 == 5 then 0xFFFF_FFFF else lhs)
    else if (funct3 == 4 || funct3 == 6) && lhs == 0x8000_0000 && rhs == 0xFFFF_FFFF then
      (if funct3 == 4 then 0x8000_0000 else 0)
    else if funct3 == 4 || funct3 == 6 then
      var magnitude := Abs(ls) / Abs(rs);
      var quotient := if (ls < 0) != (rs < 0) then -magnitude else magnitude;
      var remainder := ls - quotient * rs;
      U32(if funct3 == 4 then quotient else remainder)
    else if funct3 == 5 then U32(lhs / rhs)
    else U32(lhs % rhs)
  }

  function Abs(x: int): nat {
    if x < 0 then -x else x
  }

  /** Quotient rounded toward zero. */
  function TruncDiv(a: int, b: int): int
    requires b != 0
  {
    if a >= 0 then a / b else -(-a / b)
  }

  function TruncRem(a: int, b: int): int
    requires b != 0
  {
    a - TruncDiv(a, b) * b
  }

  /** The pair (q, r) is the division of a by b rounded toward zero. */
  ghost predicate IsTruncDivision(a: int, b: int, q: int, r: int) {
    && a == q * b + r
    && Abs(r) < Abs(b)
    && (r == 0 || (r < 0 <==> a < 0))
  }

  lemma TruncDivIsDivision(a: int, b: int)
    requires b != 0
    ensures IsTruncDivision(a, b, TruncDiv(a, b), TruncRem(a, b))
    ensures Abs(TruncDiv(a, b)) <= Abs(a) && Abs(TruncRem(a, b)) <= Abs(a)
  {
    var n := Abs(a);
    var q, r := n / b, n % b;
    EuclidBound(n, b, q, r);
    NegMul(q, b);
    assert a - TruncDiv(a, b) * b == if a < 0 then -r else r;
  }

  lemma NegMul(q: int, b: int)
    ensures -q * b == -(q * b) && q * -b == -(q * b) && b * q == q * b
  {
  }

  /** Euclidean division by a negative divisor. */
  lemma DivNegative(n: nat, m: int)
    requires m > 0
    ensures n / -m == -(n / m) && n % -m == n % m
  {
    var q, r := n / -m, n % -m;
    assert n == -m * q + r && 0 <= r < m;
    NegMul(m, q);
    NegMul(q, m);
    DivUnique(n, m, -q, r);
  }

  lemma EuclidBound(n: nat, b: int, q: int, r: int)
    requires b != 0 && q == n / b && r == n % b
    ensures n == q * b + r && 0 <= r < Abs(b)
    ensures Abs(q) <= n && r <= n
  {
    var m := Abs(b);
    DivNonNeg(n, m);
    assert n == m * (n / m) + n % m;
    NegMul(n / m, m);
    MulNonNeg(m, n / m);
    if b < 0 {
      DivNegative(n, m);
    }
  }

  /** There is only one division rounded toward zero. */
  lemma TruncDivisionUnique(a: int, b: int, q: int, r: int)
    requires b != 0 && IsTruncDivision(a, b, q, r)
    ensures q == TruncDiv(a, b) && r == TruncRem(a, b)
  {
    hide TruncDiv, TruncRem;
    TruncDivIsDivision(a, b);
    SameQuotient(q, TruncDiv(a, b), b, r, TruncRem(a, b));
  }

  lemma SameQuotient(q: int, p: int, b: int, r: int, s: int)
    requires q * b + r == p * b + s && Abs(s - r) < Abs(b)
    ensures q == p
  {
    MultipleGrows(q - p, b);
    assert (q - p) * b == q * b - p * b;
  }

  lemma MultipleGrows(k: int, b: int)
    ensures k != 0 ==> Abs(k * b) >= Abs(b)
  {
    var m := Abs(b);
    NegMul(k, b);
    if k > 0 {
      MulNonNeg(k - 1, m);
      assert (k - 1) * m == k * m - m;
    } else if k < 0 {
      MulNonNeg(-k - 1, m);
      assert (-k - 1) * m == -(k * m) - m;
      NegMul(k, m);
    }
  }

  predicate Overflows(x: int, y: int) {
    x == -0x8000_0000 && y == -1
  }

  /** DIV and REM: rounding toward zero, division by zero, and signed overflow. */
  lemma SignedDivision(a: word, b: word)
    ensures b == 0 ==> Result(4, a, b) == 0xFFFF_FFFF && Result(6, a, b) == a
    ensures b != 0 && Overflows(S32(a), S32(b)) ==> Result(4, a, b) == a && Result(6, a, b) == 0
    ensures b != 0 && !Overflows(S32(a), S32(b)) ==>
      && S32(Result(4, a, b)) == TruncDiv(S32(a), S32(b))
      && S32(Result(6, a, b)) == TruncRem(S32(a), S32(b))
      && IsTruncDivision(S32(a), S32(b), S32(Result(4, a, b)), S32(Result(6, a, b)))
  {
    var x, y := S32(a), S32(b);
    if b != 0 && !Overflows(x, y) {
      TruncDivIsDivision(x, y);
      SignedQuotient(x, y);
      NoOverflow(x, y);
      S32U32(TruncDiv(x, y));
      S32U32(TruncRem(x, y));
    }
  }

  lemma S32U32(v: int)
    requires -0x8000_0000 <= v < 0x8000_0000
    ensures S32(U32(v)) == v
  {
  }

  lemma SignedQuotient(x: int, y: int)
    requires y != 0
    ensures TruncDiv(x, y) == if (x < 0) != (y < 0) then -(Abs(x) / Abs(y)) else Abs(x) / Abs(y)
  {
    if y < 0 {
      DivNegative(Abs(x), -y);
    }
  }

  lemma NoOverflow(x: int, y: int)
    requires -0x8000_0000 <= x < 0x8000_0000 && y != 0
    requires !Overflows(x, y)
    ensures -0x8000_0000 <= TruncDiv(x, y) < 0x8000_0000
  {
    var n, m := Abs(x), Abs(y);
    DivNonNeg(n, m);
    SignedQuotient(x, y);
    if m >= 2 {
      var q := n / m;
      MulNonNeg(m - 2, q);
      assert (m - 2) * q == m * q - 2 * q;
    }
  }

  /** DIVU and REMU. */
  lemma UnsignedDivision(a: word, b: word)
    ensures b == 0 ==> Result(5, a, b) == 0xFFFF_FFFF && Result(7, a, b) == a
    ensures b != 0 ==> a == Result(5, a, b) * b + Result(7, a, b) && Result(7, a, b) < b
  {
    if b != 0 {
      UnsignedResult(a, b);
      hide Result;
      Recompose(a, b);
    }
  }

  lemma UnsignedResult(a: word, b: word)
    requires b != 0
    ensures Result(5, a, b) == a / b && Result(7, a, b) == a % b
  {
    DivNonNeg(a, b);
  }

  lemma Recompose(a: int, b: int)
    requires b > 0
    ensures a == a / b * b + a % b && a % b < b
  {
    assert a == b * (a / b) + a % b;
  }

  /** MULH, MULHSU and MULHU return the upper half of the exact 64-bit product
      whose lower half MUL returns. */
  lemma ProductHalves(a: word, b: word)
    ensures S32(a) * S32(b) == S32(Result(1, a, b)) * W + Result(0, a, b)
    ensures S32(a) * b == S32(Result(2, a, b)) * W + Result(0, a, b)
    ensures a * b == Result(3, a, b) * W + Result(0, a, b)
  {
    var x, y := S32(a), S32(b);
    SignedTimes(a, x, b);
    SignedTimes(b, y, x);
    HighHalf(x, y, 0x8000_0000, 0x8000_0000);
    HighHalf(x, b, 0x8000_0000, 0xFFFF_FFFF);
    ProductBound(a, 0xFFFF_FFFF, b, 0xFFFF_FFFF);
    UnsignedHalves(a * b);
  }

  lemma UnsignedHalves(p: nat)
    requires p < W * W
    ensures p == U32(p / W) * W + U32(p)
  {
  }

  /** Reading a word as signed changes a product only by a multiple of 2^32. */
  lemma SignedTimes(a: word, x: int, c: int)
    requires x == S32(a)
    ensures U32(x * c) == U32(a * c) && U32(c * x) == U32(c * a) && c * x == x * c && c * a == a * c
  {
    if a >= 0x8000_0000 {
      assert x * c == a * c + -c * W by { assert (a - W) * c == a * c - W * c; }
      U32Shift(a * c, -c);
    }
  }

  lemma AbsTimes(x: int, y: int)
    ensures Abs(x) * Abs(y) == Abs(x * y)
  {
    NegMul(x, y);
    NegMul(x, -y);
    if x >= 0 && y >= 0 {
      MulNonNeg(x, y);
    } else if x < 0 && y < 0 {
      MulNonNeg(-x, -y);
    } else if x < 0 {
      MulNonNeg(-x, y);
    } else {
      MulNonNeg(x, -y);
    }
  }

  lemma HighHalf(x: int, y: int, m: nat, n: nat)
    requires Abs(x) <= m && Abs(y) <= n && m * n < 0x8000_0000 * W
    ensures x * y == S32(U32(x * y / W)) * W + U32(x * y)
  {
    ProductBound(Abs(x), m, Abs(y), n);
    AbsTimes(x, y);
    SignedHalves(x * y);
  }

  lemma SignedHalves(p: int)
    requires -0x8000_0000 * W <= p < 0x8000_0000 * W
    ensures p == S32(U32(p / W)) * W + U32(p)
  {
    S32U32(p / W);
  }

  lemma ProductBound(a: nat, m: nat, b: nat, n: nat)
    requires a <= m && b <= n
    ensures 0 <= a * b <= m * n
  {
    MulNonNeg(a, n - b);
    MulNonNeg(m - a, n);
    MulNonNeg(a, b);
    assert a * (n - b) == a * n - a * b;
    assert (m - a) * n == m * n - a * n;
  }
}
