/** The fixed-width integer arithmetic of the C++ sources, written out over unbounded integers. */
module MachineArith {

  const TWO_31: int := 0x8000_0000
  const TWO_32: int := 0x1_0000_0000
  const TWO_62: int := 0x4000_0000_0000_0000
  const TWO_63: int := 0x8000_0000_0000_0000
  const TWO_64: int := 0x1_0000_0000_0000_0000

  type Byte = b: int | 0 <= b < 256

  /** Conversion to a 32-bit unsigned integer. */
  function U32(x: int): nat { x % 0x1_0000_0000 }

  /** Conversion to a 64-bit unsigned integer. */
  function U64(x: int): nat { x % 0x1_0000_0000_0000_0000 }

  /** Conversion to a 32-bit two's complement integer. */
  function I32(x: int): int { if U32(x) < 0x8000_0000 then U32(x) else U32(x) - 0x1_0000_0000 }

  /** Conversion to a 64-bit two's complement integer. */
  function I64(x: int): int {
    if U64(x) < 0x8000_0000_0000_0000 then U64(x) else U64(x) - 0x1_0000_0000_0000_0000
  }

  /** The `/` of C and C++: the quotient is truncated toward zero. */
  function TruncDiv(a: int, b: int): int
    requires b != 0
  {
    if a >= 0 then a / b else -((-a) / b)
  }

  function Abs(x: int): nat { if x >= 0 then x else -x }

  function Max(x: int, y: int): int { if x >= y then x else y }

  lemma U32Shift(x: int, q: int)
    ensures U32(x + q * 0x1_0000_0000) == U32(x)
  {
    var y := x + q * 0x1_0000_0000;
    assert x == 0x1_0000_0000 * (x / 0x1_0000_0000) + U32(x);
    assert y == 0x1_0000_0000 * (x / 0x1_0000_0000 + q) + U32(x);
  }

  /** Wrapping the operands of a 32-bit addition or subtraction does not change the wrapped result. */
  lemma U32Sum(x: int, y: int)
    ensures U32(U32(x) + U32(y)) == U32(x + y)
    ensures U32(U32(x) - U32(y)) == U32(x - y)
    ensures U32(U32(x) + y) == U32(x + y)
  {
    var qx, qy := x / 0x1_0000_0000, y / 0x1_0000_0000;
    U32Shift(x + y, -qx - qy);
    U32Shift(x - y, qy - qx);
    U32Shift(x + y, -qx);
  }

  /** Values in range are not changed by the conversions to 64 bits. */
  lemma InRange64(x: int)
    requires 0 <= x < TWO_64
    ensures U64(x) == x
    ensures x < TWO_63 ==> I64(x) == x
  {
  }

  /** The 64-bit conversions drop multiples of 2^64, and keep what fits. */
  lemma Wraps64(x: int, q: int)
    ensures 0 <= x < 0x1_0000_0000_0000_0000 ==> U64(x + q * 0x1_0000_0000_0000_0000) == x
    ensures -0x8000_0000_0000_0000 <= x < 0x8000_0000_0000_0000 ==> I64(x + q * 0x1_0000_0000_0000_0000) == x
  {
    if 0 <= x < 0x1_0000_0000_0000_0000 {
      WrapsOnce(x, q);
    } else if -0x8000_0000_0000_0000 <= x < 0 {
      WrapsOnce(x + 0x1_0000_0000_0000_0000, q - 1);
    }
  }

  lemma WrapsOnce(x: int, q: int)
    requires 0 <= x < 0x1_0000_0000_0000_0000
    ensures (x + q * 0x1_0000_0000_0000_0000) % 0x1_0000_0000_0000_0000 == x
  {
  }

  /** A 32-bit signed reading of a difference recovers every difference in [-2^31, 2^31). */
  lemma I32Recovers(x: int)
    requires -TWO_31 <= x < TWO_31
    ensures I32(x) == x
  {
  }

  /** Division with remainder, as two bounds. */
  lemma QuotientBounds(m: int, b: int)
    requires b > 0
    ensures (m / b) * b <= m < (m / b) * b + b
  {
  }

  lemma MulNegate(q: int, b: int)
    ensures (-q) * b == -(q * b)
  {
  }

  /** Truncated division leaves a remainder below the divisor, on the dividend's side of zero. */
  lemma TruncDivRemainder(a: int, b: int)
    requires b > 0
    ensures Abs(a - TruncDiv(a, b) * b) < b
    ensures a >= 0 ==> TruncDiv(a, b) * b <= a
    ensures a <= 0 ==> TruncDiv(a, b) * b >= a
    ensures Abs(TruncDiv(a, b)) == Abs(a) / b
  {
    QuotientAtLeast(Abs(a), b, 0);
    QuotientBounds(Abs(a), b);
    MulNegate(Abs(a) / b, b);
  }

  /** Dividing a multiple gives back the factor, whatever its sign. */
  lemma TruncDivExact(q: int, b: int)
    requires b > 0
    ensures TruncDiv(q * b, b) == q
  {
    MulNegate(q, b);
    QuotientIs(Abs(q) * b, b, Abs(q)) by { MulSucc(Abs(q), b); }
    if q < 0 { MulMonotone(q, -1, b); } else { MulMonotone(0, q, b); }
  }

  lemma MulSucc(q: int, b: int)
    ensures (q + 1) * b == q * b + b
  {
  }

  /** A quotient is determined by any decomposition with a remainder in range. */
  lemma QuotientIs(x: int, d: int, q: int)
    requires d > 0
    requires q * d <= x < (q + 1) * d
    ensures x / d == q
  {
    QuotientAtLeast(x, d, q);
    QuotientAtLeast(x, d, q + 1);
  }

  /** Comparing a quotient with q is comparing the dividend with q * d. */
  lemma QuotientAtLeast(x: int, d: int, q: int)
    requires d > 0
    ensures x / d >= q <==> x >= q * d
  {
    QuotientBounds(x, d);
    MulSucc(x / d, d);
    if x / d >= q {
      MulMonotone(q, x / d, d);
    } else {
      MulMonotone(x / d + 1, q, d);
    }
  }

  lemma MulMonotone(x: int, y: int, d: int)
    requires x <= y && d >= 0
    ensures x * d <= y * d
  {
  }
}
