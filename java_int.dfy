/**
 * Java's fixed-width integers: `int` and `long` values, the wrap-around of
 * their arithmetic and of the narrowing `(int)` cast, and the truncating `/`.
 */
module JavaInt {

  const TWO_31: int := 0x8000_0000
  const TWO_32: int := 0x1_0000_0000
  const TWO_63: int := 0x8000_0000_0000_0000
  const TWO_64: int := 0x1_0000_0000_0000_0000

  /** A Java `int`. */
  type int32 = x: int | -0x8000_0000 <= x < 0x8000_0000

  /** A Java `long`. */
  type int64 = x: int | -0x8000_0000_0000_0000 <= x < 0x8000_0000_0000_0000

  /** Two's-complement narrowing to 32 bits: Java's `(int)` cast, and the result of `int` arithmetic. */
  function Wrap32(x: int): (r: int32)
    ensures (x - r) % TWO_32 == 0
    ensures -TWO_31 <= x < TWO_31 ==> r == x
  {
    (x + TWO_31) % TWO_32 - TWO_31
  }

  /** Two's-complement narrowing to 64 bits: the result of `long` arithmetic. */
  function Wrap64(x: int): (r: int64)
    ensures (x - r) % TWO_64 == 0
    ensures -TWO_63 <= x < TWO_63 ==> r == x
  {
    (x + TWO_63) % TWO_64 - TWO_63
  }

  function Abs(x: int): nat
  {
    if x < 0 then -x else x
  }

  /**
   * Java's `/` on `int`: the quotient is rounded toward zero (Dafny's own `/`
   * is Euclidean), and `Integer.MIN_VALUE / -1` wraps back to `MIN_VALUE`.
   * A zero divisor throws `ArithmeticException`, so callers rule it out.
   */
  function Div32(a: int32, b: int32): (q: int32)
    requires b != 0
    ensures a == -TWO_31 && b == -1 ==> q == -TWO_31
    ensures a != -TWO_31 || b != -1 ==> Abs(q) == Abs(a) / Abs(b)
    ensures a != -TWO_31 || b != -1 ==> q == 0 || (q < 0 <==> (a < 0) != (b < 0))
    ensures 0 <= a && 0 < b ==> q == a / b
  {
    if a == -TWO_31 && b == -1 then -TWO_31
    else
      var m := Abs(a) / Abs(b);
      TruncatedQuotient(a, b, m);
      if (a < 0) == (b < 0) then m else -m
  }

  /** The signed quotient built from the quotient of magnitudes is an `int` and has the expected sign. */
  lemma TruncatedQuotient(a: int32, b: int32, m: int)
    requires b != 0 && (a != -TWO_31 || b != -1) && m == Abs(a) / Abs(b)
    ensures -TWO_31 <= (if (a < 0) == (b < 0) then m else -m) < TWO_31
    ensures m >= 0
  {
    MagnitudeQuotient(Abs(a), Abs(b), m);
  }

  /** A quotient of magnitudes no larger than 2^31 only reaches 2^31 when dividing 2^31 by one. */
  lemma MagnitudeQuotient(x: nat, y: nat, m: int)
    requires 0 < y && x <= TWO_31 && m == x / y
    ensures 0 <= m <= x
    ensures m == TWO_31 ==> y == 1 && x == TWO_31
  {
    QuotientBound(x, y);
  }

  /** A quotient of magnitudes is no larger than the dividend, and at most half of it once the divisor exceeds one. */
  lemma QuotientBound(x: nat, y: nat)
    requires y > 0
    ensures x / y <= x
    ensures y > 1 ==> 2 * (x / y) <= x
  {
    var m := x / y;
    assert x == m * y + x % y;
    if y > 1 {
      MulMonotone(m, 2, y);
    } else {
      MulMonotone(m, 1, y);
    }
  }

  lemma MulMonotone(m: nat, y: nat, z: nat)
    requires y <= z
    ensures m * y <= m * z
  {
    assert m * z == m * y + m * (z - y);
    assert m * (z - y) >= 0;
  }
}
