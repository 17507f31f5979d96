/** C fixed-width integer semantics used by the sensor statistics:
    the value ranges of uint8_t, uint16_t and int16_t, the conversions
    into the unsigned types (reduction modulo 2^n), and C's integer
    division, which truncates toward zero. */
module CInt {

  const U8Modulus: int := 0x100
  const U16Modulus: int := 0x1_0000

  type u8 = x: int | 0 <= x < 0x100
  type u16 = x: int | 0 <= x < 0x1_0000
  type i16 = x: int | -0x8000 <= x < 0x8000

  /** Conversion of an int value to uint16_t: keeps the value when it
      fits, and otherwise reduces it modulo 2^16. */
  function ToU16(x: int): (r: u16)
    ensures 0 <= x < U16Modulus ==> r == x
    ensures (x - r) % U16Modulus == 0
  {
    x % U16Modulus
  }

  /** Conversion of an int value to uint8_t. */
  function ToU8(x: int): (r: u8)
    ensures 0 <= x < U8Modulus ==> r == x
    ensures (x - r) % U8Modulus == 0
  {
    x % U8Modulus
  }

  function Abs(x: int): (r: nat)
  {
    if x < 0 then -x else x
  }

  /** C's `/` on int: the quotient truncated toward zero, so that the
      remainder is smaller than the divisor in magnitude and never has
      the opposite sign of the dividend. */
  function CDiv(a: int, b: int): (q: int)
    requires b != 0
    ensures Abs(a - q * b) < Abs(b)
    ensures a >= 0 ==> a - q * b >= 0
    ensures a <= 0 ==> a - q * b <= 0
  {
    var n: nat, d: nat := Abs(a), Abs(b);
    DivRemainder(n, d);
    var q := if (a < 0) == (b < 0) then n / d else -(n / d);
    SignedRemainder(a, b, n / d, q);
    q
  }

  /** The remainder of magnitudes gives the signed remainder of `a` and
      `b` once the quotient takes the sign of a * b. */
  lemma SignedRemainder(a: int, b: int, m: int, q: int)
    requires b != 0
    requires 0 <= Abs(a) - m * Abs(b) < Abs(b)
    requires q == if (a < 0) == (b < 0) then m else -m
    ensures Abs(a - q * b) < Abs(b)
    ensures a >= 0 ==> a - q * b >= 0
    ensures a <= 0 ==> a - q * b <= 0
  {
    var d: int := Abs(b);
    NegateProduct(q, d, b);
    NegateProduct(m, d, if q == m then d else -d);
    if a >= 0 {
      assert a - q * b == Abs(a) - m * d;
    } else {
      assert a - q * b == -(Abs(a) - m * d);
    }
  }

  /** Euclidean division of naturals: n == m * d + r with 0 <= r < d,
      and the quotient is at most n. */
  lemma DivRemainder(n: nat, d: nat)
    requires d > 0
    ensures 0 <= n - (n / d) * d < d
    ensures 0 <= n / d <= n
  {
    var q: nat := n / d;
    MulMonotone(q, 1, d);
  }

  /** Multiplying by -d is the negation of multiplying by d. */
  lemma NegateProduct(m: int, d: int, b: int)
    requires b == d || b == -d
    ensures m * b == (if b == d then m * d else -(m * d))
  {
  }

  /** Multiplication by a non-negative factor is monotone. */
  lemma {:induction false} MulMonotone(k: nat, x: int, y: int)
    requires x <= y
    ensures k * x <= k * y
  {
    if k > 0 {
      MulMonotone(k - 1, x, y);
      assert k * x == (k - 1) * x + x;
      assert k * y == (k - 1) * y + y;
    }
  }

  /** The quotient of a non-negative number by a positive one lies in
      [lo, hi] when the number lies in [d * lo, d * (hi + 1)). */
  lemma DivBetween(n: nat, d: nat, lo: int, hi: int)
    requires d > 0
    requires d * lo <= n < d * (hi + 1)
    ensures lo <= n / d <= hi
  {
    var q := n / d;
    DivRemainder(n, d);
    assert d * q <= n < d * q + d;
    if lo > q {
      MulMonotone(d, q + 1, lo);
    }
    if q > hi {
      MulMonotone(d, hi + 1, q);
    }
  }

  lemma MulDivCancel(k: nat, t: int)
    requires k > 0 && t >= 0
    ensures k * t / k == t
  {
    DivBetween(k * t, k, t, t);
  }

  /** The quotient of naturals by repeated subtraction: a reference
      definition of truncating division that never mentions `/`. */
  function Quotient(n: nat, d: nat): (q: nat)
    requires d > 0
    ensures q <= n
    decreases n
  {
    if n < d then 0 else Quotient(n - d, d) + 1
  }

  /** Multiplication distributes over a successor. */
  lemma MulSucc(d: int, k: int)
    ensures d * (k + 1) == d * k + d
  {
  }

  /** The quotient by repeated subtraction leaves a remainder in [0, d). */
  lemma {:induction false} QuotientBounds(n: nat, d: nat)
    requires d > 0
    ensures d * Quotient(n, d) <= n < d * Quotient(n, d) + d
  {
    if n >= d {
      QuotientBounds(n - d, d);
      MulSucc(d, Quotient(n - d, d));
    }
  }

  lemma QuotientIsDiv(n: nat, d: nat)
    requires d > 0
    ensures Quotient(n, d) == n / d
  {
    var q := Quotient(n, d);
    QuotientBounds(n, d);
    MulSucc(d, q);
    DivBetween(n, d, q, q);
  }
}
