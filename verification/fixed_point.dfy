/** `java.math.BigDecimal` rounding with `RoundingMode.HALF_UP`, over
    integers. A decimal with scale `k` is represented by its unscaled value
    (the decimal times 10^k), so `x.divide(y, k, HALF_UP)` and
    `x.setScale(k, HALF_UP)` both become one rounded integer division. */
module FixedPoint {

  function Abs(x: int): nat {
    if x < 0 then -x else x
  }

  /** The integer nearest to `n / d`, ties rounded away from zero. */
  ghost predicate IsHalfUpQuotient(n: int, d: int, q: int)
    requires d != 0
  {
    && 2 * Abs(n - q * d) <= Abs(d)
    && (2 * Abs(n - q * d) == Abs(d) ==> Abs(q * d) > Abs(n))
  }

  lemma DivBounds(k: int, m: int)
    requires k >= 0 && m > 0
    ensures m * (k / m) <= k < m * (k / m) + m
  {
  }

  lemma MulLessEqual(a: int, b: int, c: int)
    requires c > 0
    requires a <= b
    ensures a * c <= b * c
  {
  }

  /** Quotient of `n / d` rounded HALF_UP, for a non-negative numerator and
      a positive divisor: `2*q*d - 2*n` lies in `(-d, d]`. */
  function DivHalfUpNat(n: int, d: int): (q: int)
    requires n >= 0 && d > 0
    ensures q >= 0
    ensures -d < 2 * (q * d) - 2 * n <= d
  {
    var q := (2 * n + d) / (2 * d);
    DivBounds(2 * n + d, 2 * d);
    assert (2 * d) * q == 2 * (q * d);
    q
  }

  /** The bound `DivHalfUpNat` guarantees, read as HALF_UP: within half a
      divisor of the numerator, and on a tie the larger magnitude. */
  lemma NatBoundIsHalfUp(n: int, p: int, d: int)
    requires n >= 0 && d > 0
    requires -d < 2 * p - 2 * n <= d
    ensures 2 * Abs(n - p) <= d
    ensures 2 * Abs(n - p) == d ==> Abs(p) > Abs(n)
  {
  }

  /** `n / d` rounded HALF_UP for a positive divisor: the magnitude of the
      numerator is rounded and its sign is kept. */
  function DivHalfUpPos(n: int, d: int): (q: int)
    requires d > 0
    ensures IsHalfUpQuotient(n, d, q)
    ensures n >= 0 ==> q >= 0
    ensures n <= 0 ==> q <= 0
  {
    if n >= 0 then
      var q := DivHalfUpNat(n, d);
      var p := q * d;
      NatBoundIsHalfUp(n, p, d);
      assert IsHalfUpQuotient(n, d, q);
      q
    else
      var q := DivHalfUpNat(-n, d);
      var p := q * d;
      NatBoundIsHalfUp(-n, p, d);
      NegMul(q, d);
      assert n - (-q) * d == -(-n - p) && Abs((-q) * d) == Abs(p);
      -q
  }

  lemma NegMul(a: int, b: int)
    ensures (-a) * b == -(a * b)
  {
  }

  /** Negating both operands leaves the exact quotient, hence its HALF_UP
      rounding, unchanged. */
  lemma HalfUpMirror(n: int, d: int, q: int)
    requires d < 0
    requires IsHalfUpQuotient(-n, -d, q)
    ensures IsHalfUpQuotient(n, d, q)
  {
    assert q * (-d) == -(q * d);
  }

  /** `n / d` rounded HALF_UP, for any signs (`BigDecimal.divide` with
      `RoundingMode.HALF_UP`). */
  function DivHalfUp(n: int, d: int): (q: int)
    requires d != 0
    ensures IsHalfUpQuotient(n, d, q)
    ensures n >= 0 && d > 0 ==> q >= 0
    ensures n == 0 ==> q == 0
  {
    if d > 0 then DivHalfUpPos(n, d)
    else
      var q := DivHalfUpPos(-n, -d);
      HalfUpMirror(n, d, q);
      q
  }

  /** An exact quotient is not rounded: this is why `rate / 100` at
      scale 8 loses nothing for a rate stored with two decimals. */
  lemma DivHalfUpExact(k: int, d: int)
    requires d > 0
    ensures DivHalfUp(k * d, d) == k
  {
    var q := DivHalfUp(k * d, d);
    assert 2 * Abs(k * d - q * d) <= d;
    SubMul(k, q, d);
    SmallMultiple(k - q, d);
  }

  lemma SubMul(a: int, b: int, c: int)
    ensures a * c - b * c == (a - b) * c
  {
  }

  /** Only the zero multiple of `d` lies within half of `d` from zero. */
  lemma SmallMultiple(x: int, d: int)
    requires d > 0
    requires 2 * Abs(x * d) <= d
    ensures x == 0
  {
    if x >= 1 {
      MulLessEqual(1, x, d);
    } else if x <= -1 {
      MulLessEqual(x, -1, d);
    }
  }

  lemma MulCancelLess(a: int, b: int, c: int)
    requires c > 0
    requires a * c < b * c
    ensures a < b
  {
  }

  lemma DivHalfUpNatMonotone(n1: nat, n2: nat, d: nat)
    requires d > 0
    requires n1 <= n2
    ensures DivHalfUpNat(n1, d) <= DivHalfUpNat(n2, d)
  {
    var q1 := DivHalfUpNat(n1, d);
    var q2 := DivHalfUpNat(n2, d);
    // 2*q1*d <= 2*n1 + d <= 2*n2 + d < 2*q2*d + 2*d
    assert q1 * d < q2 * d + d;
    MulAddOne(q2, d);
    MulCancelLess(q1, q2 + 1, d);
  }

  lemma MulAddOne(a: int, c: int)
    ensures (a + 1) * c == a * c + c
  {
  }

  /** HALF_UP rounding is monotone in the numerator. */
  lemma DivHalfUpMonotone(n1: int, n2: int, d: int)
    requires d > 0
    requires n1 <= n2
    ensures DivHalfUp(n1, d) <= DivHalfUp(n2, d)
  {
    if n1 >= 0 {
      DivHalfUpNatMonotone(n1, n2, d);
    } else if n2 < 0 {
      DivHalfUpNatMonotone(-n2, -n1, d);
    }
  }
}
