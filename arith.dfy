/** Facts about floor division on non-negative numbers that the time arithmetic needs. */
module Arith {

  /** Floor division by a positive number is monotone. */
  lemma DivMonotone(a: int, b: int, d: int)
    requires a <= b && d > 0
    ensures a / d <= b / d
  {
    var qa, qb := a / d, b / d;
    assert a == d * qa + a % d;
    assert b == d * qb + b % d;
    if qa > qb {
      MulMonotone(d, qb + 1, qa);
      assert false;
    }
  }

  lemma MulMonotone(d: int, x: int, y: int)
    requires d >= 0 && x <= y
    ensures d * x <= d * y
  {
  }

  /** A quotient q with q * d <= x is at most x / d. */
  lemma QuotientBound(x: int, d: int, q: int)
    requires d > 0 && q * d <= x
    ensures q <= x / d
  {
    assert x == d * (x / d) + x % d;
    if q > x / d {
      MulMonotone(d, x / d + 1, q);
      assert false;
    }
  }

  /** x * p / (y * d) is at most x / d when p <= y: a fraction at most one scales down. */
  lemma ScaledDivBound(x: int, p: int, y: int, d: int)
    requires x >= 0 && 0 <= p <= y && y > 0 && d > 0
    ensures (x * p) / (y * d) <= x / d
  {
    var q := (x * p) / (y * d);
    assert y * d > 0;
    assert q * (y * d) <= x * p;
    MulMonotone(x, p, y);
    assert q * d * y <= x * y;
    QuotientBound(x, d, q);
  }

  /** Scaling x by a fraction p / d at most one yields a value in [0, x]. */
  lemma ScaleDown(x: int, p: int, d: int)
    requires x >= 0 && 0 <= p <= d && d > 0
    ensures 0 <= (x * p) / d <= x
  {
    var q := (x * p) / d;
    MulMonotone(x, 0, p);
    DivMonotone(0, x * p, d);
    assert x * p == d * q + (x * p) % d;
    MulMonotone(x, p, d);
    if q > x {
      MulMonotone(d, x + 1, q);
      assert false;
    }
  }
}
