/** Integer division facts the encoders and the score need. */
module Arith {

  /** Division with remainder recovers the quotient and remainder it was
      built from. */
  lemma DivModOf(q: int, r: int, d: int)
    requires 0 <= r < d
    ensures (q * d + r) / d == q && (q * d + r) % d == r
  {
    var a := q * d + r;
    var k := a / d - q;
    assert k * d == r - a % d;
    MulAwayFromZero(k, d);
  }

  lemma MulAwayFromZero(k: int, d: int)
    requires d > 0
    ensures k >= 1 ==> k * d >= d
    ensures k <= -1 ==> k * d <= -d
  {
  }

  /** The quotient is the floor: `d * (a / d) <= a < d * (a / d) + d`, and it
      is the only integer with that property. */
  lemma FloorDiv(a: int, d: int, q: int)
    requires d > 0
    ensures d * (a / d) <= a < d * (a / d) + d
    ensures d * q <= a < d * q + d <==> q == a / d
  {
    DivModOf(a / d, a % d, d);
    if d * q <= a < d * q + d {
      DivModOf(q, a - d * q, d);
    }
  }

  lemma MulMonotone(d: int, x: int, y: int)
    requires d >= 0 && x <= y
    ensures d * x <= d * y
  {
    assert d * y - d * x == d * (y - x);
  }

  /** The floor of `a / d` reaches `q` exactly when `a` reaches `d * q`. */
  lemma DivAtLeast(a: int, d: int, q: int)
    requires d > 0
    ensures a / d >= q <==> a >= d * q
  {
    var f := a / d;
    FloorDiv(a, d, f);
    if f >= q {
      MulMonotone(d, q, f);
    } else {
      MulMonotone(d, f + 1, q);
    }
  }
}
