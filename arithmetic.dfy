/** Facts about integer multiplication and Euclidean remainder that the solver does not find
    unaided. */
module Arithmetic {

  lemma MulAtLeast(d: int, b: int)
    requires d >= 1 && b > 0
    ensures d * b >= b
  {
  }

  lemma Distribute(p: int, q: int, b: int)
    ensures p * b - q * b == (p - q) * b
  {
  }

  lemma ModUnique(y: int, b: int, q: int, r: int)
    requires b > 0 && 0 <= r < b && y == q * b + r
    ensures y % b == r
  {
    var q2, r2 := y / b, y % b;
    assert y == q2 * b + r2;
    Distribute(q2, q, b);
    Distribute(q, q2, b);
    if q2 > q {
      MulAtLeast(q2 - q, b);
    } else if q2 < q {
      MulAtLeast(q - q2, b);
    }
  }

  lemma ModStep(x: int, b: int)
    requires x >= b > 0
    ensures (x - b) % b == x % b
  {
    var q, r := x / b, x % b;
    assert x == q * b + r;
    Distribute(q, 1, b);
    ModUnique(x - b, b, q - 1, r);
  }
}
