/** Facts about Euclidean division that the progression proofs rest on. */
module Arith {
  lemma MulAtLeast(k: int, d: int)
    requires k >= 1 && d > 0
    ensures k * d >= d
  {
    assert k * d == (k - 1) * d + d;
    assert (k - 1) * d >= 0;
  }

  /** Quotient and remainder are the only ones with a remainder in `[0, d)`. */
  lemma DivModUnique(y: int, d: int, q: int, r: int)
    requires d > 0 && y == q * d + r && 0 <= r < d
    ensures y % d == r && y / d == q
  {
    var q', r' := y / d, y % d;
    assert y == q' * d + r';
    var k := q - q';
    assert k * d == r' - r by {
      assert q * d - q' * d == (q - q') * d;
    }
    if k >= 1 {
      MulAtLeast(k, d);
    } else if k <= -1 {
      MulAtLeast(-k, d);
    }
  }

  lemma ModShift(y: int, d: int)
    requires d > 0
    ensures (y + d) % d == y % d
  {
    DivModUnique(y + d, d, y / d + 1, y % d);
  }

  lemma ModSmall(y: int, d: int)
    requires 0 <= y < d
    ensures y % d == y
  {
    DivModUnique(y, d, 0, y);
  }
}
