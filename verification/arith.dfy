/** Small facts about integer division by a positive divisor. */
module Arith {

  /** A product with a factor of at least one is at least the other factor. */
  lemma MulAtLeast(a: int, c: int)
    requires a >= 1 && c > 0
    ensures a * c >= c
  {
    assert a * c == (a - 1) * c + c;
    assert (a - 1) * c >= 0;
  }

  /** Quotient and remainder are determined by any decomposition
      `y == q * c + r` with `0 <= r < c`. */
  lemma DivUnique(y: int, c: int, q: int, r: int)
    requires c > 0 && y == q * c + r && 0 <= r < c
    ensures y / c == q && y % c == r
  {
    var q', r' := y / c, y % c;
    assert y == q' * c + r' && 0 <= r' < c;
    assert (q - q') * c == r' - r;
    if q > q' {
      MulAtLeast(q - q', c);
    } else if q' > q {
      MulAtLeast(q' - q, c);
    }
  }

  /** Stepping the dividend by one raises the floor quotient exactly when
      the new dividend is a multiple of the divisor. */
  lemma DivStep(y: int, c: int)
    requires c > 0
    ensures y / c - (y - 1) / c == (if y % c == 0 then 1 else 0)
  {
    var q, r := (y - 1) / c, (y - 1) % c;
    assert y - 1 == q * c + r && 0 <= r < c;
    if r == c - 1 {
      assert y == (q + 1) * c + 0;
      DivUnique(y, c, q + 1, 0);
    } else {
      DivUnique(y, c, q, r + 1);
    }
  }
}
