/** Facts about integer multiplication and division that the solver does not
    find on its own when the divisor is not a literal. */
module IntArith {

  /** Euclidean division of a non-negative number rounds down. */
  lemma DivBounds(a: int, b: int)
    requires a >= 0 && b > 0
    ensures 0 <= (a / b) * b <= a < (a / b) * b + b
  {
    var q, m := a / b, a % b;
    assert a == q * b + m && 0 <= m < b;
    assert q >= 0;
    MulNonNegative(q, b);
  }

  lemma MulNonNegative(x: int, y: int)
    requires x >= 0 && y >= 0
    ensures x * y >= 0
  {
  }

  lemma NegateProduct(x: int, y: int)
    ensures (-x) * y == -(x * y)
  {
  }

  /** Dividing a multiple of `b` by `b` gives back the factor. */
  lemma MulDivCancel(n: int, b: int)
    requires n >= 0 && b > 0
    ensures (n * b) / b == n
  {
    MulNonNegative(n, b);
    DivBounds(n * b, b);
    var q := (n * b) / b;
    MulStrict(q, n, b);
    MulStrict(n, q, b);
  }

  lemma MulStrict(x: int, y: int, b: int)
    requires b > 0
    ensures x < y ==> x * b + b <= y * b
  {
    if x < y {
      MulMonotone(y, x + 1, b);
      assert (x + 1) * b == x * b + b;
    }
  }

  lemma MulMonotone(x: int, y: int, b: int)
    requires x >= y && b >= 0
    ensures x * b >= y * b
  {
    assert x * b - y * b == (x - y) * b;
    MulNonNegative(x - y, b);
  }

  lemma DivAtLeastOne(a: int, b: int)
    requires 0 < b <= a
    ensures a / b >= 1
  {
  }

  lemma DivBelow(a: int, b: int, n: int)
    requires b > 0 && 0 <= a < n * b
    ensures a / b < n
  {
  }
}
