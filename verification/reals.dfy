/** Facts about products of reals that the solver does not find unaided. */
module Reals {

  lemma MulPositive(x: real, y: real)
    requires x > 0.0 && y > 0.0
    ensures x * y > 0.0
  {
  }

  lemma SquareNonNegative(x: real)
    ensures x * x >= 0.0
  {
    if x < 0.0 {
      MulPositive(-x, -x);
      assert (-x) * (-x) == x * x;
    }
  }

  /** For non-negative roots, comparing their squares compares the roots. */
  lemma SquaresOrderLikeRoots(a: real, b: real)
    requires a >= 0.0 && b >= 0.0
    ensures a <= b <==> a * a <= b * b
    ensures a < b <==> a * a < b * b
  {
    assert b * b - a * a == (b - a) * (b + a);
    if a < b {
      MulPositive(b - a, b + a);
    } else if a == b {
    } else {
      MulPositive(a - b, a + b);
      assert a * a - b * b == (a - b) * (a + b);
    }
  }

  lemma DivMul(a: real, d: real)
    requires d != 0.0
    ensures (a / d) * d == a
  {
  }

  lemma DivNonNegative(a: real, d: real)
    requires a >= 0.0 && d > 0.0
    ensures a / d >= 0.0
  {
    DivMul(a, d);
  }

  /** A positive factor can be cancelled from both sides of an equation. */
  lemma CancelPositive(a: real, b: real, k: real)
    requires k > 0.0 && a * k == b * k
    ensures a == b
  {
    if a > b {
      MulPositive(a - b, k);
    } else if a < b {
      MulPositive(b - a, k);
    }
  }

  /** Dividing by a positive number keeps order. */
  lemma DivideMonotone(a: real, b: real, k: real)
    requires a <= b && k > 0.0
    ensures a / k <= b / k
  {
  }
}
