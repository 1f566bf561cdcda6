/** Small facts of real arithmetic, stated once so that each is used by name. */
module RealFacts {

  function Abs(a: real): real { if a < 0.0 then -a else a }

  lemma Cancel(p: real, a: real, b: real)
    requires p != 0.0 && p * a == p * b
    ensures a == b
  {
    assert p * (a - b) == 0.0;
  }

  lemma QuotientIs(q: real, p: real, t: real)
    requires p != 0.0 && t * p == q
    ensures q / p == t
  {
    Cancel(p, q / p, t);
  }

  lemma ProductIsPositive(a: real, b: real)
    requires a > 0.0 && b > 0.0
    ensures a * b > 0.0
  {
  }

  lemma ProductIsNonNegative(a: real, b: real)
    requires a >= 0.0 && b >= 0.0
    ensures a * b >= 0.0
  {
  }

  lemma SquareIsNonNegative(a: real)
    ensures a * a >= 0.0
  {
  }

  lemma DifferenceOfSquares(a: real, b: real)
    ensures a * a - b * b == (a - b) * (a + b)
  {
  }

  /** Squares order non-negative numbers. */
  lemma RootBounds(q: real, root: real)
    requires root >= 0.0 && q * q <= root * root
    ensures -root <= q <= root
  {
    if q > root {
      DifferenceOfSquares(q, root);
      ProductIsPositive(q - root, q + root);
    } else if -q > root {
      DifferenceOfSquares(-q, root);
      ProductIsPositive(-q - root, -q + root);
    }
  }

  /** A number is determined by its square and its sign. */
  lemma RootIsUnique(a: real, b: real)
    requires a >= 0.0 && b >= 0.0 && a * a == b * b
    ensures a == b
  {
    RootBounds(a, b);
    RootBounds(b, a);
  }

  lemma QuotientBounds(q: real, root: real)
    requires root > 0.0 && -root <= q <= root
    ensures -1.0 <= q / root <= 1.0
  {
  }

  lemma ShareBounds(part: real, total: real)
    requires total > 0.0 && 0.0 <= part <= total
    ensures 0.0 <= part / total <= 1.0
  {
  }

  lemma OneMinusRatio(total: real, part: real)
    requires total != 0.0
    ensures 1.0 - (total - part) / total == part / total
  {
    QuotientOfSum(total - part, part, total);
    assert total / total == 1.0;
    assert (total - part) + part == total;
  }

  lemma QuotientOfSum(a: real, b: real, p: real)
    requires p != 0.0
    ensures a / p + b / p == (a + b) / p
  {
  }

  // The solver rewrites an inequality on a square into one on its root; these facts name the
  // square, so that it stays a number to the proofs that use it.

  lemma PositiveSquare(a: real) returns (k: real)
    requires a != 0.0
    ensures k == a * a && k > 0.0
  {
    if a > 0.0 { k := PositiveProduct(a, a); } else { k := PositiveProduct(-a, -a); }
  }

  lemma PositiveProduct(a: real, b: real) returns (k: real)
    requires a > 0.0 && b > 0.0
    ensures k == a * b && k > 0.0
  {
    k := a * b;
  }

  lemma NonNegativeProduct(a: real, b: real) returns (k: real)
    requires a >= 0.0 && b >= 0.0
    ensures k == a * b && k >= 0.0
  {
    k := a * b;
  }

  lemma WeightedSquare(d: real, w: real) returns (g: real)
    requires w >= 0.0
    ensures g == d * (d * w)
    ensures if d == 0.0 || w == 0.0 then g == 0.0 else g > 0.0
  {
    g := d * (d * w);
    if d == 0.0 || w == 0.0 {
      ZeroFactor(d, w);
      ZeroFactor(d, d * w);
    } else {
      var k := PositiveSquare(d);
      ProductIsPositive(k, w);
      assert g == k * w;
    }
  }

  lemma ZeroFactor(a: real, b: real)
    requires a == 0.0 || b == 0.0
    ensures a * b == 0.0
  {
  }
}
