/** Correlation and the least-squares line, as both statistics engines compute them, over exact
    reals. Square roots are a parameter: any function with the defining property. */
module Regression {
  import opened RealFacts
  import opened Sums

  ghost predicate IsSqrt(sqrt: real -> real) {
    forall a :: a >= 0.0 ==> sqrt(a) >= 0.0 && sqrt(a) * sqrt(a) == a
  }

  /** The sum of products of deviations. */
  function Cross(x: seq<real>, y: seq<real>): real
    requires |x| == |y|
  {
    Dot(Deviations(x), Deviations(y))
  }

  function Spread(x: seq<real>): real {
    Cross(x, x)
  }

  function Pearson(x: seq<real>, y: seq<real>, sqrt: real -> real): real
    requires |x| == |y|
  {
    var denominator := sqrt(Spread(x) * Spread(y));
    if denominator == 0.0 then 0.0 else Cross(x, y) / denominator
  }

  datatype Line = Line(slope: real, intercept: real)
  {
    function At(x: real): real { slope * x + intercept }
  }

  function Fitted(x: seq<real>, y: seq<real>): Line
    requires |x| == |y| && x != []
  {
    var slope := if Spread(x) == 0.0 then 0.0 else Cross(x, y) / Spread(x);
    Line(slope, Mean(y) - slope * Mean(x))
  }

  function Predictions(x: seq<real>, line: Line): (r: seq<real>)
    ensures |r| == |x| && forall i :: 0 <= i < |x| ==> r[i] == line.At(x[i])
  {
    seq(|x|, i requires 0 <= i < |x| => line.At(x[i]))
  }

  function Residuals(x: seq<real>, y: seq<real>, line: Line): (r: seq<real>)
    requires |x| == |y|
    ensures |r| == |x| && forall i :: 0 <= i < |x| ==> r[i] == y[i] - line.At(x[i])
  {
    seq(|x|, i requires 0 <= i < |x| => y[i] - line.At(x[i]))
  }

  /** Residual sum of squares. */
  function Residual(x: seq<real>, y: seq<real>, line: Line): real
    requires |x| == |y|
  {
    Dot(Residuals(x, y, line), Residuals(x, y, line))
  }

  /** Sum of squares of the predictions about the mean of y. */
  function Explained(x: seq<real>, y: seq<real>, line: Line): real
    requires |x| == |y| && x != []
  {
    var r := Shift(Predictions(x, line), Mean(y));
    Dot(r, r)
  }

  function RSquared(x: seq<real>, y: seq<real>): real
    requires |x| == |y| && x != []
  {
    if Spread(y) == 0.0 then 0.0 else 1.0 - Residual(x, y, Fitted(x, y)) / Spread(y)
  }

  // The loops of the engines.

  lemma DotOfNothing()
    ensures Dot([], []) == 0.0
  {
  }

  lemma DotOneMore(x: seq<real>, y: seq<real>, i: nat, a: real, b: real)
    requires i < |x| == |y| && x[i] == a && y[i] == b
    ensures Dot(x[..i + 1], y[..i + 1]) == Dot(x[..i], y[..i]) + a * b
  {
    assert x[..i + 1][..i] == x[..i] && y[..i + 1][..i] == y[..i];
  }

  method PearsonCorrelation(x: seq<real>, y: seq<real>, sqrt: real -> real) returns (r: real)
    requires |x| == |y| && x != []
    ensures r == Pearson(x, y, sqrt)
  {
    hide Dot, Sum;
    DotOfNothing();
    var meanX, meanY := Mean(x), Mean(y);
    var numerator, sumXSquared, sumYSquared := 0.0, 0.0, 0.0;
    ghost var dx, dy := Deviations(x), Deviations(y);
    for i := 0 to |x|
      invariant numerator == Dot(dx[..i], dy[..i])
      invariant sumXSquared == Dot(dx[..i], dx[..i])
      invariant sumYSquared == Dot(dy[..i], dy[..i])
    {
      var deltaX, deltaY := x[i] - meanX, y[i] - meanY;
      DotOneMore(dx, dy, i, deltaX, deltaY);
      DotOneMore(dx, dx, i, deltaX, deltaX);
      DotOneMore(dy, dy, i, deltaY, deltaY);
      numerator := numerator + deltaX * deltaY;
      sumXSquared := sumXSquared + deltaX * deltaX;
      sumYSquared := sumYSquared + deltaY * deltaY;
    }
    assert dx[..|x|] == dx && dy[..|x|] == dy;
    assert sumXSquared == Spread(x) && sumYSquared == Spread(y);
    assert sumXSquared * sumYSquared == Spread(x) * Spread(y);
    var denominator := sqrt(sumXSquared * sumYSquared);
    r := if denominator == 0.0 then 0.0 else numerator / denominator;
  }

  /** The other engine's loop, which answers for empty and unequal inputs as well. */
  method CalculateCorrelation(x: seq<real>, y: seq<real>, sqrt: real -> real) returns (r: real)
    ensures r == if |x| != |y| || x == [] then 0.0 else Pearson(x, y, sqrt)
  {
    hide Dot, Sum;
    if |x| != |y| || |x| == 0 {
      return 0.0;
    }
    DotOfNothing();
    var n, meanX, meanY := |x|, Mean(x), Mean(y);
    var numerator, sumXSquared, sumYSquared := 0.0, 0.0, 0.0;
    ghost var dx, dy := Deviations(x), Deviations(y);
    for i := 0 to n
      invariant numerator == Dot(dx[..i], dy[..i])
      invariant sumXSquared == Dot(dx[..i], dx[..i])
      invariant sumYSquared == Dot(dy[..i], dy[..i])
    {
      var deltaX, deltaY := x[i] - meanX, y[i] - meanY;
      DotOneMore(dx, dy, i, deltaX, deltaY);
      DotOneMore(dx, dx, i, deltaX, deltaX);
      DotOneMore(dy, dy, i, deltaY, deltaY);
      numerator := numerator + deltaX * deltaY;
      sumXSquared := sumXSquared + deltaX * deltaX;
      sumYSquared := sumYSquared + deltaY * deltaY;
    }
    assert dx[..n] == dx && dy[..n] == dy;
    assert sumXSquared == Spread(x) && sumYSquared == Spread(y);
    assert sumXSquared * sumYSquared == Spread(x) * Spread(y);
    var denominator := sqrt(sumXSquared * sumYSquared);
    r := if denominator == 0.0 then 0.0 else numerator / denominator;
  }

  method SimpleLinearRegression(x: seq<real>, y: seq<real>)
    returns (line: Line, predictions: seq<real>, residuals: seq<real>, rSquared: real)
    requires |x| == |y| && x != []
    ensures line == Fitted(x, y) && rSquared == RSquared(x, y)
    ensures predictions == Predictions(x, line) && residuals == Residuals(x, y, line)
    ensures forall i :: 0 <= i < |x| ==>
              predictions[i] == line.slope * x[i] + line.intercept && predictions[i] + residuals[i] == y[i]
  {
    hide Dot, Sum;
    DotOfNothing();
    var meanX, meanY := Mean(x), Mean(y);
    var numerator, denominator := 0.0, 0.0;
    ghost var dx, dy := Deviations(x), Deviations(y);
    for i := 0 to |x|
      invariant numerator == Dot(dx[..i], dy[..i])
      invariant denominator == Dot(dx[..i], dx[..i])
    {
      var deltaX, deltaY := x[i] - meanX, y[i] - meanY;
      DotOneMore(dx, dy, i, deltaX, deltaY);
      DotOneMore(dx, dx, i, deltaX, deltaX);
      numerator := numerator + deltaX * deltaY;
      denominator := denominator + deltaX * deltaX;
    }
    assert dx[..|x|] == dx && dy[..|x|] == dy;
    var slope := if denominator == 0.0 then 0.0 else numerator / denominator;
    line := Line(slope, meanY - slope * meanX);
    predictions := Predictions(x, line);
    residuals := Residuals(x, y, line);
    var total, residual := SumsOfSquares(y, meanY, residuals);
    rSquared := if total == 0.0 then 0.0 else 1.0 - residual / total;
  }

  method SumsOfSquares(y: seq<real>, meanY: real, residuals: seq<real>) returns (total: real, residual: real)
    requires |y| == |residuals|
    ensures total == Dot(Shift(y, meanY), Shift(y, meanY)) && residual == Dot(residuals, residuals)
  {
    total, residual := 0.0, 0.0;
    ghost var dy := Shift(y, meanY);
    for i := 0 to |y|
      invariant total == Dot(dy[..i], dy[..i])
      invariant residual == Dot(residuals[..i], residuals[..i])
    {
      var deltaY := y[i] - meanY;
      DotOneMore(dy, dy, i, deltaY, deltaY);
      DotOneMore(residuals, residuals, i, residuals[i], residuals[i]);
      total := total + deltaY * deltaY;
      residual := residual + residuals[i] * residuals[i];
    }
    assert dy[..|y|] == dy && residuals[..|y|] == residuals;
  }

  /** The other engine's loops: it predicts and sums in one pass, and answers for empty and
      unequal inputs. */
  method CalculateLinearRegression(x: seq<real>, y: seq<real>) returns (line: Line, rSquared: real)
    ensures |x| != |y| || x == [] ==> line == Line(0.0, 0.0) && rSquared == 0.0
    ensures |x| == |y| && x != [] ==> line == Fitted(x, y) && rSquared == RSquared(x, y)
  {
    hide Dot, Sum;
    if |x| != |y| || |x| == 0 {
      return Line(0.0, 0.0), 0.0;
    }
    DotOfNothing();
    var n, meanX, meanY := |x|, Mean(x), Mean(y);
    var numerator, denominator := 0.0, 0.0;
    ghost var dx, dy := Deviations(x), Deviations(y);
    for i := 0 to n
      invariant numerator == Dot(dx[..i], dy[..i])
      invariant denominator == Dot(dx[..i], dx[..i])
    {
      var deltaX, deltaY := x[i] - meanX, y[i] - meanY;
      DotOneMore(dx, dy, i, deltaX, deltaY);
      DotOneMore(dx, dx, i, deltaX, deltaX);
      numerator := numerator + deltaX * deltaY;
      denominator := denominator + deltaX * deltaX;
    }
    assert dx[..n] == dx && dy[..n] == dy;
    var slope := if denominator == 0.0 then 0.0 else numerator / denominator;
    line := Line(slope, meanY - slope * meanX);
    var total, residual := SumsOverLine(x, y, meanY, line);
    rSquared := if total == 0.0 then 0.0 else 1.0 - residual / total;
  }

  method SumsOverLine(x: seq<real>, y: seq<real>, meanY: real, line: Line) returns (total: real, residual: real)
    requires |x| == |y|
    ensures total == Dot(Shift(y, meanY), Shift(y, meanY)) && residual == Residual(x, y, line)
  {
    hide Dot, Sum;
    DotOfNothing();
    total, residual := 0.0, 0.0;
    ghost var dy, r := Shift(y, meanY), Residuals(x, y, line);
    for i := 0 to |x|
      invariant total == Dot(dy[..i], dy[..i])
      invariant residual == Dot(r[..i], r[..i])
    {
      var predicted := line.At(x[i]);
      var deltaY, miss := y[i] - meanY, y[i] - predicted;
      DotOneMore(dy, dy, i, deltaY, deltaY);
      DotOneMore(r, r, i, miss, miss);
      total := total + deltaY * deltaY;
      residual := residual + miss * miss;
    }
    assert dy[..|x|] == dy && r[..|x|] == r;
  }

  // Least squares.

  /** How far a line misses the point of means. */
  function Miss(x: seq<real>, y: seq<real>, line: Line): real
    requires |x| == |y| && x != []
  {
    Mean(y) - line.slope * Mean(x) - line.intercept
  }

  lemma ResidualInDeviations(xi: real, yi: real, mx: real, my: real, a: real, b: real)
    ensures yi - (a * xi + b) == (yi - my) - a * (xi - mx) + (my - a * mx - b)
  {
    assert a * (xi - mx) == a * xi - a * mx;
  }

  lemma ResidualsAreCombination(x: seq<real>, y: seq<real>, line: Line)
    requires |x| == |y| && x != []
    ensures Residuals(x, y, line) == Combine(Deviations(x), Deviations(y), line.slope, Miss(x, y, line))
  {
    var r, c := Residuals(x, y, line), Combine(Deviations(x), Deviations(y), line.slope, Miss(x, y, line));
    forall i | 0 <= i < |x|
      ensures r[i] == c[i]
    {
      ResidualInDeviations(x[i], y[i], Mean(x), Mean(y), line.slope, line.intercept);
    }
  }

  /** The residual sum of squares of any line, in sums of deviations. */
  lemma ResidualOfLine(x: seq<real>, y: seq<real>, line: Line)
    requires |x| == |y| && x != []
    ensures var a, c := line.slope, Miss(x, y, line);
            Residual(x, y, line) == Spread(y) - 2.0 * (a * Cross(x, y)) + a * (a * Spread(x)) + c * (c * |x| as real)
  {
    hide Dot, Sum, Combine, Mean, Miss;
    ResidualsAreCombination(x, y, line);
    DeviationsCancel(x);
    DeviationsCancel(y);
    SquareOfCombination(Deviations(x), Deviations(y), line.slope, Miss(x, y, line));
  }

  /** The normal equation of the slope; it holds for constant x as well. */
  lemma SlopeEquation(x: seq<real>, y: seq<real>)
    requires |x| == |y| && x != []
    ensures Cross(x, y) == Fitted(x, y).slope * Spread(x) && Miss(x, y, Fitted(x, y)) == 0.0
  {
    hide Dot, Sum;
    if Spread(x) == 0.0 {
      ZeroSquareKillsProduct(Deviations(x), Deviations(y));
    }
  }

  /** The least square sum and what a line adds to it, as numbers. */
  lemma CompleteSquare(p: real, q: real, r: real, n: real, s: real, a: real, c: real)
    requires q == s * p
    ensures r - 2.0 * (a * q) + a * (a * p) + c * (c * n) == (r - s * (s * p)) + (a - s) * ((a - s) * p) + c * (c * n)
  {
    assert (a - s) * ((a - s) * p) == a * (a * p) - 2.0 * (a * (s * p)) + s * (s * p);
  }

  lemma SquareAtSlope(p: real, q: real, r: real, n: real, s: real, c: real)
    requires q == s * p && c == 0.0
    ensures r - 2.0 * (s * q) + s * (s * p) + c * (c * n) == r - s * (s * p)
  {
  }

  /** Residual sum of squares of the fitted line. */
  lemma ResidualOfFitted(x: seq<real>, y: seq<real>)
    requires |x| == |y| && x != []
    ensures var s := Fitted(x, y).slope; Residual(x, y, Fitted(x, y)) == Spread(y) - s * (s * Spread(x))
  {
    hide *;
    var line := Fitted(x, y);
    ResidualOfLine(x, y, line);
    SlopeEquation(x, y);
    SquareAtSlope(Spread(x), Cross(x, y), Spread(y), |x| as real, line.slope, Miss(x, y, line));
  }

  /** What any line adds to the fitted line's residual sum of squares. */
  lemma ResidualGap(x: seq<real>, y: seq<real>, line: Line)
    requires |x| == |y| && x != []
    ensures var d, c := line.slope - Fitted(x, y).slope, Miss(x, y, line);
            Residual(x, y, line) == Residual(x, y, Fitted(x, y)) + d * (d * Spread(x)) + c * (c * |x| as real)
  {
    hide *;
    ResidualOfLine(x, y, line);
    SlopeEquation(x, y);
    ResidualOfFitted(x, y);
    CompleteSquare(Spread(x), Cross(x, y), Spread(y), |x| as real, Fitted(x, y).slope, line.slope, Miss(x, y, line));
  }

  /** No line has a smaller residual sum of squares than the fitted one, and only a line
      through the point of means can equal it: the fitted line itself, or, when x is constant
      and every slope fits alike, any line through that point. */
  lemma FittedIsLeastSquares(x: seq<real>, y: seq<real>, line: Line)
    requires |x| == |y| && x != []
    ensures Residual(x, y, Fitted(x, y)) <= Residual(x, y, line)
    ensures Residual(x, y, line) == Residual(x, y, Fitted(x, y)) <==>
            Miss(x, y, line) == 0.0 && (line.slope == Fitted(x, y).slope || Spread(x) == 0.0)
  {
    SpreadIsNonNegative(x);
    hide *;
    ResidualGap(x, y, line);
    var d, c := line.slope - Fitted(x, y).slope, Miss(x, y, line);
    var g := WeightedSquare(d, Spread(x));
    var h := WeightedSquare(c, |x| as real);
  }

  lemma SpreadIsNonNegative(x: seq<real>)
    ensures Spread(x) >= 0.0
  {
    DotOfSelfIsNonNegative(Deviations(x));
  }

  lemma {:induction false} DotOfScaled(u: seq<real>, v: seq<real>, s: real)
    requires |u| == |v| && forall i :: 0 <= i < |u| ==> v[i] == s * u[i]
    ensures Dot(v, v) == s * (s * Dot(u, u))
  {
    if u != [] {
      var n := |u| - 1;
      DotOfScaled(u[..n], v[..n], s);
      ScaleStep(s, Dot(u[..n], u[..n]), u[n]);
    }
  }

  lemma ScaleStep(s: real, d: real, u: real)
    ensures s * (s * d) + (s * u) * (s * u) == s * (s * (d + u * u))
  {
  }

  lemma ExplainedOfFitted(x: seq<real>, y: seq<real>)
    requires |x| == |y| && x != []
    ensures var s := Fitted(x, y).slope; Explained(x, y, Fitted(x, y)) == s * (s * Spread(x))
  {
    hide Dot, Sum;
    var line := Fitted(x, y);
    var r, u := Shift(Predictions(x, line), Mean(y)), Deviations(x);
    forall i | 0 <= i < |x|
      ensures r[i] == line.slope * u[i]
    {
      assert line.slope * (x[i] - Mean(x)) == line.slope * x[i] - line.slope * Mean(x);
    }
    DotOfScaled(u, r, line.slope);
  }

  /** The total splits into what the line explains and what it leaves. */
  lemma TotalSplits(x: seq<real>, y: seq<real>)
    requires |x| == |y| && x != []
    ensures Spread(y) == Residual(x, y, Fitted(x, y)) + Explained(x, y, Fitted(x, y))
  {
    hide *;
    ResidualOfFitted(x, y);
    ExplainedOfFitted(x, y);
  }

  // Correlation.

  /** A correlation lies between -1 and 1, whatever the data. */
  lemma PearsonIsBounded(x: seq<real>, y: seq<real>, sqrt: real -> real)
    requires |x| == |y| && IsSqrt(sqrt)
    ensures -1.0 <= Pearson(x, y, sqrt) <= 1.0
  {
    SpreadIsNonNegative(x);
    SpreadIsNonNegative(y);
    CrossIsBounded(x, y);
    ProductIsNonNegative(Spread(x), Spread(y));
    hide Dot, Spread, Cross;
    var root := sqrt(Spread(x) * Spread(y));
    RootBounds(Cross(x, y), root);
    if root != 0.0 {
      QuotientBounds(Cross(x, y), root);
    }
  }

  lemma CrossIsBounded(x: seq<real>, y: seq<real>)
    requires |x| == |y|
    ensures Cross(x, y) * Cross(x, y) <= Spread(x) * Spread(y)
  {
    hide Dot;
    CauchySchwarz(Deviations(x), Deviations(y));
  }

  lemma RearrangeSquares(p: real, r: real, s: real, t: real, root: real)
    requires t * root == s * p && root * root == p * r
    ensures p * (t * t * r) == p * (s * (s * p))
  {
    calc {
      p * (t * t * r);
      (t * t) * (p * r);
      (t * t) * (root * root);
      (t * root) * (t * root);
      (s * p) * (s * p);
      p * (s * (s * p));
    }
  }

  lemma SquareOfQuotient(p: real, q: real, r: real, s: real, root: real, c: real)
    requires q == s * p && root * root == p * r && c * root == q && p != 0.0
    ensures c * c * r == s * (s * p)
  {
    RearrangeSquares(p, r, s, c, root);
    Cancel(p, c * c * r, s * (s * p));
  }

  lemma RSquaredIsShare(x: seq<real>, y: seq<real>)
    requires |x| == |y| && x != [] && Spread(y) != 0.0
    ensures var s := Fitted(x, y).slope; RSquared(x, y) == s * (s * Spread(x)) / Spread(y)
  {
    hide Dot, Spread, Fitted, Residual;
    ResidualOfFitted(x, y);
    OneMinusRatio(Spread(y), Fitted(x, y).slope * (Fitted(x, y).slope * Spread(x)));
  }

  lemma CorrelationNumbers(p: real, q: real, r: real, s: real, root: real, c: real)
    requires p >= 0.0 && r >= 0.0 && root >= 0.0 && root * root == p * r && q == s * p
    requires c == if root == 0.0 then 0.0 else q / root
    ensures if p == 0.0 || r == 0.0 then c == 0.0 else c * c * r == s * (s * p)
  {
    if p == 0.0 || r == 0.0 {
      ZeroFactor(p, r);
      RootIsUnique(root, 0.0);
    } else {
      var k := PositiveProduct(p, r);
      ZeroRoot(root, k);
      assert c * root == q;
      SquareOfQuotient(p, q, r, s, root, c);
    }
  }

  lemma SquaredCorrelation(x: seq<real>, y: seq<real>, sqrt: real -> real, c: real)
    requires |x| == |y| && x != [] && IsSqrt(sqrt) && c == Pearson(x, y, sqrt)
    ensures if Spread(x) == 0.0 || Spread(y) == 0.0 then c == 0.0
            else c * c * Spread(y) == Fitted(x, y).slope * (Fitted(x, y).slope * Spread(x))
  {
    hide *;
    SpreadIsNonNegative(x);
    SpreadIsNonNegative(y);
    SlopeEquation(x, y);
    var root := PearsonRoot(x, y, sqrt);
    CorrelationNumbers(Spread(x), Cross(x, y), Spread(y), Fitted(x, y).slope, root, c);
  }

  lemma PearsonRoot(x: seq<real>, y: seq<real>, sqrt: real -> real) returns (root: real)
    requires |x| == |y| && IsSqrt(sqrt)
    ensures root >= 0.0 && root * root == Spread(x) * Spread(y)
    ensures Pearson(x, y, sqrt) == if root == 0.0 then 0.0 else Cross(x, y) / root
  {
    hide Spread, Cross;
    SpreadIsNonNegative(x);
    SpreadIsNonNegative(y);
    var product := NonNegativeProduct(Spread(x), Spread(y));
    root := sqrt(product);
  }

  lemma ZeroRoot(root: real, k: real)
    requires root * root == k && k > 0.0
    ensures root != 0.0
  {
  }

  /** R squared is the square of the correlation, also for constant x or y. */
  lemma RSquaredIsPearsonSquared(x: seq<real>, y: seq<real>, sqrt: real -> real)
    requires |x| == |y| && x != [] && IsSqrt(sqrt)
    ensures RSquared(x, y) == Pearson(x, y, sqrt) * Pearson(x, y, sqrt)
  {
    hide Pearson, Dot, Spread, Fitted, Residual;
    var c, s := Pearson(x, y, sqrt), Fitted(x, y).slope;
    SquaredCorrelation(x, y, sqrt, c);
    if Spread(y) != 0.0 {
      hide RSquared;
      RSquaredIsShare(x, y);
      if Spread(x) == 0.0 {
        ZeroFactor(s, Spread(x));
        ZeroFactor(s, s * Spread(x));
      } else {
        QuotientIs(s * (s * Spread(x)), Spread(y), c * c);
      }
    }
  }

  lemma ResidualIsNonNegative(x: seq<real>, y: seq<real>, line: Line)
    requires |x| == |y|
    ensures Residual(x, y, line) >= 0.0
  {
    DotOfSelfIsNonNegative(Residuals(x, y, line));
  }

  /** R squared lies between 0 and 1. */
  lemma RSquaredIsBounded(x: seq<real>, y: seq<real>)
    requires |x| == |y| && x != []
    ensures 0.0 <= RSquared(x, y) <= 1.0
  {
    hide Dot, Spread, Fitted, Residual;
    if Spread(y) != 0.0 {
      hide RSquared;
      SpreadIsNonNegative(x);
      SpreadIsNonNegative(y);
      ResidualIsNonNegative(x, y, Fitted(x, y));
      ResidualOfFitted(x, y);
      RSquaredIsShare(x, y);
      var g := WeightedSquare(Fitted(x, y).slope, Spread(x));
      ShareBounds(g, Spread(y));
    }
  }

  // Constant data, and the sign of a correlation.

  lemma {:induction false} SumOfConstant(x: seq<real>, v: real)
    requires forall i :: 0 <= i < |x| ==> x[i] == v
    ensures Sum(x) == |x| as real * v
  {
    if x != [] {
      SumOfConstant(x[..|x| - 1], v);
    }
  }

  lemma {:induction false} DotWithZeros(x: seq<real>, y: seq<real>)
    requires |x| == |y| && forall i :: 0 <= i < |x| ==> x[i] == 0.0
    ensures Dot(x, y) == 0.0
  {
    if x != [] {
      DotWithZeros(x[..|x| - 1], y[..|y| - 1]);
    }
  }

  lemma MeanOfConstant(x: seq<real>, v: real)
    requires x != [] && forall i :: 0 <= i < |x| ==> x[i] == v
    ensures Mean(x) == v && forall i :: 0 <= i < |x| ==> Deviations(x)[i] == 0.0
  {
    hide Sum;
    SumOfConstant(x, v);
    MeanTimesCount(x);
    Cancel(|x| as real, Mean(x), v);
    hide Mean;
  }

  /** For constant x the line is horizontal at the mean of y, and for constant x or y the
      correlation is 0. */
  lemma ConstantData(x: seq<real>, y: seq<real>, v: real, sqrt: real -> real)
    requires |x| == |y| && x != [] && IsSqrt(sqrt)
    ensures (forall i :: 0 <= i < |x| ==> x[i] == v) ==>
              Fitted(x, y) == Line(0.0, Mean(y)) && Pearson(x, y, sqrt) == 0.0
    ensures (forall i :: 0 <= i < |y| ==> y[i] == v) ==> Pearson(x, y, sqrt) == 0.0
  {
    hide Dot, Sum, Mean, Deviations;
    if forall i :: 0 <= i < |x| ==> x[i] == v {
      MeanOfConstant(x, v);
      DotWithZeros(Deviations(x), Deviations(x));
      ZeroFactor(Spread(x), Spread(y));
      RootOfZero(sqrt);
      ZeroFactor(0.0, Mean(x));
    }
    if forall i :: 0 <= i < |y| ==> y[i] == v {
      MeanOfConstant(y, v);
      DotWithZeros(Deviations(y), Deviations(y));
      ZeroFactor(Spread(x), Spread(y));
      RootOfZero(sqrt);
    }
  }

  lemma RootOfZero(sqrt: real -> real)
    requires IsSqrt(sqrt)
    ensures sqrt(0.0) == 0.0
  {
    RootIsUnique(sqrt(0.0), 0.0);
  }

  /** A correlation has the sign of the slope: both are positive, negative or 0 together. */
  lemma CorrelationHasSignOfSlope(x: seq<real>, y: seq<real>, sqrt: real -> real)
    requires |x| == |y| && x != [] && IsSqrt(sqrt) && Spread(y) > 0.0
    ensures var r, a := Pearson(x, y, sqrt), Fitted(x, y).slope;
            (r > 0.0 <==> a > 0.0) && (r < 0.0 <==> a < 0.0)
  {
    SpreadIsNonNegative(x);
    hide Dot, Sum, Mean, Spread, Cross, Deviations;
    if Spread(x) == 0.0 {
      ZeroFactor(Spread(x), Spread(y));
      RootOfZero(sqrt);
    } else {
      var k := PositiveProduct(Spread(x), Spread(y));
      var root := sqrt(k);
      PositiveRoot(sqrt, k);
      SignOfQuotient(Cross(x, y), root);
      SignOfQuotient(Cross(x, y), Spread(x));
    }
  }

  lemma PositiveRoot(sqrt: real -> real, k: real)
    requires IsSqrt(sqrt) && k > 0.0
    ensures sqrt(k) > 0.0
  {
    var r := sqrt(k);
    assert r >= 0.0 && r * r == k;
  }

  lemma SignOfQuotient(q: real, p: real)
    requires p > 0.0
    ensures (q / p > 0.0 <==> q > 0.0) && (q / p < 0.0 <==> q < 0.0)
  {
    var t := q / p;
    assert t * p == q;
    if t > 0.0 {
      ProductIsPositive(t, p);
    } else if t < 0.0 {
      ProductIsPositive(-t, p);
    }
  }
}
