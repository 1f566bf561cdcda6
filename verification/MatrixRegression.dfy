/** Regression through the normal equations, with the engine's own matrix operations. */
module MatrixRegression {
  import opened RealFacts
  import opened Regression
  import opened Sums

  type Matrix = seq<seq<real>>

  ghost predicate Rectangular(m: Matrix, width: nat) {
    forall i :: 0 <= i < |m| ==> |m[i]| == width
  }

  function Column(m: Matrix, j: nat): (c: seq<real>)
    requires forall i :: 0 <= i < |m| ==> j < |m[i]|
    ensures |c| == |m| && forall i :: 0 <= i < |m| ==> c[i] == m[i][j]
  {
    seq(|m|, i requires 0 <= i < |m| => m[i][j])
  }

  function Transpose(m: Matrix): (t: Matrix)
    requires m != [] && Rectangular(m, |m[0]|)
    ensures |t| == |m[0]| && Rectangular(t, |m|)
    ensures forall j :: 0 <= j < |t| ==> t[j] == Column(m, j)
  {
    seq(|m[0]|, j requires 0 <= j < |m[0]| => Column(m, j))
  }

  /** Rows of `a` times columns of `b`. */
  ghost predicate IsProduct(a: Matrix, b: Matrix, r: Matrix)
    requires Rectangular(a, |b|) && b != [] && Rectangular(b, |b[0]|)
  {
    && |r| == |a| && Rectangular(r, |b[0]|)
    && forall i, j :: 0 <= i < |a| && 0 <= j < |b[0]| ==> r[i][j] == Dot(a[i], Column(b, j))
  }

  method MatrixMultiply(a: Matrix, b: Matrix) returns (r: Matrix)
    requires Rectangular(a, |b|) && b != [] && Rectangular(b, |b[0]|)
    ensures IsProduct(a, b, r)
  {
    r := [];
    for i := 0 to |a|
      invariant |r| == i && Rectangular(r, |b[0]|)
      invariant forall p, q :: 0 <= p < i && 0 <= q < |b[0]| ==> r[p][q] == Dot(a[p], Column(b, q))
    {
      var row := [];
      for j := 0 to |b[0]|
        invariant |row| == j
        invariant forall q :: 0 <= q < j ==> row[q] == Dot(a[i], Column(b, q))
      {
        var sum := RowTimesColumn(a[i], b, j);
        row := row + [sum];
      }
      r := r + [row];
    }
  }

  /** The innermost loop of the product. */
  method RowTimesColumn(row: seq<real>, b: Matrix, j: nat) returns (sum: real)
    requires |row| == |b| && forall i :: 0 <= i < |b| ==> j < |b[i]|
    ensures sum == Dot(row, Column(b, j))
  {
    hide Dot;
    sum := 0.0;
    ghost var column := Column(b, j);
    DotOfNothing();
    for k := 0 to |b|
      invariant sum == Dot(row[..k], column[..k])
    {
      DotOneMore(row, column, k, row[k], b[k][j]);
      sum := sum + row[k] * b[k][j];
    }
    assert row[..|b|] == row && column[..|b|] == column;
  }

  function MatrixVectorMultiply(m: Matrix, v: seq<real>): (r: seq<real>)
    requires Rectangular(m, |v|)
    ensures |r| == |m| && forall i :: 0 <= i < |m| ==> r[i] == Dot(m[i], v)
  {
    seq(|m|, i requires 0 <= i < |m| => Dot(m[i], v))
  }

  datatype Inverse = Inverted(m: Matrix) | SingularMatrix | NotImplemented

  const TOLERANCE := 0.0000000001

  function MatrixInverse(m: Matrix): Inverse
    requires Rectangular(m, |m|)
  {
    if |m| == 2 then InverseOf2x2(m[0][0], m[0][1], m[1][0], m[1][1]) else NotImplemented
  }

  function InverseOf2x2(a: real, b: real, c: real, d: real): Inverse {
    var det := a * d - b * c;
    if -TOLERANCE < det < TOLERANCE then SingularMatrix
    else Inverted([[d / det, -b / det], [-c / det, a / det]])
  }

  datatype Result = Coefficients(c: seq<real>) | EmptyInput | Singular | SizeNotSupported

  function WithIntercept(rows: Matrix): (r: Matrix)
    ensures |r| == |rows| && forall i :: 0 <= i < |rows| ==> r[i] == [1.0] + rows[i]
  {
    seq(|rows|, i requires 0 <= i < |rows| => [1.0] + rows[i])
  }

  method MultipleRegression(y: seq<real>, rows: Matrix, ghost predictors: nat) returns (result: Result)
    requires |y| == |rows| && Rectangular(rows, predictors)
    ensures rows == [] ==> result == EmptyInput
    ensures rows != [] && predictors != 1 ==> result == SizeNotSupported
    ensures rows != [] && predictors == 1 ==>
              var x := Column(rows, 0);
              if |x| as real * Spread(x) < 0.0000000001 then result == Singular
              else result == Coefficients([Fitted(x, y).intercept, Fitted(x, y).slope])
  {
    hide Dot, Sum, Spread, Fitted, Adjusted;
    var design := WithIntercept(rows);
    if |design| == 0 {
      return EmptyInput;
    }
    var transposed := Transpose(design);
    var normal := MatrixMultiply(transposed, design);
    var inverse := MatrixInverse(normal);
    if predictors == 1 {
      ghost var x := Column(rows, 0);
      ghost var det := |x| as real * Spread(x);
      InverseOfNormal(rows, normal, det);
      if det >= 0.0000000001 {
        NormalSolution(rows, y, det);
      }
    }
    match inverse
    case SingularMatrix => result := Singular;
    case NotImplemented => result := SizeNotSupported;
    case Inverted(m) =>
      var moments := MatrixVectorMultiply(transposed, y);
      result := Coefficients(MatrixVectorMultiply(m, moments));
  }

  // The normal matrix of one predictor.

  lemma {:induction false} DotOfOnes(ones: seq<real>, x: seq<real>)
    requires |ones| == |x| && forall i :: 0 <= i < |ones| ==> ones[i] == 1.0
    ensures Dot(ones, x) == Sum(x)
  {
    if x != [] {
      DotOfOnes(ones[..|x| - 1], x[..|x| - 1]);
    }
  }

  lemma {:induction false} SumOfOnes(ones: seq<real>)
    requires forall i :: 0 <= i < |ones| ==> ones[i] == 1.0
    ensures Sum(ones) == |ones| as real
  {
    if ones != [] {
      SumOfOnes(ones[..|ones| - 1]);
    }
  }

  lemma NormalMatrix(rows: Matrix, normal: Matrix)
    requires rows != [] && Rectangular(rows, 1)
    requires var design := WithIntercept(rows); IsProduct(Transpose(design), design, normal)
    ensures var x := Column(rows, 0);
            normal == [[|x| as real, Sum(x)], [Sum(x), Dot(x, x)]]
  {
    hide Dot, Sum;
    var design, x := WithIntercept(rows), Column(rows, 0);
    var ones := Column(design, 0);
    assert Column(design, 1) == x;
    DotOfOnes(ones, ones);
    SumOfOnes(ones);
    DotOfOnes(ones, x);
    DotCommutes(ones, x);
    assert Transpose(design)[0] == ones && Transpose(design)[1] == x;
    assert normal[0] == [normal[0][0], normal[0][1]];
    assert normal[1] == [normal[1][0], normal[1][1]];
    assert normal == [normal[0], normal[1]];
  }

  lemma DeterminantAlgebra(n: real, sx: real, dxx: real, m: real, p: real)
    requires m * n == sx && p == dxx - m * sx
    ensures n * dxx - sx * sx == n * p
  {
    assert n * p == n * dxx - (m * n) * sx;
  }

  lemma Determinant(x: seq<real>)
    requires x != []
    ensures |x| as real * Dot(x, x) - Sum(x) * Sum(x) == |x| as real * Spread(x)
    ensures |x| as real * Spread(x) >= 0.0
  {
    SpreadIsNonNegative(x);
    hide Dot, Sum, Mean;
    MeanTimesCount(x);
    DotOfDeviations(x, x);
    DeterminantAlgebra(|x| as real, Sum(x), Dot(x, x), Mean(x), Spread(x));
    ProductIsNonNegative(|x| as real, Spread(x));
  }

  // Cramer's rule, with the sums written by means and deviations:
  // sx = mx n, sy = my n, dxx = p + mx sx, dxy = t p + mx sy, where t is the slope.

  lemma SlopeByCramer(n: real, mx: real, sx: real, sy: real, dxy: real, p: real, t: real, det: real)
    requires det == n * p && det > 0.0 && sx == mx * n && dxy == t * p + mx * sy
    ensures -sx / det * sy + n / det * dxy == t
  {
    Fractions(-sx, sy, n, dxy, det);
    calc {
      -sx * sy + n * dxy;
      -(mx * n) * sy + n * (t * p + mx * sy);
      t * (n * p);
      t * det;
    }
    QuotientIs(-sx * sy + n * dxy, det, t);
  }

  lemma InterceptNumerator(n: real, mx: real, my: real, p: real, t: real, sx: real, sy: real)
    requires sx == mx * n && sy == my * n
    ensures (p + mx * sx) * sy + -sx * (t * p + mx * sy) == (my - t * mx) * (n * p)
  {
    calc {
      (p + mx * sx) * sy + -sx * (t * p + mx * sy);
      p * sy - sx * (t * p);
      p * (my * n) - (mx * n) * (t * p);
      (my - t * mx) * (n * p);
    }
  }

  lemma InterceptByCramer(n: real, mx: real, my: real, sx: real, sy: real, dxx: real, dxy: real, p: real,
                          t: real, det: real)
    requires det == n * p && det > 0.0 && sx == mx * n && sy == my * n
    requires dxx == p + mx * sx && dxy == t * p + mx * sy
    ensures dxx / det * sy + -sx / det * dxy == my - t * mx
  {
    Fractions(dxx, sy, -sx, dxy, det);
    InterceptNumerator(n, mx, my, p, t, sx, sy);
    QuotientIs((p + mx * sx) * sy + -sx * (t * p + mx * sy), det, my - t * mx);
  }

  lemma Fractions(a: real, b: real, c: real, d: real, det: real)
    requires det != 0.0
    ensures a / det * b + c / det * d == (a * b + c * d) / det
  {
    assert (a / det * b + c / det * d) * det == a * b + c * d;
    QuotientIs(a * b + c * d, det, a / det * b + c / det * d);
  }

  lemma DotOfTwo(a: real, b: real, c: real, d: real)
    ensures Dot([a, b], [c, d]) == a * c + b * d
  {
    var u, v := [a, b], [c, d];
    assert u[..1] == [a] && v[..1] == [c];
    assert [a][..0] == [] && [c][..0] == [];
    assert Dot([a], [c]) == a * c;
  }

  lemma Moments(rows: Matrix, y: seq<real>)
    requires rows != [] && Rectangular(rows, 1) && |y| == |rows|
    ensures MatrixVectorMultiply(Transpose(WithIntercept(rows)), y) == [Sum(y), Dot(Column(rows, 0), y)]
  {
    hide Dot, Sum;
    var design := WithIntercept(rows);
    assert Column(design, 1) == Column(rows, 0);
    DotOfOnes(Column(design, 0), y);
  }

  lemma SumsByMeans(x: seq<real>, y: seq<real>)
    requires |x| == |y| && x != []
    ensures Sum(x) == Mean(x) * |x| as real && Sum(y) == Mean(y) * |x| as real
    ensures Dot(x, x) == Spread(x) + Mean(x) * Sum(x) && Dot(x, y) == Cross(x, y) + Mean(x) * Sum(y)
  {
    hide Dot, Sum, Mean;
    MeanTimesCount(x);
    MeanTimesCount(y);
    DotOfDeviations(x, x);
    DotOfDeviations(x, y);
  }

  lemma FittedIntercept(x: seq<real>, y: seq<real>)
    requires |x| == |y| && x != []
    ensures Fitted(x, y).intercept == Mean(y) - Fitted(x, y).slope * Mean(x)
  {
  }

  lemma CramersRule(x: seq<real>, y: seq<real>, det: real)
    requires |x| == |y| && x != [] && det == |x| as real * Spread(x) && det > 0.0
    ensures -Sum(x) / det * Sum(y) + |x| as real / det * Dot(x, y) == Fitted(x, y).slope
    ensures Dot(x, x) / det * Sum(y) + -Sum(x) / det * Dot(x, y) == Fitted(x, y).intercept
  {
    hide *;
    SumsByMeans(x, y);
    SlopeEquation(x, y);
    FittedIntercept(x, y);
    var n, p, t := |x| as real, Spread(x), Fitted(x, y).slope;
    SlopeByCramer(n, Mean(x), Sum(x), Sum(y), Dot(x, y), p, t, det);
    InterceptByCramer(n, Mean(x), Mean(y), Sum(x), Sum(y), Dot(x, x), Dot(x, y), p, t, det);
  }

  function Adjusted(x: seq<real>, det: real): Matrix
    requires det != 0.0
  {
    [[Dot(x, x) / det, -Sum(x) / det], [-Sum(x) / det, |x| as real / det]]
  }

  lemma NormalSolution(rows: Matrix, y: seq<real>, det: real)
    requires rows != [] && Rectangular(rows, 1) && |y| == |rows|
    requires det == |rows| as real * Spread(Column(rows, 0)) && det > 0.0
    ensures var line, m := Fitted(Column(rows, 0), y), Adjusted(Column(rows, 0), det);
            && Rectangular(m, 2)
            && MatrixVectorMultiply(m, MatrixVectorMultiply(Transpose(WithIntercept(rows)), y)) == [line.intercept, line.slope]
  {
    hide Dot, Sum, Spread, Fitted;
    var x := Column(rows, 0);
    Moments(rows, y);
    DotOfTwo(Dot(x, x) / det, -Sum(x) / det, Sum(y), Dot(x, y));
    DotOfTwo(-Sum(x) / det, |x| as real / det, Sum(y), Dot(x, y));
    CramersRule(x, y, det);
    var m, v := Adjusted(x, det), [Sum(y), Dot(x, y)];
    var r := MatrixVectorMultiply(m, v);
    assert r[0] == Dot(m[0], v) == Fitted(x, y).intercept;
    assert r[1] == Dot(m[1], v) == Fitted(x, y).slope;
  }

  lemma InverseOfTwo(a: real, b: real, d: real, det: real)
    requires det == a * d - b * b && det >= 0.0
    ensures Rectangular([[a, b], [b, d]], 2)
    ensures MatrixInverse([[a, b], [b, d]]) ==
            if det < TOLERANCE then SingularMatrix else Inverted([[d / det, -b / det], [-b / det, a / det]])
  {
    assert MatrixInverse([[a, b], [b, d]]) == InverseOf2x2(a, b, b, d);
  }

  /** When the engine inverts the normal matrix of one predictor, and to what. */
  lemma InverseOfNormal(rows: Matrix, normal: Matrix, det: real)
    requires rows != [] && Rectangular(rows, 1)
    requires var design := WithIntercept(rows); IsProduct(Transpose(design), design, normal)
    requires var x := Column(rows, 0); det == |x| as real * Spread(x)
    ensures Rectangular(normal, |normal|)
    ensures MatrixInverse(normal) == if det < 0.0000000001 then SingularMatrix else Inverted(Adjusted(Column(rows, 0), det))
  {
    hide Dot, Sum, Spread, MatrixInverse;
    var x := Column(rows, 0);
    NormalMatrix(rows, normal);
    Determinant(x);
    InverseOfTwo(|x| as real, Sum(x), Dot(x, x), det);
  }

  /** The predictions of the matrix path are those of the fitted line. */
  lemma PredictionsAgree(rows: Matrix, line: Line)
    requires Rectangular(rows, 1)
    ensures MatrixVectorMultiply(WithIntercept(rows), [line.intercept, line.slope]) == Predictions(Column(rows, 0), line)
  {
    forall i | 0 <= i < |rows|
      ensures Dot([1.0] + rows[i], [line.intercept, line.slope]) == line.At(rows[i][0])
    {
      assert [1.0] + rows[i] == [1.0, rows[i][0]];
      DotOfTwo(1.0, rows[i][0], line.intercept, line.slope);
    }
  }

  // The inverse of any matrix of two rows.

  /** A matrix of two rows and columns counts as singular exactly when its determinant is within
      a ten billionth of 0; otherwise the answer is its inverse, from both sides. */
  lemma InverseInverts(a: real, b: real, c: real, d: real)
    ensures var det, r := a * d - b * c, MatrixInverse([[a, b], [c, d]]);
            && (r == SingularMatrix <==> -0.0000000001 < det < 0.0000000001)
            && (r != SingularMatrix ==>
                && r.Inverted? && |r.m| == 2 && |r.m[0]| == 2 && |r.m[1]| == 2
                && var p, q, s, t := r.m[0][0], r.m[0][1], r.m[1][0], r.m[1][1];
                   && a * p + b * s == 1.0 && a * q + b * t == 0.0 && c * p + d * s == 0.0 && c * q + d * t == 1.0
                   && p * a + q * c == 1.0 && p * b + q * d == 0.0 && s * a + t * c == 0.0 && s * b + t * d == 1.0)
  {
    var det := a * d - b * c;
    var r := MatrixInverse([[a, b], [c, d]]);
    assert r == InverseOf2x2(a, b, c, d);
    if !(-0.0000000001 < det < 0.0000000001) {
      var p, q, s, t := d / det, -b / det, -c / det, a / det;
      assert r == Inverted([[p, q], [s, t]]);
      hide *;
      Cofactors(a, b, c, d, det, p, q, s, t);
    }
  }

  lemma Cofactors(a: real, b: real, c: real, d: real, det: real, p: real, q: real, s: real, t: real)
    requires det == a * d - b * c && det != 0.0 && p * det == d && q * det == -b && s * det == -c && t * det == a
    ensures a * p + b * s == 1.0 && a * q + b * t == 0.0 && c * p + d * s == 0.0 && c * q + d * t == 1.0
    ensures p * a + q * c == 1.0 && p * b + q * d == 0.0 && s * a + t * c == 0.0 && s * b + t * d == 1.0
  {
    ScaledSum(det, a, p, b, s, d, -c, det);
    ScaledSum(det, a, q, b, t, -b, a, 0.0);
    ScaledSum(det, c, p, d, s, d, -c, 0.0);
    ScaledSum(det, c, q, d, t, -b, a, det);
    ScaledSum(det, a, p, c, q, d, -b, det);
    ScaledSum(det, b, p, d, q, d, -b, 0.0);
    ScaledSum(det, a, s, c, t, -c, a, 0.0);
    ScaledSum(det, b, s, d, t, -c, a, det);
  }

  /** If u and v are e and f over k, and x e + y f is r, then x u + y v is r over k. */
  lemma ScaledSum(k: real, x: real, u: real, y: real, v: real, e: real, f: real, r: real)
    requires k != 0.0 && u * k == e && v * k == f && x * e + y * f == r
    ensures r == k ==> x * u + y * v == 1.0
    ensures r == 0.0 ==> x * u + y * v == 0.0
  {
    var z := x * u + y * v;
    assert k * z == x * (u * k) + y * (v * k);
    Times(x, u * k, e);
    Times(y, v * k, f);
    assert k * z == r;
    if r == k {
      Cancel(k, z, 1.0);
    }
    if r == 0.0 {
      ZeroFactor(k, 0.0);
      Cancel(k, z, 0.0);
    }
  }

  lemma Times(x: real, a: real, b: real)
    requires a == b
    ensures x * a == x * b
  {
  }
}
