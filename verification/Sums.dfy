/** Finite sums of real numbers, in the order the engines add them up. */
module Sums {
  import opened RealFacts

  function Sum(s: seq<real>): real {
    if s == [] then 0.0 else Sum(s[..|s| - 1]) + s[|s| - 1]
  }

  /** The sum of x[i] * y[i]. */
  function Dot(x: seq<real>, y: seq<real>): real
    requires |x| == |y|
  {
    if x == [] then 0.0
    else
      var n := |x| - 1;
      Dot(x[..n], y[..n]) + x[n] * y[n]
  }

  function Mean(s: seq<real>): real
    requires s != []
  {
    Sum(s) / |s| as real
  }

  /** Every element reduced by `m`. */
  function Shift(s: seq<real>, m: real): (r: seq<real>)
    ensures |r| == |s| && forall i :: 0 <= i < |s| ==> r[i] == s[i] - m
  {
    seq(|s|, i requires 0 <= i < |s| => s[i] - m)
  }

  /** Deviations from the mean. */
  function Deviations(s: seq<real>): (r: seq<real>)
    ensures |r| == |s|
  {
    if s == [] then [] else Shift(s, Mean(s))
  }

  lemma ShiftPrefix(s: seq<real>, m: real, n: nat)
    requires n <= |s|
    ensures Shift(s, m)[..n] == Shift(s[..n], m)
  {
  }

  lemma {:induction false} SumOfShift(s: seq<real>, m: real)
    ensures Sum(Shift(s, m)) == Sum(s) - |s| as real * m
  {
    if s != [] {
      var n := |s| - 1;
      SumOfShift(s[..n], m);
      ShiftPrefix(s, m, n);
      assert |s| as real * m == n as real * m + m;
    }
  }

  /** Deviations add up to zero. */
  lemma DeviationsCancel(s: seq<real>)
    ensures Sum(Deviations(s)) == 0.0
  {
    if s != [] {
      SumOfShift(s, Mean(s));
      assert |s| as real * (Sum(s) / |s| as real) == Sum(s);
    }
  }

  lemma {:induction false} DotOfSelfIsNonNegative(x: seq<real>)
    ensures Dot(x, x) >= 0.0
  {
    if x != [] {
      DotOfSelfIsNonNegative(x[..|x| - 1]);
      SquareIsNonNegative(x[|x| - 1]);
    }
  }

  lemma {:induction false} DotCommutes(x: seq<real>, y: seq<real>)
    requires |x| == |y|
    ensures Dot(x, y) == Dot(y, x)
  {
    if x != [] {
      DotCommutes(x[..|x| - 1], y[..|x| - 1]);
    }
  }

  /** v - a u + c, element by element. */
  function Combine(u: seq<real>, v: seq<real>, a: real, c: real): (r: seq<real>)
    requires |u| == |v|
    ensures |r| == |u| && forall i :: 0 <= i < |u| ==> r[i] == v[i] - a * u[i] + c
  {
    if u == [] then []
    else
      var n := |u| - 1;
      Combine(u[..n], v[..n], a, c) + [v[n] - a * u[n] + c]
  }

  lemma Distribute(a: real, c: real, p: real, q: real, r: real, u: real, v: real, w: real)
    ensures (p - a * q + c * r) + (v - a * u + c) * w == (p + v * w) - a * (q + u * w) + c * (r + w)
  {
    assert (v - a * u + c) * w == v * w - a * (u * w) + c * w;
  }

  // One unfolding of each sum, for proofs that keep the rest hidden.

  lemma UnfoldDot(x: seq<real>, y: seq<real>)
    requires |x| == |y| && x != []
    ensures var n := |x| - 1; Dot(x, y) == Dot(x[..n], y[..n]) + x[n] * y[n]
  {
  }

  lemma UnfoldSum(x: seq<real>)
    requires x != []
    ensures var n := |x| - 1; Sum(x) == Sum(x[..n]) + x[n]
  {
  }

  lemma UnfoldCombine(u: seq<real>, v: seq<real>, a: real, c: real)
    requires |u| == |v| && u != []
    ensures var n, r := |u| - 1, Combine(u, v, a, c);
            r[..n] == Combine(u[..n], v[..n], a, c) && r[n] == v[n] - a * u[n] + c
  {
  }

  lemma EmptySums(a: real, c: real)
    ensures Dot([], []) == 0.0 && Sum([]) == 0.0 && Combine([], [], a, c) == []
  {
  }

  lemma {:induction false} DotOfCombination(u: seq<real>, v: seq<real>, a: real, c: real, w: seq<real>)
    requires |u| == |v| == |w|
    ensures Dot(Combine(u, v, a, c), w) == Dot(v, w) - a * Dot(u, w) + c * Sum(w)
  {
    hide *;
    if u == [] {
      EmptySums(a, c);
      assert u == v == w == [];
    } else {
      var n := |u| - 1;
      DotOfCombination(u[..n], v[..n], a, c, w[..n]);
      UnfoldCombine(u, v, a, c);
      UnfoldDot(Combine(u, v, a, c), w);
      UnfoldDot(v, w);
      UnfoldDot(u, w);
      UnfoldSum(w);
      Distribute(a, c, Dot(v[..n], w[..n]), Dot(u[..n], w[..n]), Sum(w[..n]), u[n], v[n], w[n]);
    }
  }

  lemma SumStep(a: real, c: real, su: real, sv: real, n: real, u: real, v: real)
    ensures (sv - a * su + c * n) + (v - a * u + c) == (sv + v) - a * (su + u) + c * (n + 1.0)
  {
  }

  lemma {:induction false} SumOfCombination(u: seq<real>, v: seq<real>, a: real, c: real)
    requires |u| == |v|
    ensures Sum(Combine(u, v, a, c)) == Sum(v) - a * Sum(u) + c * |u| as real
  {
    hide *;
    if u == [] {
      EmptySums(a, c);
      assert u == v == [];
    } else {
      var n := |u| - 1;
      SumOfCombination(u[..n], v[..n], a, c);
      UnfoldCombine(u, v, a, c);
      UnfoldSum(Combine(u, v, a, c));
      UnfoldSum(u);
      UnfoldSum(v);
      SumStep(a, c, Sum(u[..n]), Sum(v[..n]), n as real, u[n], v[n]);
    }
  }

  /** The square of a combination of sequences that add up to zero. */
  lemma SquareOfCombination(u: seq<real>, v: seq<real>, a: real, c: real)
    requires |u| == |v| && Sum(u) == 0.0 && Sum(v) == 0.0
    ensures var r := Combine(u, v, a, c);
            Dot(r, r) == Dot(v, v) - 2.0 * (a * Dot(u, v)) + a * (a * Dot(u, u)) + c * (c * |u| as real)
  {
    hide *;
    var r := Combine(u, v, a, c);
    var rv, ru := CombinationProducts(u, v, a, c);
    SumOfCombination(u, v, a, c);
    FinishSquare(a, c, Dot(r, r), rv, ru, Sum(r), Dot(v, v), Dot(u, v), Dot(u, u), |u| as real);
  }

  lemma CombinationProducts(u: seq<real>, v: seq<real>, a: real, c: real) returns (rv: real, ru: real)
    requires |u| == |v|
    ensures var r := Combine(u, v, a, c);
            && Dot(r, r) == rv - a * ru + c * Sum(r)
            && rv == Dot(v, v) - a * Dot(u, v) + c * Sum(v)
            && ru == Dot(u, v) - a * Dot(u, u) + c * Sum(u)
  {
    hide *;
    var r := Combine(u, v, a, c);
    DotOfCombination(u, v, a, c, r);
    DotOfCombination(u, v, a, c, v);
    DotOfCombination(u, v, a, c, u);
    DotCommutes(r, v);
    DotCommutes(r, u);
    DotCommutes(v, u);
    rv, ru := Dot(r, v), Dot(r, u);
  }

  lemma FinishSquare(a: real, c: real, rr: real, rv: real, ru: real, sr: real, r: real, q: real, p: real, n: real)
    requires rr == rv - a * ru + c * sr
    requires rv == r - a * q && ru == q - a * p && sr == c * n
    ensures rr == r - 2.0 * (a * q) + a * (a * p) + c * (c * n)
  {
    assert a * ru == a * q - a * (a * p);
  }

  /** For every a the combination v - a u has a non-negative square sum. */
  lemma QuadraticIsNonNegative(u: seq<real>, v: seq<real>, a: real)
    requires |u| == |v|
    ensures Dot(v, v) - 2.0 * (a * Dot(u, v)) + a * (a * Dot(u, u)) >= 0.0
  {
    hide *;
    var r := Combine(u, v, a, 0.0);
    DotOfSelfIsNonNegative(r);
    var rv, ru := CombinationProducts(u, v, a, 0.0);
    FinishSquare(a, 0.0, Dot(r, r), rv, ru, 0.0, Dot(v, v), Dot(u, v), Dot(u, u), 0.0);
  }

  /** The quadratic at its minimum. */
  lemma AtMinimum(p: real, q: real, r: real)
    requires p > 0.0
    ensures r - 2.0 * ((q / p) * q) + (q / p) * ((q / p) * p) == r - (q / p) * q
  {
  }

  lemma TimesPositive(p: real, q: real, r: real)
    requires p > 0.0 && r - (q / p) * q >= 0.0
    ensures q * q <= p * r
  {
    var a := q / p;
    assert a * p == q;
    assert (r - a * q) * p >= 0.0;
    assert (r - a * q) * p == r * p - q * (a * p);
  }

  /** Cauchy-Schwarz, without square roots. */
  lemma CauchySchwarz(u: seq<real>, v: seq<real>)
    requires |u| == |v|
    ensures Dot(u, v) * Dot(u, v) <= Dot(u, u) * Dot(v, v)
  {
    hide *;
    var p, q, r := Dot(u, u), Dot(u, v), Dot(v, v);
    DotOfSelfIsNonNegative(u);
    if p > 0.0 {
      QuadraticIsNonNegative(u, v, q / p);
      AtMinimum(p, q, r);
      TimesPositive(p, q, r);
    } else {
      ZeroSquareKillsProduct(u, v);
    }
  }

  /** A sequence whose square sum is zero has a zero product with any other. */
  lemma ZeroSquareKillsProduct(u: seq<real>, v: seq<real>)
    requires |u| == |v| && Dot(u, u) == 0.0
    ensures Dot(u, v) == 0.0
  {
    var q, r := Dot(u, v), Dot(v, v);
    if q != 0.0 {
      QuadraticIsNonNegative(u, v, (r + 1.0) / (2.0 * q));
    }
  }

  lemma ShiftStep(d: real, sx: real, sy: real, n: real, mx: real, my: real, x: real, y: real)
    ensures (d - mx * sy - my * sx + n * (mx * my)) + (x - mx) * (y - my) ==
            (d + x * y) - mx * (sy + y) - my * (sx + x) + (n + 1.0) * (mx * my)
  {
    assert (x - mx) * (y - my) == x * y - mx * y - my * x + mx * my;
  }

  lemma {:induction false} DotOfShifts(x: seq<real>, y: seq<real>, mx: real, my: real)
    requires |x| == |y|
    ensures Dot(Shift(x, mx), Shift(y, my)) == Dot(x, y) - mx * Sum(y) - my * Sum(x) + |x| as real * (mx * my)
  {
    hide *;
    if x == [] {
      EmptySums(0.0, 0.0);
      assert x == y == Shift(x, mx) == Shift(y, my) == [];
    } else {
      var n := |x| - 1;
      DotOfShifts(x[..n], y[..n], mx, my);
      ShiftPrefix(x, mx, n);
      ShiftPrefix(y, my, n);
      UnfoldDot(Shift(x, mx), Shift(y, my));
      UnfoldDot(x, y);
      UnfoldSum(x);
      UnfoldSum(y);
      ShiftStep(Dot(x[..n], y[..n]), Sum(x[..n]), Sum(y[..n]), n as real, mx, my, x[n], y[n]);
    }
  }

  lemma MeanTimesCount(x: seq<real>)
    requires x != []
    ensures Mean(x) * |x| as real == Sum(x)
  {
  }

  lemma CancelMean(d: real, n: real, mx: real, my: real, sx: real, sy: real)
    requires mx * n == sx
    ensures d - mx * sy - my * sx + n * (mx * my) == d - mx * sy
  {
    assert n * (mx * my) == my * (mx * n);
  }

  /** The sum of products of deviations without deviations. */
  lemma DotOfDeviations(x: seq<real>, y: seq<real>)
    requires |x| == |y| && x != []
    ensures Dot(Deviations(x), Deviations(y)) == Dot(x, y) - Mean(x) * Sum(y)
  {
    hide Dot, Sum, Mean;
    DotOfShifts(x, y, Mean(x), Mean(y));
    MeanTimesCount(x);
    CancelMean(Dot(x, y), |x| as real, Mean(x), Mean(y), Sum(x), Sum(y));
  }

  /** Leaving out one element. */
  function Omit<T>(s: seq<T>, i: nat): (r: seq<T>)
    requires i < |s|
    ensures |r| == |s| - 1
    ensures forall k :: 0 <= k < |r| ==> r[k] == if k < i then s[k] else s[k + 1]
  {
    s[..i] + s[i + 1..]
  }

  lemma {:induction false} SumsWithout(s: seq<real>, i: nat)
    requires i < |s|
    ensures Sum(s) == Sum(Omit(s, i)) + s[i]
    ensures Dot(s, s) == Dot(Omit(s, i), Omit(s, i)) + s[i] * s[i]
  {
    hide Sum, Dot;
    var n := |s| - 1;
    UnfoldSum(s);
    UnfoldDot(s, s);
    if i == n {
      assert Omit(s, i) == s[..n];
    } else {
      SumsWithout(s[..n], i);
      UnfoldSum(Omit(s, i));
      UnfoldDot(Omit(s, i), Omit(s, i));
      assert Omit(s, i)[..n - 1] == Omit(s[..n], i);
      assert Omit(s, i)[n - 1] == s[n];
    }
  }
}
