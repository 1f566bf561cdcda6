/** Anomalies and autocorrelation of a data series. */
module Series {
  import opened RealFacts
  import opened Regression
  import opened Sums

  /** Population standard deviation. */
  function StandardDeviation(data: seq<real>, sqrt: real -> real): real
    requires data != []
  {
    sqrt(Spread(data) / |data| as real)
  }

  /** The z-score test; a zero deviation divides zero by zero, which compares as false. */
  predicate Exceeds(value: real, mean: real, std: real) {
    std != 0.0 && Abs((value - mean) / std) > 2.5
  }

  predicate Reported(data: seq<real>, sqrt: real -> real, i: nat)
    requires i < |data|
  {
    Exceeds(data[i], Mean(data), StandardDeviation(data, sqrt))
  }

  /** The reported ones of the first `n` indices, in order. */
  function Anomalies(data: seq<real>, sqrt: real -> real, n: nat): (r: seq<nat>)
    requires n <= |data|
    ensures forall k :: 0 <= k < |r| ==> r[k] < n
  {
    if n == 0 then []
    else if Reported(data, sqrt, n - 1) then Anomalies(data, sqrt, n - 1) + [n - 1]
    else Anomalies(data, sqrt, n - 1)
  }

  // What the z-score test decides, without roots and quotients.

  lemma ScoreBound(d: real, std: real)
    requires std > 0.0
    ensures Abs(d / std) > 2.5 <==> Abs(d) > 2.5 * std
  {
    var q := d / std;
    assert q * std == d;
    if q >= 0.0 {
      assert (q > 2.5) == (q * std > 2.5 * std);
    } else {
      assert (-q > 2.5) == (-q * std > 2.5 * std);
    }
  }

  lemma SquaresCompare(d: real, b: real, dd: real, bb: real)
    requires b > 0.0 && dd == d * d && bb == b * b
    ensures Abs(d) > b <==> dd > bb
  {
    DifferenceOfSquares(Abs(d), b);
    assert Abs(d) * Abs(d) == dd;
    if Abs(d) > b {
      var k := PositiveProduct(Abs(d) - b, Abs(d) + b);
    } else {
      ProductIsNonNegative(b - Abs(d), Abs(d) + b);
    }
  }

  lemma ElementSquare(u: seq<real>, i: nat)
    requires i < |u|
    ensures u[i] * u[i] <= Dot(u, u)
  {
    SumsWithout(u, i);
    DotOfSelfIsNonNegative(Omit(u, i));
  }

  /** The scaled test as numbers: v is the variance, s the spread. */
  lemma ScaleTest(n: real, s: real, v: real, dd: real, std: real, bb: real)
    requires n > 0.0 && v * n == s && std * std == v && bb == (2.5 * std) * (2.5 * std)
    ensures dd > bb <==> 4.0 * (n * dd) > 25.0 * s
  {
    assert bb == 6.25 * v;
    assert 25.0 * s == 4.0 * (n * bb);
    if dd > bb {
      var k := PositiveProduct(n, dd - bb);
    } else {
      ProductIsNonNegative(n, bb - dd);
    }
  }

  lemma StandardDeviationSquared(data: seq<real>, sqrt: real -> real) returns (v: real)
    requires data != [] && IsSqrt(sqrt)
    ensures var std := StandardDeviation(data, sqrt);
            std >= 0.0 && std * std == v && v * |data| as real == Spread(data)
  {
    SpreadIsNonNegative(data);
    hide Spread;
    v := Spread(data) / |data| as real;
    assert v >= 0.0;
  }

  /** A value is reported exactly when the square of its deviation, 4 n times, is more than 25
      times the spread. */
  lemma ReportedExactlyWhen(data: seq<real>, sqrt: real -> real, i: nat)
    requires i < |data| && IsSqrt(sqrt)
    ensures var d := data[i] - Mean(data);
            Reported(data, sqrt, i) <==> 4.0 * (|data| as real * (d * d)) > 25.0 * Spread(data)
  {
    var n, d := |data| as real, data[i] - Mean(data);
    ElementSquare(Deviations(data), i);
    assert Deviations(data)[i] == d;
    hide Dot, Mean, Spread, StandardDeviation;
    var v := StandardDeviationSquared(data, sqrt);
    var std := StandardDeviation(data, sqrt);
    if std == 0.0 {
      ZeroFactor(std, std);
      ZeroFactor(v, n);
      assert d * d <= 0.0;
      SquareIsNonNegative(d);
      ZeroFactor(n, d * d);
    } else {
      var b := 2.5 * std;
      ScoreBound(d, std);
      SquaresCompare(d, b, d * d, b * b);
      ScaleTest(n, Spread(data), v, d * d, std, b * b);
    }
  }

  // What is reported.

  lemma {:induction false} AnomaliesInOrder(data: seq<real>, sqrt: real -> real, n: nat, i: nat)
    requires n <= |data|
    ensures var r := Anomalies(data, sqrt, n); forall a, b :: 0 <= a < b < |r| ==> r[a] < r[b]
    ensures i in Anomalies(data, sqrt, n) <==> i < n && Reported(data, sqrt, i)
  {
    hide Reported;
    if n > 0 {
      AnomaliesInOrder(data, sqrt, n - 1, i);
    }
  }

  /** The reported indices are listed once each, in order, and they are exactly those whose
      squared deviation, 4 n times, is more than 25 times the spread. */
  lemma AnomaliesAreListed(data: seq<real>, sqrt: real -> real)
    ensures var r := Anomalies(data, sqrt, |data|); forall a, b :: 0 <= a < b < |r| ==> r[a] < r[b]
    ensures IsSqrt(sqrt) ==> forall i :: 0 <= i < |data| ==>
              var d := data[i] - Mean(data);
              i in Anomalies(data, sqrt, |data|) <==> 4.0 * (|data| as real * (d * d)) > 25.0 * Spread(data)
  {
    hide Anomalies, Reported, Mean, Spread, IsSqrt;
    AnomaliesInOrder(data, sqrt, |data|, 0);
    if IsSqrt(sqrt) {
      forall i | 0 <= i < |data|
        ensures var d := data[i] - Mean(data);
                i in Anomalies(data, sqrt, |data|) <==> 4.0 * (|data| as real * (d * d)) > 25.0 * Spread(data)
      {
        AnomaliesInOrder(data, sqrt, |data|, i);
        ReportedExactlyWhen(data, sqrt, i);
      }
    }
  }

  method DetectAnomalies(data: seq<real>, sqrt: real -> real)
    returns (indices: seq<nat>, values: seq<real>, scores: seq<real>)
    ensures indices == Anomalies(data, sqrt, |data|)
    ensures forall a, b :: 0 <= a < b < |indices| ==> indices[a] < indices[b]
    ensures IsSqrt(sqrt) ==> forall i :: 0 <= i < |data| ==>
              var d := data[i] - Mean(data);
              i in indices <==> 4.0 * (|data| as real * (d * d)) > 25.0 * Spread(data)
    ensures |values| == |scores| == |indices|
    ensures forall k :: 0 <= k < |indices| ==>
              var std := StandardDeviation(data, sqrt);
              values[k] == data[indices[k]] && std != 0.0 && scores[k] == Abs((values[k] - Mean(data)) / std)
  {
    hide Mean, StandardDeviation, Spread, IsSqrt;
    indices, values, scores := [], [], [];
    if data == [] {
      return;
    }
    var mean, std := Mean(data), StandardDeviation(data, sqrt);
    for i := 0 to |data|
      invariant indices == Anomalies(data, sqrt, i)
      invariant |values| == |scores| == |indices|
      invariant forall k :: 0 <= k < |indices| ==>
                  values[k] == data[indices[k]] && std != 0.0 && scores[k] == Abs((values[k] - mean) / std)
    {
      if Exceeds(data[i], mean, std) {
        indices, values, scores := indices + [i], values + [data[i]], scores + [Abs((data[i] - mean) / std)];
      }
    }
    AnomaliesAreListed(data, sqrt);
  }

  // Chebyshev.

  lemma CountStep(count: real, total: real, s: real, n: real, dd: real, reported: bool)
    requires 25.0 * (count * s) <= 4.0 * (n * total)
    requires reported ==> 4.0 * (n * dd) > 25.0 * s
    requires dd >= 0.0 && n >= 0.0
    ensures 25.0 * ((if reported then count + 1.0 else count) * s) <= 4.0 * (n * (total + dd))
  {
    assert n * (total + dd) == n * total + n * dd;
    assert (count + 1.0) * s == count * s + s;
    ProductIsNonNegative(n, dd);
  }

  lemma {:induction false} CountAnomalies(data: seq<real>, sqrt: real -> real, k: nat)
    requires k <= |data| && IsSqrt(sqrt)
    ensures var u := Deviations(data)[..k];
            25.0 * (|Anomalies(data, sqrt, k)| as real * Spread(data)) <= 4.0 * (|data| as real * Dot(u, u))
  {
    hide Dot, Mean, Spread, Reported;
    if k == 0 {
      DotOfNothing();
      assert Deviations(data)[..0] == [];
    } else {
      var u, a, b := Deviations(data), Anomalies(data, sqrt, k - 1), Anomalies(data, sqrt, k);
      CountAnomalies(data, sqrt, k - 1);
      ReportedExactlyWhen(data, sqrt, k - 1);
      DotOneMore(u, u, k - 1, u[k - 1], u[k - 1]);
      SquareIsNonNegative(u[k - 1]);
      CountStep(|a| as real, Dot(u[..k - 1], u[..k - 1]), Spread(data), |data| as real, u[k - 1] * u[k - 1],
                Reported(data, sqrt, k - 1));
    }
  }

  lemma {:induction false} NoSpreadNoAnomalies(data: seq<real>, sqrt: real -> real, k: nat)
    requires k <= |data| && IsSqrt(sqrt) && Spread(data) == 0.0
    ensures Anomalies(data, sqrt, k) == []
  {
    hide Dot, Mean, Spread, Reported;
    if k > 0 {
      NoSpreadNoAnomalies(data, sqrt, k - 1);
      ReportedExactlyWhen(data, sqrt, k - 1);
      ZeroDeviation(data, k - 1);
    }
  }

  lemma ZeroDeviation(data: seq<real>, i: nat)
    requires i < |data| && Spread(data) == 0.0
    ensures var d := data[i] - Mean(data); 4.0 * (|data| as real * (d * d)) == 0.0
  {
    var d := data[i] - Mean(data);
    ElementSquare(Deviations(data), i);
    assert Deviations(data)[i] == d;
    hide Dot, Mean, Spread;
    SquareIsNonNegative(d);
    ZeroFactor(|data| as real, d * d);
  }

  lemma DivideCount(count: real, n: real, s: real)
    requires s > 0.0 && 25.0 * (count * s) <= 4.0 * (n * s)
    ensures 25.0 * count <= 4.0 * n
  {
    if 25.0 * count > 4.0 * n {
      var k := PositiveProduct(25.0 * count - 4.0 * n, s);
    }
  }

  /** At most 4 in 25 values of any series are reported: Chebyshev's bound for 2.5 deviations. */
  lemma AnomaliesAreFew(data: seq<real>, sqrt: real -> real)
    requires IsSqrt(sqrt)
    ensures 25 * |Anomalies(data, sqrt, |data|)| <= 4 * |data|
  {
    SpreadIsNonNegative(data);
    hide Mean, Reported;
    if Spread(data) == 0.0 {
      NoSpreadNoAnomalies(data, sqrt, |data|);
    } else {
      CountAnomalies(data, sqrt, |data|);
      assert Deviations(data)[..|data|] == Deviations(data);
      DivideCount(|Anomalies(data, sqrt, |data|)| as real, |data| as real, Spread(data));
    }
  }

  // How long a series must be to report anything.

  lemma SquareOfSum(w: seq<real>)
    requires w != []
    ensures Sum(w) * Sum(w) <= |w| as real * Dot(w, w)
  {
    hide Dot, Sum, Mean;
    DotOfSelfIsNonNegative(Deviations(w));
    DotOfDeviations(w, w);
    MeanTimesCount(w);
    ScaledMean(|w| as real, Dot(w, w), Mean(w), Sum(w));
  }

  lemma ScaledMean(n: real, dot: real, mean: real, sum: real)
    requires n > 0.0 && dot - mean * sum >= 0.0 && mean * n == sum
    ensures sum * sum <= n * dot
  {
    ProductIsNonNegative(n, dot - mean * sum);
    assert n * (dot - mean * sum) == n * dot - (mean * n) * sum;
  }

  /** One deviation forces the others: together they cancel it. */
  lemma ReportedAndCancelled(data: seq<real>, sqrt: real -> real, i: nat) returns (k: real)
    requires i < |data| && IsSqrt(sqrt) && Reported(data, sqrt, i)
    ensures 4.0 * (|data| as real * k) > 25.0 * Spread(data)
    ensures |data| as real * k <= (|data| as real - 1.0) * Spread(data)
  {
    hide Dot, Sum, Reported, IsSqrt;
    var d := data[i] - Mean(data);
    k := d * d;
    ReportedExactlyWhen(data, sqrt, i);
    DeviationsCancel(data);
    SpreadAroundCancelled(Deviations(data), i, d);
  }

  lemma SpreadAroundCancelled(u: seq<real>, i: nat, d: real)
    requires i < |u| && u[i] == d && Sum(u) == 0.0
    ensures |u| as real * (d * d) <= (|u| as real - 1.0) * Dot(u, u)
  {
    hide Dot, Sum;
    SumsWithout(u, i);
    var w := Omit(u, i);
    SquareOfSumOrNothing(w);
    OthersCancel(|u| as real, |w| as real, d, Sum(w), Dot(w, w), Dot(u, u));
  }

  lemma SquareOfSumOrNothing(w: seq<real>)
    ensures Sum(w) * Sum(w) <= |w| as real * Dot(w, w)
  {
    if w != [] {
      SquareOfSum(w);
    }
  }

  lemma OthersCancel(n: real, m: real, d: real, sum: real, dot: real, spread: real)
    requires m == n - 1.0 && sum + d == 0.0 && sum * sum <= m * dot && spread == dot + d * d
    ensures n * (d * d) <= (n - 1.0) * spread
  {
    assert sum == -d;
    assert sum * sum == d * d;
    assert m * spread == m * dot + m * (d * d);
  }

  lemma SevenAreTooFew(n: nat, k: real, spread: real)
    requires n as real * k <= (n as real - 1.0) * spread && 4.0 * (n as real * k) > 25.0 * spread && spread >= 0.0
    ensures n >= 8
  {
    var a := 4.0 * (n as real - 1.0) - 25.0;
    assert a * spread == 4.0 * ((n as real - 1.0) * spread) - 25.0 * spread;
    if a <= 0.0 {
      ProductIsNonNegative(-a, spread);
    }
  }

  /** Only zeros, and a one at the end. */
  function Spike(n: nat): (data: seq<real>)
    ensures |data| == n + 1
  {
    seq(n, _ => 0.0) + [1.0]
  }

  lemma {:induction false} SumsOfZeros(n: nat)
    ensures var zeros := seq(n, _ => 0.0); Sum(zeros) == 0.0 && Dot(zeros, zeros) == 0.0
  {
    if n > 0 {
      SumsOfZeros(n - 1);
      assert seq(n, _ => 0.0)[..n - 1] == seq(n - 1, _ => 0.0);
    }
  }

  lemma SumsOfSpike(n: nat)
    ensures Sum(Spike(n)) == 1.0 && Dot(Spike(n), Spike(n)) == 1.0
  {
    SumsOfZeros(n);
    assert Spike(n)[..n] == seq(n, _ => 0.0);
  }

  lemma SpikeIsReported(n: nat, sqrt: real -> real)
    requires n >= 7 && IsSqrt(sqrt)
    ensures Reported(Spike(n), sqrt, n)
  {
    hide Dot, Sum, Mean, Reported;
    var data := Spike(n);
    SumsOfSpike(n);
    MeanTimesCount(data);
    DotOfDeviations(data, data);
    ReportedExactlyWhen(data, sqrt, n);
    SpikeTest(n as real + 1.0, Mean(data));
  }

  lemma SpikeTest(n: real, mean: real)
    requires n >= 8.0 && mean * n == 1.0
    ensures var d := 1.0 - mean; 4.0 * (n * (d * d)) > 25.0 * (1.0 - mean * 1.0)
  {
    var d := 1.0 - mean;
    if mean >= 1.0 {
      ProductIsNonNegative(mean - 1.0, n);
    }
    assert n * d == n - 1.0;
    assert n * (d * d) == (n * d) * d;
    var k := PositiveProduct(4.0 * (n - 1.0) - 25.0, d);
  }

  lemma {:induction false} ReportedIsListed(data: seq<real>, sqrt: real -> real, n: nat, i: nat)
    requires n <= |data| && i < n && Reported(data, sqrt, i)
    ensures Anomalies(data, sqrt, n) != []
  {
    if i < n - 1 {
      ReportedIsListed(data, sqrt, n - 1, i);
    }
  }

  lemma {:induction false} ListedIsReported(data: seq<real>, sqrt: real -> real, n: nat) returns (i: nat)
    requires n <= |data| && Anomalies(data, sqrt, n) != []
    ensures i < n && Reported(data, sqrt, i)
  {
    if Reported(data, sqrt, n - 1) {
      i := n - 1;
    } else {
      i := ListedIsReported(data, sqrt, n - 1);
    }
  }

  lemma ReportedNeedsEight(data: seq<real>, sqrt: real -> real)
    requires IsSqrt(sqrt) && Anomalies(data, sqrt, |data|) != []
    ensures |data| >= 8
  {
    hide Mean, Spread, Reported, IsSqrt, Anomalies;
    var i := ListedIsReported(data, sqrt, |data|);
    var k := ReportedAndCancelled(data, sqrt, i);
    SpreadIsNonNegative(data);
    SevenAreTooFew(|data|, k, Spread(data));
  }

  /** Some series of length n has an anomaly exactly when n is at least 8. */
  lemma AnomalyNeedsEightValues(n: nat, sqrt: real -> real)
    requires IsSqrt(sqrt)
    ensures (exists data :: |data| == n && Anomalies(data, sqrt, |data|) != []) <==> n >= 8
  {
    hide Anomalies, Reported, Spike, IsSqrt;
    if n >= 8 {
      SpikeIsReported(n - 1, sqrt);
      ReportedIsListed(Spike(n - 1), sqrt, n, n - 1);
      assert |Spike(n - 1)| == n;
    }
    forall data | |data| == n && Anomalies(data, sqrt, |data|) != []
      ensures n >= 8
    {
      ReportedNeedsEight(data, sqrt);
    }
  }

  // Autocorrelation.

  function Autocorrelation(data: seq<real>, lag: nat): real {
    if lag >= |data| then 0.0
    else
      var u := Deviations(data);
      if Spread(data) == 0.0 then 0.0 else Dot(u[..|u| - lag], u[lag..]) / Spread(data)
  }

  method ComputeAutocorrelation(data: seq<real>, lag: nat) returns (r: real)
    ensures r == Autocorrelation(data, lag)
  {
    hide Dot, Sum;
    if lag >= |data| {
      return 0.0;
    }
    var n, mean := |data|, Mean(data);
    var numerator, denominator := 0.0, 0.0;
    ghost var u := Deviations(data);
    ghost var a, b := u[..n - lag], u[lag..];
    DotOfNothing();
    for i := 0 to n - lag
      invariant numerator == Dot(a[..i], b[..i])
    {
      var delta, later := data[i] - mean, data[i + lag] - mean;
      DotOneMore(a, b, i, delta, later);
      numerator := numerator + delta * later;
    }
    for i := 0 to n
      invariant denominator == Dot(u[..i], u[..i])
    {
      var delta := data[i] - mean;
      DotOneMore(u, u, i, delta, delta);
      denominator := denominator + delta * delta;
    }
    assert a[..n - lag] == a && b[..n - lag] == b && u[..n] == u;
    r := if denominator == 0.0 then 0.0 else numerator / denominator;
  }

  lemma {:induction false} PartOfSquares(u: seq<real>, k: nat)
    requires k <= |u|
    ensures Dot(u[..k], u[..k]) + Dot(u[k..], u[k..]) == Dot(u, u)
  {
    hide Dot;
    var n := |u|;
    if k == n {
      assert u[..n] == u && u[n..] == [];
      DotOfNothing();
    } else {
      PartOfSquares(u[..n - 1], k);
      UnfoldDot(u, u);
      UnfoldDot(u[k..], u[k..]);
      assert u[..n - 1][..k] == u[..k];
      assert u[k..][..n - 1 - k] == u[..n - 1][k..];
    }
  }

  lemma ProductBelow(a: real, b: real, s: real)
    requires 0.0 <= a <= s && 0.0 <= b <= s
    ensures a * b <= s * s
  {
    ProductIsNonNegative(s - a, b);
    ProductIsNonNegative(s, s - b);
  }

  lemma PartsAreSmaller(u: seq<real>, k: nat)
    requires k <= |u|
    ensures 0.0 <= Dot(u[..k], u[..k]) <= Dot(u, u) && 0.0 <= Dot(u[k..], u[k..]) <= Dot(u, u)
  {
    hide Dot;
    PartOfSquares(u, k);
    DotOfSelfIsNonNegative(u[..k]);
    DotOfSelfIsNonNegative(u[k..]);
  }

  lemma LaggedProductBound(u: seq<real>, lag: nat)
    requires lag <= |u|
    ensures -Dot(u, u) <= Dot(u[..|u| - lag], u[lag..]) <= Dot(u, u)
  {
    hide Dot;
    var a, b := u[..|u| - lag], u[lag..];
    PartsAreSmaller(u, |u| - lag);
    PartsAreSmaller(u, lag);
    CauchySchwarz(a, b);
    ProductBelow(Dot(a, a), Dot(b, b), Dot(u, u));
    RootBounds(Dot(a, b), Dot(u, u));
  }

  /** Autocorrelation lies between -1 and 1 at every lag. */
  lemma AutocorrelationIsBounded(data: seq<real>, lag: nat)
    ensures -1.0 <= Autocorrelation(data, lag) <= 1.0
  {
    if lag < |data| && Spread(data) != 0.0 {
      SpreadIsNonNegative(data);
      hide Dot;
      var u := Deviations(data);
      LaggedProductBound(u, lag);
      QuotientBounds(Dot(u[..|u| - lag], u[lag..]), Spread(data));
    }
  }

  /** The products of each of the first `k` deviations with the one `lag` positions later. */
  function LaggedSum(data: seq<real>, mean: real, lag: nat, k: nat): real
    requires k + lag <= |data|
  {
    if k == 0 then 0.0
    else LaggedSum(data, mean, lag, k - 1) + (data[k - 1] - mean) * (data[k - 1 + lag] - mean)
  }

  lemma {:induction false} DotIsLaggedSum(data: seq<real>, u: seq<real>, mean: real, lag: nat, k: nat)
    requires k + lag <= |data| == |u| && forall i :: 0 <= i < |u| ==> u[i] == data[i] - mean
    ensures Dot(u[..k], u[lag..lag + k]) == LaggedSum(data, mean, lag, k)
  {
    hide Dot;
    if k == 0 {
      DotOfNothing();
      assert u[..0] == [] && u[lag..lag] == [];
    } else {
      DotIsLaggedSum(data, u, mean, lag, k - 1);
      LaggedStep(u, lag, k, data[k - 1] - mean, data[k - 1 + lag] - mean);
    }
  }

  lemma LaggedStep(u: seq<real>, lag: nat, k: nat, a: real, b: real)
    requires 0 < k && k + lag <= |u| && u[k - 1] == a && u[k - 1 + lag] == b
    ensures Dot(u[..k], u[lag..lag + k]) == Dot(u[..k - 1], u[lag..lag + k - 1]) + a * b
  {
    var x, y := u[..k], u[lag..lag + k];
    assert x[..k - 1] == u[..k - 1] && y[..k - 1] == u[lag..lag + k - 1];
    assert x[k - 1] == a && y[k - 1] == b;
  }

  /** Autocorrelation at a lag below the length is the sum of the products of the deviations that
      far apart, over the sum of their squares; at lag 0 it is 1. It is 0 beyond, and for
      constant data. */
  lemma AutocorrelationInNumbers(data: seq<real>, lag: nat)
    ensures lag >= |data| || Spread(data) == 0.0 ==> Autocorrelation(data, lag) == 0.0
    ensures lag < |data| ==>
              Autocorrelation(data, lag) * Spread(data) == LaggedSum(data, Mean(data), lag, |data| - lag) ||
              Spread(data) == 0.0
    ensures lag == 0 < |data| && Spread(data) != 0.0 ==> Autocorrelation(data, lag) == 1.0
  {
    hide Dot, Sum, Mean, Spread, LaggedSum;
    if lag < |data| && Spread(data) != 0.0 {
      var u, n := Deviations(data), |data| - lag;
      DotIsLaggedSum(data, u, Mean(data), lag, n);
      assert u[lag..lag + n] == u[lag..] && u[..|u| - lag] == u[..n];
      QuotientTimes(Dot(u[..|u| - lag], u[lag..]), Spread(data));
      if lag == 0 {
        assert u[..|u|] == u && u[0..] == u;
        SpreadIsSquare(data);
        QuotientIs(Spread(data), Spread(data), 1.0);
      }
    }
  }

  lemma QuotientTimes(q: real, p: real)
    requires p != 0.0
    ensures q / p * p == q
  {
  }

  lemma SpreadIsSquare(data: seq<real>)
    ensures Spread(data) == Dot(Deviations(data), Deviations(data))
  {
  }
}
