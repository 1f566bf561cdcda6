/** Ranks and Spearman's coefficient. */
module Ranks {
  import opened RealFacts
  import opened Regression
  import opened StableSort
  import opened Sums

  /** The indices whose elements come before the one at `i`: smaller, or equal and earlier. */
  ghost function Predecessors(x: seq<real>, i: nat): set<nat>
    requires i < |x|
  {
    set j | j in Below(|x|) && Before(x, j, i)
  }

  /** The rank of an element is one more than the number of elements before it. */
  ghost function Rank(x: seq<real>, i: nat): nat
    requires i < |x|
  {
    1 + |Predecessors(x, i)|
  }

  lemma EarlierMeansBefore(x: seq<real>, a: nat, k: nat)
    requires a < |x| && k < |x|
    ensures a < k <==> Before(x, Order(x)[a], Order(x)[k])
  {
    hide Order;
    OrderIsOrdered(x);
    if a < k {
      assert Before(x, Order(x)[a], Order(x)[k]);
    } else if k < a {
      assert Before(x, Order(x)[k], Order(x)[a]);
    }
  }

  /** The element at sorted position `k` has rank k + 1. */
  lemma RankOfSorted(x: seq<real>, k: nat)
    requires k < |x|
    ensures Rank(x, Order(x)[k]) == k + 1
  {
    hide Order;
    var order := Order(x);
    forall j | j in Predecessors(x, order[k])
      ensures j in Elements(order[..k])
    {
      var a := PositionOf(x, j);
      EarlierMeansBefore(x, a, k);
      assert order[..k][a] == j;
    }
    forall a: nat | a < k
      ensures order[..k][a] in Predecessors(x, order[k])
    {
      EarlierMeansBefore(x, a, k);
    }
    assert Predecessors(x, order[k]) == Elements(order[..k]);
    OrderIsPermutation(x);
    DistinctSize(order[..k]);
  }

  lemma PositionOf(x: seq<real>, i: nat) returns (k: nat)
    requires i < |x|
    ensures k < |x| && Order(x)[k] == i
  {
    hide Order;
    OrderIsPermutation(x);
    assert i in Elements(Order(x));
    k :| k < |x| && Order(x)[k] == i;
  }

  method RankArray(x: seq<real>) returns (ranks: seq<int>)
    ensures |ranks| == |x| && forall i :: 0 <= i < |x| ==> ranks[i] == Rank(x, i)
  {
    hide Order, Rank;
    var order := Order(x);
    var a := new int[|x|];
    for i := 0 to |x|
      invariant forall k :: 0 <= k < i ==> a[order[k]] == k + 1
    {
      forall k | 0 <= k < i
        ensures order[k] != order[i]
      {
        OrderIsDistinct(x, k, i);
      }
      a[order[i]] := i + 1;
    }
    ranks := a[..];
    forall i | 0 <= i < |x|
      ensures ranks[i] == Rank(x, i)
    {
      var k := PositionOf(x, i);
      RankOfSorted(x, k);
    }
  }

  /** Ranks lie in 1..n, respect the order of the elements, break ties by position and are
      all different. */
  lemma RanksRespectOrder(x: seq<real>, i: nat, j: nat)
    requires i < |x| && j < |x|
    ensures 1 <= Rank(x, i) <= |x|
    ensures Rank(x, i) < Rank(x, j) <==> Before(x, i, j)
    ensures Rank(x, i) == Rank(x, j) <==> i == j
  {
    hide Order, Rank;
    var a := PositionOf(x, i);
    var b := PositionOf(x, j);
    RankOfSorted(x, a);
    RankOfSorted(x, b);
    OrderIsOrdered(x);
    if a < b {
      assert Before(x, Order(x)[a], Order(x)[b]);
    } else if b < a {
      assert Before(x, Order(x)[b], Order(x)[a]);
    }
  }

  // Sums over a permutation of 1..n.

  ghost predicate IsPermutation(p: seq<nat>) {
    && (forall i :: 0 <= i < |p| ==> 1 <= p[i] <= |p|)
    && (forall i, j :: 0 <= i < j < |p| ==> p[i] != p[j])
  }

  function Reals(p: seq<nat>): (r: seq<real>)
    ensures |r| == |p| && forall i :: 0 <= i < |p| ==> r[i] == p[i] as real
  {
    seq(|p|, i requires 0 <= i < |p| => p[i] as real)
  }

  lemma LargestOccurs(p: seq<nat>) returns (i: nat)
    requires IsPermutation(p) && p != []
    ensures i < |p| && p[i] == |p|
  {
    DistinctSize(p);
    assert Elements(p) + {0} <= Below(|p| + 1);
    assert |Elements(p) + {0}| == |p| + 1;
    SubsetOfSameSize(Elements(p) + {0}, Below(|p| + 1));
    assert |p| in Elements(p);
    i :| i < |p| && p[i] == |p|;
  }

  /** The sums of the first m numbers and of their squares, one step on. */
  lemma NextSums(m: real, sum: real, squares: real)
    requires 2.0 * sum == m * (m + 1.0) && 6.0 * squares == m * (m + 1.0) * (2.0 * m + 1.0)
    ensures var n := m + 1.0;
            2.0 * (sum + n) == n * (n + 1.0) && 6.0 * (squares + n * n) == n * (n + 1.0) * (2.0 * n + 1.0)
  {
    assert m * (m + 1.0) + 2.0 * (m + 1.0) == (m + 1.0) * (m + 2.0);
    assert m * (m + 1.0) * (2.0 * m + 1.0) + 6.0 * ((m + 1.0) * (m + 1.0)) ==
           (m + 1.0) * (m + 2.0) * (2.0 * (m + 1.0) + 1.0);
  }

  /** What is left of a permutation without its largest number. */
  lemma WithoutLargest(p: seq<nat>, i: nat)
    requires IsPermutation(p) && i < |p| && p[i] == |p|
    ensures var q := Omit(p, i);
            IsPermutation(q) && |q| + 1 == |p| && |q| as real + 1.0 == |p| as real && Omit(Reals(p), i) == Reals(q)
  {
    var q := Omit(p, i);
    assert forall k :: 0 <= k < |q| ==> q[k] != |p|;
  }

  lemma {:induction false} SumsOfPermutation(p: seq<nat>)
    requires IsPermutation(p)
    ensures var n, r := |p| as real, Reals(p);
            2.0 * Sum(r) == n * (n + 1.0) && 6.0 * Dot(r, r) == n * (n + 1.0) * (2.0 * n + 1.0)
    decreases |p|
  {
    hide Sum, Dot, Omit, IsPermutation;
    if p == [] {
      EmptySums(0.0, 0.0);
    } else {
      var i := LargestOccurs(p);
      var q := Omit(p, i);
      WithoutLargest(p, i);
      SumsOfPermutation(q);
      SumsWithout(Reals(p), i);
      NextSums(|q| as real, Sum(Reals(q)), Dot(Reals(q), Reals(q)));
    }
  }

  // Spearman's coefficient.

  ghost function RankValues(x: seq<real>): (r: seq<real>)
    ensures |r| == |x| && forall i :: 0 <= i < |x| ==> r[i] == Rank(x, i) as real
  {
    seq(|x|, i requires 0 <= i < |x| => Rank(x, i) as real)
  }

  ghost function Differences(a: seq<real>, b: seq<real>): (r: seq<real>)
    requires |a| == |b|
    ensures |r| == |a| && forall i :: 0 <= i < |a| ==> r[i] == a[i] - b[i]
  {
    seq(|a|, i requires 0 <= i < |a| => a[i] - b[i])
  }

  /** The shortcut formula, from the squared differences of the ranks. */
  ghost function Spearman(x: seq<real>, y: seq<real>): real
    requires |x| == |y| >= 2
  {
    var d, n := Differences(RankValues(x), RankValues(y)), |x| as real;
    1.0 - (6.0 * Dot(d, d)) / (n * (n * n - 1.0))
  }

  method SpearmanCorrelation(x: seq<real>, y: seq<real>) returns (rho: real)
    requires |x| == |y| >= 2
    ensures rho == Spearman(x, y)
  {
    hide Dot, Rank;
    var rankX := RankArray(x);
    var rankY := RankArray(y);
    var sumDSquared := 0.0;
    ghost var d := Differences(RankValues(x), RankValues(y));
    DotOfNothing();
    for i := 0 to |x|
      invariant sumDSquared == Dot(d[..i], d[..i])
    {
      var difference := (rankX[i] - rankY[i]) as real;
      DotOneMore(d, d, i, difference, difference);
      sumDSquared := sumDSquared + difference * difference;
    }
    assert d[..|x|] == d;
    var n := |x| as real;
    PositiveDenominator(n);
    rho := 1.0 - (6.0 * sumDSquared) / (n * (n * n - 1.0));
  }

  lemma PositiveDenominator(n: real)
    requires n >= 2.0
    ensures n * (n * n - 1.0) > 0.0
  {
    assert n * n >= 2.0 * n;
    ProductIsPositive(n, n * n - 1.0);
  }

  lemma RanksArePermutation(x: seq<real>) returns (p: seq<nat>)
    ensures IsPermutation(p) && Reals(p) == RankValues(x)
  {
    hide Rank;
    p := seq(|x|, i requires 0 <= i < |x| => Rank(x, i));
    forall i, j | 0 <= i < |x| && 0 <= j < |x|
      ensures 1 <= p[i] <= |x| && (i != j ==> p[i] != p[j])
    {
      RanksRespectOrder(x, i, j);
    }
  }

  lemma EqualProducts(a: real, b: real, c: real, d: real)
    requires a == c && b == d
    ensures a * b == c * d
  {
  }

  lemma MeanOfRanks(n: real, s: real, m: real)
    requires 2.0 * s == n * (n + 1.0) && m * n == s && n != 0.0
    ensures 2.0 * m == n + 1.0
  {
    calc {
      n * (2.0 * m);
      2.0 * (m * n);
      2.0 * s;
      n * (n + 1.0);
    }
    Cancel(n, 2.0 * m, n + 1.0);
  }

  lemma SpreadOfRanksAlgebra(n: real, s: real, d: real, m: real)
    requires 2.0 * s == n * (n + 1.0) && 6.0 * d == n * (n + 1.0) * (2.0 * n + 1.0) && m * n == s && n != 0.0
    ensures 12.0 * (d - m * s) == n * (n * n - 1.0) && 2.0 * m == n + 1.0
  {
    MeanOfRanks(n, s, m);
    EqualProducts(2.0 * m, 2.0 * s, n + 1.0, n * (n + 1.0));
  }

  /** Ranks of any data have the same mean and the same spread. */
  lemma SpreadOfRanks(x: seq<real>)
    requires x != []
    ensures var n, r := |x| as real, RankValues(x);
            12.0 * Spread(r) == n * (n * n - 1.0) && 2.0 * Mean(r) == n + 1.0
  {
    hide Dot, Sum, Mean;
    var p := RanksArePermutation(x);
    var r := RankValues(x);
    SumsOfPermutation(p);
    MeanTimesCount(r);
    DotOfDeviations(r, r);
    SpreadOfRanksAlgebra(|x| as real, Sum(r), Dot(r, r), Mean(r));
  }

  /** The squared differences of two sequences with one mean. */
  lemma SquaredDifferences(a: seq<real>, b: seq<real>)
    requires |a| == |b| && a != [] && Mean(a) == Mean(b)
    ensures var d := Differences(a, b); Dot(d, d) == Spread(a) - 2.0 * Cross(b, a) + Spread(b)
  {
    hide Dot, Sum, Mean;
    var u, v := Deviations(b), Deviations(a);
    assert Differences(a, b) == Combine(u, v, 1.0, 0.0);
    DeviationsCancel(a);
    DeviationsCancel(b);
    SquareOfCombination(u, v, 1.0, 0.0);
  }

  lemma CrossCommutes(a: seq<real>, b: seq<real>)
    requires |a| == |b|
    ensures Cross(a, b) == Cross(b, a)
  {
    DotCommutes(Deviations(a), Deviations(b));
  }

  lemma ShortcutAlgebra(s: real, c: real, dd: real, denominator: real)
    requires s > 0.0 && denominator == 12.0 * s && dd == s - 2.0 * c + s
    ensures 1.0 - (6.0 * dd) / denominator == c / s
  {
    QuotientIs(6.0 * dd, denominator, 1.0 - c / s);
  }

  /** With equal spreads the root in the correlation is that spread. */
  lemma PearsonOfEqualSpread(a: seq<real>, b: seq<real>, sqrt: real -> real)
    requires |a| == |b| && Spread(a) == Spread(b) > 0.0 && IsSqrt(sqrt)
    ensures Pearson(a, b, sqrt) == Cross(a, b) / Spread(a)
  {
    hide Spread, Cross;
    var s := Spread(a);
    ProductIsNonNegative(s, s);
    RootIsUnique(sqrt(s * s), s);
  }

  lemma SpearmanIsRatio(x: seq<real>, y: seq<real>)
    requires |x| == |y| >= 2
    ensures var a, b := RankValues(x), RankValues(y);
            Spread(a) == Spread(b) > 0.0 && Spearman(x, y) == Cross(a, b) / Spread(a)
  {
    hide Dot, Mean, Spread, Cross, RankValues, Differences;
    var a, b, n := RankValues(x), RankValues(y), |x| as real;
    SpreadOfRanks(x);
    SpreadOfRanks(y);
    PositiveDenominator(n);
    SquaredDifferences(a, b);
    CrossCommutes(a, b);
    ShortcutAlgebra(Spread(a), Cross(a, b), Dot(Differences(a, b), Differences(a, b)), n * (n * n - 1.0));
  }

  /** The shortcut formula is the correlation of the ranks, for every data with or without
      ties, so it lies between -1 and 1. */
  lemma SpearmanIsPearsonOfRanks(x: seq<real>, y: seq<real>, sqrt: real -> real)
    requires |x| == |y| >= 2 && IsSqrt(sqrt)
    ensures Spearman(x, y) == Pearson(RankValues(x), RankValues(y), sqrt)
    ensures -1.0 <= Spearman(x, y) <= 1.0
  {
    hide Spearman, Pearson, Spread, Cross, RankValues;
    SpearmanIsRatio(x, y);
    PearsonOfEqualSpread(RankValues(x), RankValues(y), sqrt);
    PearsonIsBounded(RankValues(x), RankValues(y), sqrt);
  }
}
