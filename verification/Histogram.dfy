/** Histogram bins over exact reals. */
module Histogram {
  datatype Bin = Bin(centre: real, count: nat)

  /** The edges: `count` bins of equal width from `min`. */
  datatype Grid = Grid(min: real, width: real, count: nat)
  {
    function Start(i: nat): real { min + i as real * width }

    /** Every bin is half open, except that the last takes its upper edge. */
    predicate Holds(i: nat, v: real) {
      v >= Start(i) && if i == count - 1 then v <= Start(i) + width else v < Start(i) + width
    }
  }

  /** The square root of `n`, rounded up. */
  function CeilSqrt(n: nat): (r: nat)
    ensures n <= r * r && (r == 0 || (r - 1) * (r - 1) < n)
  {
    if n == 0 then 0
    else
      var r := CeilSqrt(n - 1);
      if r * r < n then r + 1 else r
  }

  function Min(s: seq<real>): (m: real)
    requires s != []
    ensures m in s && forall v :: v in s ==> m <= v
  {
    var n := |s| - 1;
    assert s == s[..n] + [s[n]];
    if n == 0 then s[0]
    else
      var m := Min(s[..n]);
      if s[n] < m then s[n] else m
  }

  function Max(s: seq<real>): (m: real)
    requires s != []
    ensures m in s && forall v :: v in s ==> v <= m
  {
    var n := |s| - 1;
    assert s == s[..n] + [s[n]];
    if n == 0 then s[0]
    else
      var m := Max(s[..n]);
      if s[n] > m then s[n] else m
  }

  function GridOf(values: seq<real>): (g: Grid)
    requires values != []
  {
    var count := CeilSqrt(|values|);
    assert count > 0;
    Grid(Min(values), (Max(values) - Min(values)) / count as real, count)
  }

  function CountIn(g: Grid, i: nat, values: seq<real>): nat {
    if values == [] then 0
    else
      var n := |values| - 1;
      CountIn(g, i, values[..n]) + if g.Holds(i, values[n]) then 1 else 0
  }

  method ProcessHistogramData(values: seq<real>) returns (bins: seq<Bin>)
    ensures values == [] ==> bins == []
    ensures values != [] ==>
              var g := GridOf(values);
              && |bins| == g.count
              && forall i :: 0 <= i < |bins| ==>
                   bins[i] == Bin(g.Start(i) + g.width / 2.0, CountIn(g, i, values))
  {
    bins := [];
    if values == [] {
      return;
    }
    var g := GridOf(values);
    for i := 0 to g.count
      invariant |bins| == i
      invariant forall k :: 0 <= k < i ==> bins[k] == Bin(g.Start(k) + g.width / 2.0, CountIn(g, k, values))
    {
      bins := bins + [Bin(g.Start(i) + g.width / 2.0, CountIn(g, i, values))];
    }
  }

  // Every value falls into exactly one bin.

  /** In how many of the first `k` bins a value falls. */
  function Hits(g: Grid, k: nat, v: real): nat {
    if k == 0 then 0 else Hits(g, k - 1, v) + if g.Holds(k - 1, v) then 1 else 0
  }

  lemma NextStart(g: Grid, i: nat)
    ensures g.Start(i) + g.width == g.Start(i + 1)
  {
  }

  /** The bins before the last together hold what lies below their upper edge. */
  lemma {:induction false} HitsBeforeLast(g: Grid, k: nat, v: real)
    requires g.width >= 0.0 && g.min <= v && k < g.count
    ensures Hits(g, k, v) == if v < g.Start(k) then 1 else 0
  {
    if k > 0 {
      HitsBeforeLast(g, k - 1, v);
      NextStart(g, k - 1);
    }
  }

  lemma OneBinPerValue(g: Grid, v: real)
    requires g.width >= 0.0 && g.count > 0 && g.min <= v <= g.Start(g.count)
    ensures Hits(g, g.count, v) == 1
  {
    HitsBeforeLast(g, g.count - 1, v);
    NextStart(g, g.count - 1);
  }

  function Counted(g: Grid, k: nat, values: seq<real>): nat {
    if k == 0 then 0 else Counted(g, k - 1, values) + CountIn(g, k - 1, values)
  }

  lemma {:induction false} CountedOneMore(g: Grid, k: nat, values: seq<real>)
    requires values != []
    ensures var n := |values| - 1; Counted(g, k, values) == Counted(g, k, values[..n]) + Hits(g, k, values[n])
  {
    if k > 0 {
      CountedOneMore(g, k - 1, values);
    }
  }

  lemma {:induction false} NothingCounted(g: Grid, k: nat)
    ensures Counted(g, k, []) == 0
  {
    if k > 0 {
      NothingCounted(g, k - 1);
    }
  }

  lemma {:induction false} CountsAddUp(g: Grid, values: seq<real>)
    requires g.width >= 0.0 && g.count > 0
    requires forall i :: 0 <= i < |values| ==> g.min <= values[i] <= g.Start(g.count)
    ensures Counted(g, g.count, values) == |values|
  {
    if values == [] {
      NothingCounted(g, g.count);
    } else {
      var n := |values| - 1;
      CountsAddUp(g, values[..n]);
      CountedOneMore(g, g.count, values);
      OneBinPerValue(g, values[n]);
    }
  }

  lemma GridSpansData(values: seq<real>)
    requires values != []
    ensures var g := GridOf(values);
            g.count > 0 && g.width >= 0.0 && g.Start(g.count) == Max(values)
  {
    hide Min, Max, CeilSqrt;
    var g := GridOf(values);
    assert Min(values) <= Max(values);
    SpanAlgebra(Min(values), Max(values), g.count as real);
  }

  lemma SpanAlgebra(min: real, max: real, k: real)
    requires k > 0.0 && min <= max
    ensures (max - min) / k >= 0.0 && min + k * ((max - min) / k) == max
  {
  }

  /** The bins partition the data, also when all values are equal: each value falls into
      exactly one bin and the counts add up to the number of values. */
  lemma BinsPartitionData(values: seq<real>)
    requires values != []
    ensures var g := GridOf(values);
            && (forall i :: 0 <= i < |values| ==> Hits(g, g.count, values[i]) == 1)
            && Counted(g, g.count, values) == |values|
  {
    var g := GridOf(values);
    GridSpansData(values);
    forall i | 0 <= i < |values|
      ensures g.min <= values[i] <= g.Start(g.count) && Hits(g, g.count, values[i]) == 1
    {
      assert values[i] in values;
      OneBinPerValue(g, values[i]);
    }
    CountsAddUp(g, values);
  }

  // The bins in numbers.

  /** How many values lie in [lo, hi), or in [lo, hi] if the interval is closed. */
  function Between(values: seq<real>, lo: real, hi: real, closed: bool): nat {
    if values == [] then 0
    else
      var n := |values| - 1;
      var v := values[n];
      Between(values[..n], lo, hi, closed) + if lo <= v && (v < hi || (closed && v == hi)) then 1 else 0
  }

  lemma {:induction false} CountIsBetween(g: Grid, i: nat, values: seq<real>)
    requires i < g.count
    ensures CountIn(g, i, values) ==
            Between(values, g.min + i as real * g.width, g.min + (i as real + 1.0) * g.width, i == g.count - 1)
  {
    if values != [] {
      CountIsBetween(g, i, values[..|values| - 1]);
      assert (i as real + 1.0) * g.width == i as real * g.width + g.width;
    }
  }

  lemma CountIsRoot(values: seq<real>, k: nat)
    requires values != [] && k == GridOf(values).count
    ensures |values| <= k * k && (k - 1) * (k - 1) < |values|
  {
    hide Min, Max;
    assert k == CeilSqrt(|values|) > 0;
    hide GridOf;
    RootBounds(|values|, k);
  }

  lemma RootBounds(n: nat, k: nat)
    requires k == CeilSqrt(n) && k > 0
    ensures n <= k * k && (k - 1) * (k - 1) < n
  {
  }

  lemma WidthDividesRange(values: seq<real>, g: Grid)
    requires values != [] && g == GridOf(values)
    ensures g.min == Min(values) && g.width * g.count as real == Max(values) - Min(values)
  {
    hide Min, Max, CeilSqrt;
    SpanAlgebra(Min(values), Max(values), g.count as real);
  }

  lemma CentreOf(g: Grid, i: nat)
    ensures g.Start(i) + g.width / 2.0 == g.min + (i as real + 0.5) * g.width
  {
    assert (i as real + 0.5) * g.width == i as real * g.width + g.width / 2.0;
  }

  /** The number of bins is the root of the number of values, rounded up. They divide the range of
      the data evenly from the smallest value to the largest, and each counts the values from its
      lower edge to below its upper edge, the last one its upper edge as well. */
  lemma BinsInNumbers(values: seq<real>, g: Grid, k: nat, i: nat)
    requires values != [] && g == GridOf(values) && k == g.count && i < k
    ensures |values| <= k * k && (k - 1) * (k - 1) < |values|
    ensures g.min == Min(values) && g.width * g.count as real == Max(values) - Min(values)
    ensures g.Start(i) + g.width / 2.0 == g.min + (i as real + 0.5) * g.width
    ensures CountIn(g, i, values) ==
            Between(values, g.min + i as real * g.width, g.min + (i as real + 1.0) * g.width, i == g.count - 1)
  {
    hide *;
    CountIsRoot(values, k);
    WidthDividesRange(values, g);
    CentreOf(g, i);
    CountIsBetween(g, i, values);
  }
}
