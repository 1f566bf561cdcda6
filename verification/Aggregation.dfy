/** Aggregation of a buffer into averages over time windows. */
module Aggregation {
  import opened Streaming
  import opened Sums

  /** A window key and its points; a JavaScript map keeps them in order of first insertion. */
  datatype Group = Group(key: int, points: seq<Point>)

  datatype Aggregate = Aggregate(timestamp: int, average: real, pointCount: nat, values: seq<real>)

  function Numbers(points: seq<Point>): seq<real> {
    if points == [] then []
    else
      var n := |points| - 1;
      var init := Numbers(points[..n]);
      if points[n].value.Number? then init + [points[n].value.n] else init
  }

  /** `Math.floor(t / window)`, also for a negative window. */
  function FloorDiv(t: int, window: int): int
    requires window != 0
  {
    if window > 0 then t / window else -t / -window
  }

  function KeyOf(p: Point, window: int): int
    requires window != 0
  {
    FloorDiv(p.timestamp, window) * window
  }

  function Find(groups: seq<Group>, key: int): (i: nat)
    ensures i <= |groups|
    ensures i < |groups| ==> groups[i].key == key
    ensures i == |groups| ==> forall k :: 0 <= k < |groups| ==> groups[k].key != key
  {
    if groups == [] then 0
    else
      var n := |groups| - 1;
      if groups[n].key == key then n
      else
        var i := Find(groups[..n], key);
        if i < n then i else n + 1
  }

  function Insert(groups: seq<Group>, key: int, p: Point): seq<Group> {
    var i := Find(groups, key);
    if i < |groups| then groups[i := Group(key, groups[i].points + [p])] else groups + [Group(key, [p])]
  }

  /** The points from `from` on, grouped by window. */
  function Groups(data: seq<Point>, window: int, from: int): seq<Group>
    requires window != 0
  {
    if data == [] then []
    else
      var n := |data| - 1;
      var init := Groups(data[..n], window, from);
      if data[n].timestamp >= from then Insert(init, KeyOf(data[n], window), data[n]) else init
  }

  function Summary(g: Group): Aggregate
    requires Numbers(g.points) != []
  {
    Aggregate(g.key, Mean(Numbers(g.points)), |g.points|, Numbers(g.points))
  }

  function Summaries(groups: seq<Group>): (r: seq<Aggregate>)
    ensures |r| <= |groups|
  {
    if groups == [] then []
    else
      var n := |groups| - 1;
      var init := Summaries(groups[..n]);
      if Numbers(groups[n].points) != [] then init + [Summary(groups[n])] else init
  }

  method AggregateData(data: seq<Point>, window: int, now: int) returns (aggregated: seq<Aggregate>)
    requires window != 0
    ensures aggregated == Summaries(Groups(data, window, now - window))
  {
    var windowStart := now - window;
    var windows: seq<Group> := [];
    for i := 0 to |data|
      invariant windows == Groups(data[..i], window, windowStart)
    {
      var point := data[i];
      assert data[..i + 1][..i] == data[..i];
      if point.timestamp >= windowStart {
        windows := Insert(windows, KeyOf(point, window), point);
      }
    }
    assert data[..|data|] == data;
    aggregated := [];
    for i := 0 to |windows|
      invariant aggregated == Summaries(windows[..i])
    {
      assert windows[..i + 1][..i] == windows[..i];
      var numericValues := Numbers(windows[i].points);
      if |numericValues| > 0 {
        aggregated := aggregated + [Aggregate(windows[i].key, Mean(numericValues), |windows[i].points|, numericValues)];
      }
    }
    assert windows[..|windows|] == windows;
  }

  // What the windows hold.

  /** The points from `from` on whose window is `key`, in order. */
  function InWindow(data: seq<Point>, window: int, from: int, key: int): seq<Point>
    requires window != 0
  {
    if data == [] then []
    else
      var n := |data| - 1;
      var init := InWindow(data[..n], window, from, key);
      if data[n].timestamp >= from && KeyOf(data[n], window) == key then init + [data[n]] else init
  }

  ghost predicate DistinctKeys(groups: seq<Group>) {
    forall i, j :: 0 <= i < j < |groups| ==> groups[i].key != groups[j].key
  }

  ghost predicate Keyed(groups: seq<Group>, key: int) {
    exists i :: 0 <= i < |groups| && groups[i].key == key
  }

  lemma FindIsUnique(groups: seq<Group>, key: int, k: nat)
    requires DistinctKeys(groups) && k < |groups|
    ensures groups[k].key == key <==> k == Find(groups, key)
  {
  }

  /** The point joins the group of its key, or founds it at the end. */
  lemma InsertedGroup(groups: seq<Group>, key: int, p: Point, k: nat)
    requires DistinctKeys(groups) && k < |Insert(groups, key, p)|
    ensures k <= |groups|
    ensures Insert(groups, key, p)[k] ==
            if k == |groups| then Group(key, [p])
            else if groups[k].key == key then Group(key, groups[k].points + [p])
            else groups[k]
    ensures k == |groups| ==> !Keyed(groups, key)
  {
    hide Find;
    if k < |groups| {
      FindIsUnique(groups, key, k);
    }
  }

  lemma InsertKeepsDistinct(groups: seq<Group>, key: int, p: Point)
    requires DistinctKeys(groups)
    ensures DistinctKeys(Insert(groups, key, p))
  {
    hide Find;
    var r := Insert(groups, key, p);
    forall i, j | 0 <= i < j < |r|
      ensures r[i].key != r[j].key
    {
      InsertedGroup(groups, key, p, i);
      InsertedGroup(groups, key, p, j);
    }
  }

  /** The windows have different keys, every window holds exactly the recent points of its key
      in their order, and no recent point is left without a window. */
  lemma {:induction false} GroupsAreWindows(data: seq<Point>, window: int, from: int)
    requires window != 0
    ensures var r := Groups(data, window, from);
            && DistinctKeys(r)
            && (forall i :: 0 <= i < |r| ==> r[i].points == InWindow(data, window, from, r[i].key) && r[i].points != [])
            && (forall key :: !Keyed(r, key) ==> InWindow(data, window, from, key) == [])
  {
    hide Insert, Keyed, KeyOf;
    if data != [] {
      var n := |data| - 1;
      GroupsAreWindows(data[..n], window, from);
      if data[n].timestamp >= from {
        var key := KeyOf(data[n], window);
        var before, after := Groups(data[..n], window, from), Groups(data, window, from);
        InsertKeepsDistinct(before, key, data[n]);
        forall i | 0 <= i < |after|
          ensures after[i].points == InWindow(data, window, from, after[i].key) && after[i].points != []
        {
          InsertedGroup(before, key, data[n], i);
        }
        forall k | !Keyed(after, k)
          ensures InWindow(data, window, from, k) == []
        {
          KeyedAfterInsert(before, key, data[n], k);
        }
      }
    }
  }

  lemma KeyedAfterInsert(groups: seq<Group>, key: int, p: Point, k: int)
    ensures Keyed(Insert(groups, key, p), k) <==> Keyed(groups, k) || k == key
  {
    var r := Insert(groups, key, p);
    if k == key {
      assert r[Find(groups, key)].key == key;
    } else if Keyed(groups, k) {
      var i :| 0 <= i < |groups| && groups[i].key == k;
      assert r[i].key == k;
    }
  }

  // Conservation.

  /** The points from `from` on. */
  function Recent(data: seq<Point>, from: int): seq<Point> {
    if data == [] then []
    else
      var n := |data| - 1;
      if data[n].timestamp >= from then Recent(data[..n], from) + [data[n]] else Recent(data[..n], from)
  }

  function NumberCount(groups: seq<Group>): nat {
    if groups == [] then 0
    else NumberCount(groups[..|groups| - 1]) + |Numbers(groups[|groups| - 1].points)|
  }

  function NumberSum(groups: seq<Group>): real {
    if groups == [] then 0.0
    else NumberSum(groups[..|groups| - 1]) + Sum(Numbers(groups[|groups| - 1].points))
  }

  lemma NumbersOneMore(points: seq<Point>, p: Point)
    ensures var before, after := Numbers(points), Numbers(points + [p]);
            if p.value.Number? then |after| == |before| + 1 && Sum(after) == Sum(before) + p.value.n
            else after == before
  {
    assert (points + [p])[..|points|] == points;
    if p.value.Number? {
      assert (Numbers(points) + [p.value.n])[..|Numbers(points)|] == Numbers(points);
    }
  }

  lemma {:induction false} TotalsAfterUpdate(groups: seq<Group>, i: nat, g: Group)
    requires i < |groups|
    ensures NumberCount(groups[i := g]) == NumberCount(groups) - |Numbers(groups[i].points)| + |Numbers(g.points)|
    ensures NumberSum(groups[i := g]) == NumberSum(groups) - Sum(Numbers(groups[i].points)) + Sum(Numbers(g.points))
  {
    hide Sum, Numbers;
    var n := |groups| - 1;
    var updated := groups[i := g];
    if i == n {
      assert updated[..n] == groups[..n];
    } else {
      TotalsAfterUpdate(groups[..n], i, g);
      assert updated[..n] == groups[..n][i := g];
    }
  }

  lemma InsertConserves(groups: seq<Group>, key: int, p: Point)
    ensures var r := Insert(groups, key, p);
            if p.value.Number? then
              NumberCount(r) == NumberCount(groups) + 1 && NumberSum(r) == NumberSum(groups) + p.value.n
            else NumberCount(r) == NumberCount(groups) && NumberSum(r) == NumberSum(groups)
  {
    hide Sum, Numbers;
    var i := Find(groups, key);
    if i < |groups| {
      TotalsAfterUpdate(groups, i, Group(key, groups[i].points + [p]));
      NumbersOneMore(groups[i].points, p);
    } else {
      var r := groups + [Group(key, [p])];
      assert r[..|groups|] == groups;
      NumbersOneMore([], p);
      assert [] + [p] == [p];
      NoNumbers();
    }
  }

  lemma NoNumbers()
    ensures Numbers([]) == [] && Sum([]) == 0.0
  {
  }

  lemma {:induction false} GroupsConserve(data: seq<Point>, window: int, from: int)
    requires window != 0
    ensures var groups, numbers := Groups(data, window, from), Numbers(Recent(data, from));
            NumberCount(groups) == |numbers| && NumberSum(groups) == Sum(numbers)
  {
    hide Sum, Numbers, Insert;
    if data == [] {
      NoNumbers();
    } else {
      var n := |data| - 1;
      GroupsConserve(data[..n], window, from);
      if data[n].timestamp >= from {
        InsertConserves(Groups(data[..n], window, from), KeyOf(data[n], window), data[n]);
        NumbersOneMore(Recent(data[..n], from), data[n]);
      }
    }
  }

  /** How many values the output stands for, and what they add up to. */
  function OutputCount(output: seq<Aggregate>): nat {
    if output == [] then 0 else OutputCount(output[..|output| - 1]) + |output[|output| - 1].values|
  }

  function OutputSum(output: seq<Aggregate>): real {
    if output == [] then 0.0
    else
      var last := output[|output| - 1];
      OutputSum(output[..|output| - 1]) + last.average * |last.values| as real
  }

  lemma {:induction false} SummariesConserve(groups: seq<Group>)
    ensures OutputCount(Summaries(groups)) == NumberCount(groups) && OutputSum(Summaries(groups)) == NumberSum(groups)
  {
    hide Sum, Mean, Numbers;
    if groups != [] {
      var n := |groups| - 1;
      SummariesConserve(groups[..n]);
      var numbers, init := Numbers(groups[n].points), Summaries(groups[..n]);
      if numbers != [] {
        MeanTimesCount(numbers);
        assert (init + [Summary(groups[n])])[..|init|] == init;
      } else {
        NoNumbers();
      }
    }
  }

  /** Aggregation loses and invents nothing: the averages, weighted by their counts, add up to
      the sum of the recent numeric values, and the counts to their number. */
  lemma AggregationConserves(data: seq<Point>, window: int, now: int)
    requires window != 0
    ensures var output, numbers := Summaries(Groups(data, window, now - window)), Numbers(Recent(data, now - window));
            OutputCount(output) == |numbers| && OutputSum(output) == Sum(numbers)
  {
    GroupsConserve(data, window, now - window);
    SummariesConserve(Groups(data, window, now - window));
  }

  // Keys.

  lemma KeyedInPrefix(groups: seq<Group>, key: int)
    requires groups != []
    ensures Keyed(groups, groups[|groups| - 1].key)
    ensures Keyed(groups[..|groups| - 1], key) ==> Keyed(groups, key)
    ensures DistinctKeys(groups) && Keyed(groups[..|groups| - 1], key) ==> key != groups[|groups| - 1].key
  {
    var n := |groups| - 1;
    assert groups[n].key == groups[n].key;
    if Keyed(groups[..n], key) {
      var i :| 0 <= i < n && groups[..n][i].key == key;
      assert groups[i].key == key;
    }
  }

  lemma {:induction false} SummaryKeyed(groups: seq<Group>, i: nat)
    requires i < |Summaries(groups)|
    ensures Keyed(groups, Summaries(groups)[i].timestamp)
  {
    var n := |groups| - 1;
    var init := Summaries(groups[..n]);
    if i < |init| {
      SummaryKeyed(groups[..n], i);
      KeyedInPrefix(groups, init[i].timestamp);
    } else {
      KeyedInPrefix(groups, groups[n].key);
    }
  }

  lemma {:induction false} SummariesDistinct(groups: seq<Group>, i: nat, j: nat)
    requires DistinctKeys(groups) && i < j < |Summaries(groups)|
    ensures Summaries(groups)[i].timestamp != Summaries(groups)[j].timestamp
  {
    var n := |groups| - 1;
    var init := Summaries(groups[..n]);
    if j < |init| {
      SummariesDistinct(groups[..n], i, j);
    } else {
      SummaryKeyed(groups[..n], i);
      KeyedInPrefix(groups, init[i].timestamp);
    }
  }

  lemma {:induction false} SummaryOfGroup(groups: seq<Group>, i: nat) returns (k: nat)
    requires i < |Summaries(groups)|
    ensures k < |groups| && Numbers(groups[k].points) != [] && Summaries(groups)[i] == Summary(groups[k])
  {
    hide Numbers;
    var n := |groups| - 1;
    if i < |Summaries(groups[..n])| {
      k := SummaryOfGroup(groups[..n], i);
    } else {
      k := n;
    }
  }

  /** Each output describes its window: all recent points of the window are counted, the numeric
      ones are listed in order, and the average is theirs. */
  lemma OutputDescribesWindow(data: seq<Point>, window: int, now: int, i: nat)
    requires window != 0 && i < |Summaries(Groups(data, window, now - window))|
    ensures var o := Summaries(Groups(data, window, now - window))[i];
            var points := InWindow(data, window, now - window, o.timestamp);
            && o.pointCount == |points| && o.values == Numbers(points) != []
            && o.average * |o.values| as real == Sum(o.values)
  {
    hide Numbers, Sum, Mean;
    var groups := Groups(data, window, now - window);
    GroupsAreWindows(data, window, now - window);
    var k := SummaryOfGroup(groups, i);
    MeanTimesCount(Numbers(groups[k].points));
  }

  /** The positions of the points with numeric values. */
  ghost function NumericAt(points: seq<Point>): (idx: seq<nat>)
    ensures forall k :: 0 <= k < |idx| ==> idx[k] < |points|
  {
    if points == [] then []
    else
      var n := |points| - 1;
      if points[n].value.Number? then NumericAt(points[..n]) + [n] else NumericAt(points[..n])
  }

  /** The numbers are the values of exactly the numeric points, in their order. */
  lemma {:induction false} NumbersAreInOrder(points: seq<Point>, i: nat)
    requires i < |points|
    ensures var idx, r := NumericAt(points), Numbers(points);
            && |r| == |idx| && (forall k :: 0 <= k < |r| ==> points[idx[k]].value == Number(r[k]))
            && (forall a, b :: 0 <= a < b < |idx| ==> idx[a] < idx[b])
            && (i in idx <==> points[i].value.Number?)
  {
    var n := |points| - 1;
    if n > 0 {
      NumbersAreInOrder(points[..n], if i < n then i else 0);
    }
  }

  /** A window holds the points from its key on, up to the next multiple of the window: one window
      length from the key, or, for a negative window, one window length before it. */
  lemma KeyIsWindowStart(p: Point, window: int)
    requires window != 0
    ensures var key := KeyOf(p, window);
            if window > 0 then key <= p.timestamp < key + window else key + window < p.timestamp <= key
  {
    if window > 0 {
      QuotientAndRest(p.timestamp, window);
    } else {
      QuotientAndRest(-p.timestamp, -window);
      Negated(FloorDiv(p.timestamp, window), window);
    }
  }

  /** Every point counted by an output is a recent one of its window, and every recent point
      there is counted. */
  lemma {:induction false} WindowPoints(data: seq<Point>, window: int, from: int, key: int, p: Point)
    requires window != 0 && FloorDiv(key, window) * window == key
    ensures p in InWindow(data, window, from, key) <==>
            && p in data && p.timestamp >= from
            && if window > 0 then key <= p.timestamp < key + window else key + window < p.timestamp <= key
  {
    hide KeyOf;
    if data != [] {
      var n := |data| - 1;
      WindowPoints(data[..n], window, from, key, p);
      assert data == data[..n] + [data[n]];
      SameWindow(data[n], window, key);
    }
  }

  lemma SameWindow(p: Point, window: int, key: int)
    requires window != 0 && FloorDiv(key, window) * window == key
    ensures KeyOf(p, window) == key <==>
            if window > 0 then key <= p.timestamp < key + window else key + window < p.timestamp <= key
  {
    KeyIsWindowStart(p, window);
    var q, r := FloorDiv(p.timestamp, window), FloorDiv(key, window);
    NoMultipleBetween(q, r, window);
  }

  lemma NoMultipleBetween(q: int, r: int, window: int)
    requires window != 0
    ensures q < r ==> if window > 0 then q * window + window <= r * window else r * window <= q * window + window
    ensures r < q ==> if window > 0 then r * window + window <= q * window else q * window <= r * window + window
  {
    assert (r - q) * window == r * window - q * window;
    if q < r {
      AtLeastOnce(r - q, window);
    } else if r < q {
      AtLeastOnce(q - r, window);
      assert (q - r) * window == q * window - r * window;
    }
  }

  lemma AtLeastOnce(d: int, window: int)
    requires d >= 1
    ensures window > 0 ==> window <= d * window
    ensures window < 0 ==> d * window <= window
  {
    assert (d - 1) * window == d * window - window;
  }

  /** A key with recent points is the start of a window that holds a recent point. */
  lemma {:induction false} WindowPoint(data: seq<Point>, window: int, from: int, key: int) returns (p: Point)
    requires window != 0 && InWindow(data, window, from, key) != []
    ensures p in data && p.timestamp >= from && KeyOf(p, window) == key
  {
    var n := |data| - 1;
    if data[n].timestamp >= from && KeyOf(data[n], window) == key {
      p := data[n];
    } else {
      p := WindowPoint(data[..n], window, from, key);
    }
  }

  lemma SmallMultiple(d: int, window: int)
    requires window > 0 && -window < d * window < 2 * window
    ensures d == 0 || d == 1
  {
    assert d >= 2 ==> d * window >= 2 * window;
    assert d <= -1 ==> d * window <= -window;
  }

  lemma KeyBounds(t: int, window: int, now: int)
    requires window > 0 && now - window <= t <= now
    ensures t / window * window == now / window * window || t / window * window == now / window * window - window
  {
    var q, r := now / window, t / window;
    QuotientAndRest(now, window);
    QuotientAndRest(t, window);
    assert (q - r) * window == q * window - r * window;
    SmallMultiple(q - r, window);
  }

  lemma QuotientAndRest(t: int, window: int)
    requires window > 0
    ensures t / window * window <= t < t / window * window + window
  {
    assert t == t / window * window + t % window;
  }

  /** The output keys are different multiples of the window: each is the start of its window. */
  lemma OutputKeys(data: seq<Point>, window: int, now: int)
    requires window != 0
    ensures var output := Summaries(Groups(data, window, now - window));
            && (forall i :: 0 <= i < |output| ==> FloorDiv(output[i].timestamp, window) * window == output[i].timestamp)
            && (forall i, j :: 0 <= i < j < |output| ==> output[i].timestamp != output[j].timestamp)
  {
    var groups := Groups(data, window, now - window);
    var output := Summaries(groups);
    GroupsAreWindows(data, window, now - window);
    forall i | 0 <= i < |output|
      ensures FloorDiv(output[i].timestamp, window) * window == output[i].timestamp
    {
      SummaryKeyed(groups, i);
      var k :| 0 <= k < |groups| && groups[k].key == output[i].timestamp;
      var p := WindowPoint(data, window, now - window, groups[k].key);
      MultipleOfWindow(FloorDiv(p.timestamp, window), window);
    }
    forall i, j | 0 <= i < j < |output|
      ensures output[i].timestamp != output[j].timestamp
    {
      SummariesDistinct(groups, i, j);
    }
  }

  lemma QuotientOfMultiple(q: int, window: int)
    requires window > 0
    ensures (q * window) / window == q
  {
    QuotientAndRest(q * window, window);
    var d := q - (q * window) / window;
    assert d * window == q * window - (q * window) / window * window;
    SmallMultiple(d, window);
    assert d == 1 ==> d * window == window;
  }

  lemma Negated(q: int, window: int)
    ensures -(q * window) == q * (-window)
  {
  }

  lemma MultipleOfWindow(q: int, window: int)
    requires window != 0
    ensures FloorDiv(q * window, window) == q
  {
    if window > 0 {
      QuotientOfMultiple(q, window);
    } else {
      Negated(q, window);
      QuotientOfMultiple(q, -window);
    }
  }

  /** When no point lies in the future there are at most two windows, and none at all if the
      window is negative. */
  lemma AtMostTwoWindows(data: seq<Point>, window: int, now: int)
    requires window != 0 && forall p :: p in data ==> p.timestamp <= now
    ensures |Summaries(Groups(data, window, now - window))| <= if window > 0 then 2 else 0
  {
    hide Groups, Summaries, KeyOf;
    var groups := Groups(data, window, now - window);
    GroupsAreWindows(data, window, now - window);
    if window > 0 {
      var last := now / window * window;
      forall i | 0 <= i < |groups|
        ensures groups[i].key == last || groups[i].key == last - window
      {
        OneOfTwoKeys(data, window, now, groups[i].key);
      }
      assert |groups| > 2 ==> false by {
        if |groups| > 2 {
          ThirdKey(groups, last, last - window);
        }
      }
    } else if |groups| > 0 {
      var p := WindowPoint(data, window, now - window, groups[0].key);
      assert false;
    }
  }

  lemma OneOfTwoKeys(data: seq<Point>, window: int, now: int, key: int)
    requires window > 0 && (forall p :: p in data ==> p.timestamp <= now)
    requires InWindow(data, window, now - window, key) != []
    ensures var last := now / window * window; key == last || key == last - window
  {
    var p := WindowPoint(data, window, now - window, key);
    KeyBounds(p.timestamp, window, now);
  }

  lemma ThirdKey(groups: seq<Group>, a: int, b: int)
    requires DistinctKeys(groups) && |groups| > 2
    ensures exists i :: 0 <= i < |groups| && groups[i].key != a && groups[i].key != b
  {
    var x, y, z := groups[0].key, groups[1].key, groups[2].key;
    assert x != y && x != z && y != z;
  }

  // The order of the windows.

  /** The position of the first recent point of the window, or the length of the data. */
  function FirstAt(data: seq<Point>, window: int, from: int, key: int): (i: nat)
    requires window != 0
    ensures i <= |data|
    ensures i < |data| ==> data[i].timestamp >= from && KeyOf(data[i], window) == key
    ensures forall k :: 0 <= k < i ==> data[k].timestamp < from || KeyOf(data[k], window) != key
  {
    if data == [] then 0
    else
      var n := |data| - 1;
      var i := FirstAt(data[..n], window, from, key);
      if i < n then i
      else if data[n].timestamp >= from && KeyOf(data[n], window) == key then n else n + 1
  }

  /** The ranks of the keys increase, and stay below `n`. */
  ghost predicate Ranked(keys: seq<int>, rank: int -> int, n: int) {
    && (forall i :: 0 <= i < |keys| ==> rank(keys[i]) < n)
    && (forall i, j :: 0 <= i < j < |keys| ==> rank(keys[i]) < rank(keys[j]))
  }

  function KeysOf(groups: seq<Group>): (r: seq<int>)
    ensures |r| == |groups| && forall i :: 0 <= i < |r| ==> r[i] == groups[i].key
  {
    seq(|groups|, i requires 0 <= i < |groups| => groups[i].key)
  }

  function Timestamps(output: seq<Aggregate>): (r: seq<int>)
    ensures |r| == |output| && forall i :: 0 <= i < |r| ==> r[i] == output[i].timestamp
  {
    seq(|output|, i requires 0 <= i < |output| => output[i].timestamp)
  }

  lemma RankedAlike(keys: seq<int>, rank: int -> int, n: int, rank': int -> int, n': int)
    requires Ranked(keys, rank, n) && n <= n' && forall i :: 0 <= i < |keys| ==> rank'(keys[i]) == rank(keys[i])
    ensures Ranked(keys, rank', n')
  {
  }

  lemma RankedOneMore(keys: seq<int>, key: int, rank: int -> int, n: int)
    requires Ranked(keys, rank, n) && rank(key) == n
    ensures Ranked(keys + [key], rank, n + 1)
  {
  }

  lemma FirstAtOneMore(data: seq<Point>, window: int, from: int, key: int)
    requires window != 0 && data != []
    ensures var n := |data| - 1;
            var was, i := FirstAt(data[..n], window, from, key), FirstAt(data, window, from, key);
            if was < n then i == was
            else i == if data[n].timestamp >= from && KeyOf(data[n], window) == key then n else n + 1
  {
  }

  /** The windows stand in the order of their first recent points, and there is one for each. */
  lemma {:induction false} GroupsInFirstOrder(data: seq<Point>, window: int, from: int)
    requires window != 0
    ensures Ranked(KeysOf(Groups(data, window, from)), key => FirstAt(data, window, from, key), |data|)
    ensures forall key :: FirstAt(data, window, from, key) < |data| ==> Keyed(Groups(data, window, from), key)
  {
    if data != [] {
      var n := |data| - 1;
      var init, before := data[..n], Groups(data[..n], window, from);
      var rank, rank' := key => FirstAt(init, window, from, key), key => FirstAt(data, window, from, key);
      GroupsInFirstOrder(init, window, from);
      forall key
        ensures if rank(key) < n then rank'(key) == rank(key)
                else rank'(key) == if data[n].timestamp >= from && KeyOf(data[n], window) == key then n else n + 1
      {
        FirstAtOneMore(data, window, from, key);
      }
      GroupsStep(data, window, from, before, rank, rank');
    }
  }

  lemma GroupsStep(data: seq<Point>, window: int, from: int, before: seq<Group>, rank: int -> int, rank': int -> int)
    requires window != 0 && data != [] && before == Groups(data[..|data| - 1], window, from)
    requires Ranked(KeysOf(before), rank, |data| - 1)
    requires forall key :: rank(key) < |data| - 1 ==> Keyed(before, key)
    requires forall key {:trigger rank'(key)} ::
               var n := |data| - 1;
               if rank(key) < n then rank'(key) == rank(key)
               else rank'(key) == if data[n].timestamp >= from && KeyOf(data[n], window) == key then n else n + 1
    ensures var after := Groups(data, window, from);
            Ranked(KeysOf(after), rank', |data|) && forall key :: rank'(key) < |data| ==> Keyed(after, key)
  {
    var n := |data| - 1;
    var key, after := KeyOf(data[n], window), Groups(data, window, from);
    RankedAlike(KeysOf(before), rank, n, rank', n);
    RankedAlike(KeysOf(before), rank, n, rank', n + 1);
    if data[n].timestamp >= from {
      hide KeyOf, Ranked;
      InsertedKeys(before, key, data[n]);
      if !Keyed(before, key) {
        RankedOneMore(KeysOf(before), key, rank', n);
      }
      forall k | rank'(k) < |data|
        ensures Keyed(after, k)
      {
        KeyedAfterInsert(before, key, data[n], k);
      }
    }
  }

  lemma InsertedKeys(groups: seq<Group>, key: int, p: Point)
    ensures KeysOf(Insert(groups, key, p)) == if Keyed(groups, key) then KeysOf(groups) else KeysOf(groups) + [key]
  {
    var i := Find(groups, key);
    if i < |groups| {
      assert groups[i].key == key;
    }
  }

  /** The outputs stand in the order in which their windows first had a recent point. */
  lemma OutputsInFirstOrder(data: seq<Point>, window: int, from: int)
    requires window != 0
    ensures Ranked(Timestamps(Summaries(Groups(data, window, from))), key => FirstAt(data, window, from, key), |data|)
  {
    GroupsInFirstOrder(data, window, from);
    SummariesAreRanked(Groups(data, window, from), key => FirstAt(data, window, from, key), |data|);
  }

  lemma {:induction false} SummariesAreRanked(groups: seq<Group>, rank: int -> int, n: int)
    requires Ranked(KeysOf(groups), rank, n)
    ensures Ranked(Timestamps(Summaries(groups)), rank, n)
  {
    hide Numbers, Ranked;
    if groups == [] {
      NothingIsRanked(rank, n);
    } else {
      var m := |groups| - 1;
      var init, last := groups[..m], groups[m].key;
      assert KeysOf(groups) == KeysOf(init) + [last];
      RankedBefore(KeysOf(init), last, rank, n);
      SummariesAreRanked(init, rank, rank(last));
      RankedWith(Timestamps(Summaries(init)), last, rank, n);
      if Numbers(groups[m].points) != [] {
        assert Timestamps(Summaries(groups)) == Timestamps(Summaries(init)) + [last];
      }
    }
  }

  lemma NothingIsRanked(rank: int -> int, n: int)
    ensures Ranked([], rank, n)
  {
  }

  lemma RankedBefore(keys: seq<int>, last: int, rank: int -> int, n: int)
    requires Ranked(keys + [last], rank, n)
    ensures rank(last) < n && Ranked(keys, rank, rank(last))
  {
    var all := keys + [last];
    assert all[|keys|] == last && forall i :: 0 <= i < |keys| ==> all[i] == keys[i];
  }

  lemma RankedWith(keys: seq<int>, last: int, rank: int -> int, n: int)
    requires Ranked(keys, rank, rank(last)) && rank(last) < n
    ensures Ranked(keys, rank, n) && Ranked(keys + [last], rank, n)
  {
  }
}
