/** Compression of a buffer: repeated values are dropped. */
module Compression {
  import opened Streaming

  /** A point is kept if its value differs from the one before it, or it comes long after. */
  predicate Keeps(previous: Point, current: Point, interval: int) {
    current.value != previous.value || current.timestamp - previous.timestamp > interval * 2
  }

  function Compress(data: seq<Point>, interval: int): (r: seq<Point>)
    ensures |r| <= |data| && (data != [] ==> r != [])
  {
    if |data| <= 1 then data
    else
      var n := |data| - 1;
      var init := Compress(data[..n], interval);
      if Keeps(data[n - 1], data[n], interval) then init + [data[n]] else init
  }

  method CompressData(data: seq<Point>, interval: int) returns (compressed: seq<Point>)
    ensures compressed == Compress(data, interval)
  {
    if |data| <= 1 {
      return data;
    }
    compressed := [data[0]];
    for i := 1 to |data|
      invariant compressed == Compress(data[..i], interval)
    {
      var current, previous := data[i], data[i - 1];
      assert data[..i + 1][..i] == data[..i];
      if Keeps(previous, current, interval) {
        compressed := compressed + [current];
      }
    }
    assert data[..|data|] == data;
  }

  // What is kept.

  /** The positions of the points that are kept. */
  ghost function Kept(data: seq<Point>, interval: int): (idx: seq<nat>)
    ensures forall k :: 0 <= k < |idx| ==> idx[k] < |data|
  {
    if data == [] then []
    else
      var n := |data| - 1;
      if n == 0 || data[n].value != data[n - 1].value || data[n].timestamp - data[n - 1].timestamp > 2 * interval
      then Kept(data[..n], interval) + [n]
      else Kept(data[..n], interval)
  }

  /** The compressed buffer holds, in their order, exactly the first point, the points whose value
      differs from the one before, and those more than two intervals after it. */
  lemma {:induction false} KeptExactly(data: seq<Point>, interval: int, i: nat)
    requires i < |data|
    ensures var idx, r := Kept(data, interval), Compress(data, interval);
            && |r| == |idx| && (forall k :: 0 <= k < |r| ==> r[k] == data[idx[k]])
            && (forall a, b :: 0 <= a < b < |idx| ==> idx[a] < idx[b])
            && (i in idx <==> i == 0 || data[i].value != data[i - 1].value ||
                              data[i].timestamp - data[i - 1].timestamp > 2 * interval)
  {
    KeptArePoints(data, interval);
    KeptInOrder(data, interval, i);
  }

  lemma {:induction false} KeptArePoints(data: seq<Point>, interval: int)
    ensures var idx, r := Kept(data, interval), Compress(data, interval);
            |r| == |idx| && forall k :: 0 <= k < |r| ==> r[k] == data[idx[k]]
  {
    if |data| > 1 {
      KeptArePoints(data[..|data| - 1], interval);
    }
  }

  lemma {:induction false} KeptInOrder(data: seq<Point>, interval: int, i: nat)
    requires i < |data|
    ensures var idx := Kept(data, interval);
            && (forall a, b :: 0 <= a < b < |idx| ==> idx[a] < idx[b])
            && (i in idx <==> i == 0 || data[i].value != data[i - 1].value ||
                              data[i].timestamp - data[i - 1].timestamp > 2 * interval)
  {
    var n := |data| - 1;
    if n > 0 {
      KeptInOrder(data[..n], interval, if i < n then i else 0);
    }
  }

  // Nothing is lost.

  ghost predicate InOrder(data: seq<Point>) {
    forall i, j :: 0 <= i < j < |data| ==> data[i].timestamp <= data[j].timestamp
  }

  function Last(data: seq<Point>): Point
    requires data != []
  {
    data[|data| - 1]
  }

  lemma CompressOneMore(data: seq<Point>, p: Point, interval: int)
    requires data != []
    ensures Compress(data + [p], interval) ==
            if Keeps(Last(data), p, interval) then Compress(data, interval) + [p] else Compress(data, interval)
  {
    assert (data + [p])[..|data|] == data;
  }

  /** Carrying the last kept value forward recovers every original value: at each position of
      any buffer, the last point kept so far has the value of the original point there. */
  lemma {:induction false} LastKeptHasTheValue(data: seq<Point>, interval: int, i: nat)
    requires i < |data|
    ensures Last(Compress(data[..i + 1], interval)).value == data[i].value
    ensures Compress(data[..i + 1], interval) <= Compress(data, interval)
  {
    if i > 0 {
      LastKeptHasTheValue(data, interval, i - 1);
      assert data[..i + 1] == data[..i] + [data[i]];
      CompressOneMore(data[..i], data[i], interval);
    }
    CompressIsPrefix(data, interval, i + 1);
  }

  lemma {:induction false} CompressIsPrefix(data: seq<Point>, interval: int, k: nat)
    requires k <= |data|
    ensures Compress(data[..k], interval) <= Compress(data, interval)
    decreases |data|
  {
    if k == |data| {
      assert data[..k] == data;
    } else if |data| > 1 {
      var n := |data| - 1;
      CompressIsPrefix(data[..n], interval, k);
      assert data[..n][..k] == data[..k];
    }
  }

  datatype Reading = Nothing | Reading(value: Value)

  /** What a chart shows at time `t`: the value of the last point not after `t`. */
  function ValueAt(data: seq<Point>, t: int): Reading {
    if data == [] then Nothing
    else if Last(data).timestamp <= t then Reading(Last(data).value)
    else ValueAt(data[..|data| - 1], t)
  }

  lemma {:induction false} KeptPoints(data: seq<Point>, interval: int, p: Point)
    requires p in Compress(data, interval)
    ensures p in data
  {
    if |data| > 1 {
      var n := |data| - 1;
      if p in Compress(data[..n], interval) {
        KeptPoints(data[..n], interval, p);
      }
    }
  }

  /** The last kept point is not later than the last point. */
  lemma LastKeptIsNoLater(data: seq<Point>, interval: int)
    requires data != [] && InOrder(data)
    ensures Last(Compress(data, interval)).timestamp <= Last(data).timestamp
  {
    var p := Last(Compress(data, interval));
    KeptPoints(data, interval, p);
    var i :| 0 <= i < |data| && data[i] == p;
  }

  lemma ValueAtOneMore(data: seq<Point>, p: Point, t: int)
    ensures ValueAt(data + [p], t) == if p.timestamp <= t then Reading(p.value) else ValueAt(data, t)
  {
    assert (data + [p])[..|data|] == data;
  }

  /** For points in time order, compression changes the shown value at no time. */
  lemma {:induction false} CompressionIsLossless(data: seq<Point>, interval: int, t: int)
    requires InOrder(data)
    ensures ValueAt(Compress(data, interval), t) == ValueAt(data, t)
  {
    if |data| > 1 {
      var n := |data| - 1;
      var before, p := data[..n], data[n];
      var init := Compress(before, interval);
      CompressionIsLossless(before, interval, t);
      assert data == before + [p];
      ValueAtOneMore(before, p, t);
      ValueAtOneMore(init, p, t);
      CompressOneMore(before, p, interval);
      LastKeptIsNoLater(before, interval);
      LastKeptHasTheValue(before, interval, n - 1);
      assert before[..n] == before;
    }
  }

  /** A point kept against its predecessor is also kept against the last kept point. */
  lemma KeptAgainstLastKept(data: seq<Point>, interval: int, p: Point)
    requires data != [] && InOrder(data) && Keeps(Last(data), p, interval)
    ensures Keeps(Last(Compress(data, interval)), p, interval)
  {
    LastKeptIsNoLater(data, interval);
    LastKeptHasTheValue(data, interval, |data| - 1);
    assert data[..|data|] == data;
  }

  /** For points in time order, compressing twice is compressing once. */
  lemma {:induction false} CompressionIsIdempotent(data: seq<Point>, interval: int)
    requires InOrder(data)
    ensures Compress(Compress(data, interval), interval) == Compress(data, interval)
  {
    if |data| > 1 {
      var n := |data| - 1;
      var init := Compress(data[..n], interval);
      CompressionIsIdempotent(data[..n], interval);
      if Keeps(data[n - 1], data[n], interval) {
        KeptAgainstLastKept(data[..n], interval, data[n]);
        CompressOneMore(init, data[n], interval);
      }
    }
  }
}
