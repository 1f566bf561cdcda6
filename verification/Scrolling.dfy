/** Which rows of a long list are rendered: the chart engine's virtualisation, its worker and
    the scroll windows of the web library. Rows have one height; positions are reals. */
module Scrolling {
  import opened JsArrays
  import opened RealFacts

  function Ceil(q: real): int { -(-q).Floor }

  function MaxInt(a: int, b: int): int { if a < b then b else a }
  function MinInt(a: int, b: int): int { if a < b then a else b }

  /** Row `i` shows between `top` and `top + height`. */
  predicate Overlaps(i: int, rowHeight: real, top: real, height: real) {
    i as real * rowHeight < top + height && (i + 1) as real * rowHeight > top
  }

  datatype Window = Window(start: int, end: int)

  /** First and last row of the scroll window; the last is included. */
  function ScrollWindow(total: nat, top: real, rowHeight: real, height: real, overscan: int): Window
    requires rowHeight > 0.0
  {
    var start := MaxInt(0, (top / rowHeight).Floor - overscan);
    Window(start, MinInt(total - 1, start + Ceil(height / rowHeight) + overscan * 2))
  }

  datatype Virtualized<T> = Virtualized(items: seq<T>, totalHeight: real, start: int, end: int)

  function BufferedWindow(total: nat, top: real, rowHeight: real, height: real, overscan: int, buffer: int): Window
    requires rowHeight > 0.0
  {
    var start := MaxInt(0, (top / rowHeight).Floor - overscan);
    var end := MinInt(total - 1, Ceil((top + height) / rowHeight) + overscan);
    Window(MaxInt(0, start - buffer), MinInt(total - 1, end + buffer))
  }

  function VirtualizeData<T>(data: seq<T>, enabled: bool, top: real, rowHeight: real, height: real,
                             overscan: int, buffer: int): Virtualized<T>
    requires rowHeight > 0.0
  {
    if !enabled then Virtualized(data, |data| as real * rowHeight, 0, |data| - 1)
    else
      var w := BufferedWindow(|data|, top, rowHeight, height, overscan, buffer);
      Virtualized(Slice(data, w.start, w.end + 1), |data| as real * rowHeight, w.start, w.end)
  }

  /** The worker's first row and the row after its last. */
  function WorkerWindow(top: real, rowHeight: real, height: real): Window
    requires rowHeight > 0.0
  {
    Window((top / rowHeight).Floor, Ceil((top + height) / rowHeight))
  }

  // Quotients and whole rows.

  lemma BelowQuotient(i: int, rowHeight: real, y: real)
    requires rowHeight > 0.0
    ensures i as real * rowHeight < y <==> i as real < y / rowHeight
    ensures i as real * rowHeight > y <==> i as real > y / rowHeight
  {
    Compare(i as real, rowHeight, y / rowHeight, y);
  }

  lemma Compare(a: real, h: real, q: real, y: real)
    requires h > 0.0 && q * h == y
    ensures (a * h < y <==> a < q) && (a * h > y <==> a > q)
  {
    if a < q {
      var k := PositiveProduct(q - a, h);
    } else if a > q {
      var k := PositiveProduct(a - q, h);
    }
  }

  lemma FloorAndCeil(i: int, q: real)
    ensures i >= q.Floor <==> (i + 1) as real > q
    ensures i < Ceil(q) <==> (i as real) < q
  {
  }

  /** The rows that show are exactly the rows from the floor to the ceiling. */
  lemma OverlapsBetween(i: int, rowHeight: real, top: real, height: real)
    requires rowHeight > 0.0
    ensures Overlaps(i, rowHeight, top, height) <==>
            (top / rowHeight).Floor <= i < Ceil((top + height) / rowHeight)
  {
    BelowQuotient(i, rowHeight, top + height);
    BelowQuotient(i + 1, rowHeight, top);
    FloorAndCeil(i, top / rowHeight);
    FloorAndCeil(i, (top + height) / rowHeight);
  }

  /** The ceiling of a sum against the parts. */
  lemma CeilOfSum(top: real, height: real, rowHeight: real)
    requires rowHeight > 0.0
    ensures Ceil((top + height) / rowHeight) <= (top / rowHeight).Floor + Ceil(height / rowHeight) + 1
    ensures height >= 0.0 ==> (top / rowHeight).Floor <= Ceil((top + height) / rowHeight) && 0 <= Ceil(height / rowHeight)
  {
    QuotientOfSum(top, height, rowHeight);
    BelowQuotient(0, rowHeight, height);
    var p, q := top / rowHeight, height / rowHeight;
    FloorAndCeil(p.Floor, p);
    assert q <= Ceil(q) as real;
    FloorAndCeil(p.Floor + Ceil(q) + 1, p + q);
  }

  // What the windows guarantee.

  /** Every row that shows is in the scroll window, of whatever length the list is. */
  lemma ScrollWindowCovers(total: nat, top: real, rowHeight: real, height: real, overscan: nat, i: nat)
    requires rowHeight > 0.0 && i < total && Overlaps(i, rowHeight, top, height)
    ensures var w := ScrollWindow(total, top, rowHeight, height, overscan); w.start <= i <= w.end
  {
    hide Overlaps, Ceil;
    OverlapsBetween(i, rowHeight, top, height);
    CeilOfSum(top, height, rowHeight);
  }

  /** The scroll window holds a number of rows that does not depend on the length of the list,
      and it is not empty exactly when the list reaches its first row. */
  lemma ScrollWindowIsSmall(total: nat, top: real, rowHeight: real, height: real, overscan: nat)
    requires rowHeight > 0.0 && height >= 0.0
    ensures var w := ScrollWindow(total, top, rowHeight, height, overscan);
            && w.end - w.start + 1 <= Ceil(height / rowHeight) + 2 * overscan + 1
            && (w.end - w.start + 1 > 0 <==> w.start < total)
  {
    hide Ceil;
    CeilOfSum(top, height, rowHeight);
  }

  /** The scroll window begins `overscan` rows before the row at the top of the viewport, or with
      the first row, and every row within `overscan` rows of one that shows is in it. */
  lemma ScrollWindowOverscans(total: nat, top: real, rowHeight: real, height: real, overscan: nat, i: int, j: int)
    requires rowHeight > 0.0
    ensures var w := ScrollWindow(total, top, rowHeight, height, overscan);
            && w.start >= 0 && w.end < total
            && (w.start > 0 ==>
                (w.start + overscan) as real * rowHeight <= top < (w.start + overscan + 1) as real * rowHeight)
            && (w.start == 0 ==> top < (overscan + 1) as real * rowHeight)
            && (0 <= j < total && j - overscan <= i <= j + overscan && Overlaps(i, rowHeight, top, height) ==>
                w.start <= j <= w.end)
  {
    hide Overlaps, Ceil;
    var w := ScrollWindow(total, top, rowHeight, height, overscan);
    RowAtTop(top, rowHeight, w.start + overscan);
    CeilOfSum(top, height, rowHeight);
    OverlapsBetween(i, rowHeight, top, height);
  }

  /** A row is at or after the one at the top of the viewport exactly when it ends below the top. */
  lemma RowAtTop(top: real, rowHeight: real, i: int)
    requires rowHeight > 0.0
    ensures i as real * rowHeight <= top <==> i <= (top / rowHeight).Floor
    ensures top < (i + 1) as real * rowHeight <==> (top / rowHeight).Floor <= i
  {
    BelowQuotient(i, rowHeight, top);
    BelowQuotient(i + 1, rowHeight, top);
    FloorAndCeil(i, top / rowHeight);
  }

  /** Every row that shows is in the engine's window. */
  lemma BufferedWindowCovers(total: nat, top: real, rowHeight: real, height: real, overscan: nat, buffer: nat, i: nat)
    requires rowHeight > 0.0 && i < total && Overlaps(i, rowHeight, top, height)
    ensures var w := BufferedWindow(total, top, rowHeight, height, overscan, buffer); w.start <= i <= w.end
  {
    hide Overlaps, Ceil;
    OverlapsBetween(i, rowHeight, top, height);
  }

  /** The engine's window begins `overscan` and `buffer` rows before the row at the top, or with
      the first row, and every row within that many rows of one that shows is in it. */
  lemma BufferedWindowOverscans(total: nat, top: real, rowHeight: real, height: real, overscan: nat, buffer: nat,
                                i: int, j: int)
    requires rowHeight > 0.0
    ensures var w, more := BufferedWindow(total, top, rowHeight, height, overscan, buffer), overscan + buffer;
            && w.start >= 0 && w.end < total
            && (w.start > 0 ==> (w.start + more) as real * rowHeight <= top < (w.start + more + 1) as real * rowHeight)
            && (w.start == 0 ==> top < (more + 1) as real * rowHeight)
            && (0 <= j < total && j - more <= i <= j + more && Overlaps(i, rowHeight, top, height) ==>
                w.start <= j <= w.end)
  {
    hide Overlaps, Ceil;
    var w, more := BufferedWindow(total, top, rowHeight, height, overscan, buffer), overscan + buffer;
    RowAtTop(top, rowHeight, w.start + more);
    OverlapsBetween(i, rowHeight, top, height);
  }

  /** The row after the last, before it is cut at the end of the list. */
  function BufferedEnd(top: real, rowHeight: real, height: real, overscan: int, buffer: int): int
    requires rowHeight > 0.0
  {
    Ceil((top + height) / rowHeight) + overscan + buffer + 1
  }

  lemma BufferedWindowIs(total: nat, top: real, rowHeight: real, height: real, overscan: nat, buffer: nat)
    requires rowHeight > 0.0
    ensures BufferedWindow(total, top, rowHeight, height, overscan, buffer) ==
            Window(MaxInt(0, (top / rowHeight).Floor - overscan - buffer),
                   MinInt(total, BufferedEnd(top, rowHeight, height, overscan, buffer)) - 1)
  {
  }

  /** The returned items are the rows of the window, unless the viewport ends so far above the
      list that the end of the slice is negative and counts rows from the back. */
  lemma ItemsAreWindow<T>(data: seq<T>, top: real, rowHeight: real, height: real, overscan: nat, buffer: nat)
    requires rowHeight > 0.0
    ensures var v := VirtualizeData(data, true, top, rowHeight, height, overscan, buffer);
            v.items == Range(data, v.start, v.end + 1) <==>
            CountsFromFront(|data|, v.start, BufferedEnd(top, rowHeight, height, overscan, buffer))
  {
    hide BufferedEnd, BufferedWindow;
    var w := BufferedWindow(|data|, top, rowHeight, height, overscan, buffer);
    BufferedWindowIs(|data|, top, rowHeight, height, overscan, buffer);
    SliceIsRange(data, w.start, w.end + 1);
  }

  /** For every viewport, the engine returns every row that shows, at its place. */
  lemma VirtualizedShowsEverything<T>(data: seq<T>, top: real, rowHeight: real, height: real,
                                      overscan: nat, buffer: nat)
    requires rowHeight > 0.0
    ensures var v := VirtualizeData(data, true, top, rowHeight, height, overscan, buffer);
            forall i :: 0 <= i < |data| && Overlaps(i, rowHeight, top, height) ==>
              0 <= i - v.start < |v.items| && v.items[i - v.start] == data[i]
  {
    hide Overlaps, BufferedEnd, BufferedWindow, Range;
    var v := VirtualizeData(data, true, top, rowHeight, height, overscan, buffer);
    BufferedWindowIs(|data|, top, rowHeight, height, overscan, buffer);
    ItemsAreWindow(data, top, rowHeight, height, overscan, buffer);
    forall i | 0 <= i < |data| && Overlaps(i, rowHeight, top, height)
      ensures 0 <= i - v.start < |v.items| && v.items[i - v.start] == data[i]
    {
      BufferedWindowCovers(|data|, top, rowHeight, height, overscan, buffer, i);
      RangeAt(data, v.start, v.end + 1, i);
    }
  }

  /** The scrolled height ends where the last row does, and without virtualisation all rows are
      returned. */
  lemma WholeListWithout<T>(data: seq<T>, enabled: bool, top: real, rowHeight: real, height: real,
                            overscan: int, buffer: int)
    requires rowHeight > 0.0
    ensures var v := VirtualizeData(data, enabled, top, rowHeight, height, overscan, buffer);
            && v.totalHeight == |data| as real * rowHeight
            && (!enabled ==> v.items == data && v.start == 0 && v.end == |data| - 1)
  {
    hide BufferedWindow;
  }

  /** It returns a number of rows that does not depend on the data, unless the end of the slice
      counts from the back. */
  lemma VirtualizedIsSmall<T>(data: seq<T>, top: real, rowHeight: real, height: real, overscan: nat, buffer: nat)
    requires rowHeight > 0.0
    ensures var v := VirtualizeData(data, true, top, rowHeight, height, overscan, buffer);
            CountsFromFront(|data|, v.start, BufferedEnd(top, rowHeight, height, overscan, buffer)) ==>
            v.items == [] || |v.items| <= Ceil(height / rowHeight) + 2 * overscan + 2 * buffer + 2
  {
    hide Ceil, BufferedWindow, Range;
    var v := VirtualizeData(data, true, top, rowHeight, height, overscan, buffer);
    BufferedWindowIs(|data|, top, rowHeight, height, overscan, buffer);
    ItemsAreWindow(data, top, rowHeight, height, overscan, buffer);
    RangeLength(data, v.start, v.end + 1);
    CeilOfSum(top, height, rowHeight);
  }

  /** Otherwise it returns rows that do not show, and more of them the longer the list is. */
  lemma RowsFromTheBack<T>(data: seq<T>, top: real, rowHeight: real, height: real, overscan: nat, buffer: nat)
    requires rowHeight > 0.0
    ensures var v := VirtualizeData(data, true, top, rowHeight, height, overscan, buffer);
            var end := BufferedEnd(top, rowHeight, height, overscan, buffer);
            !CountsFromFront(|data|, v.start, end) ==>
            && |v.items| == |data| + end - v.start > 0
            && forall i :: 0 <= i < |data| ==> !Overlaps(i, rowHeight, top, height)
  {
    hide Overlaps, BufferedEnd, BufferedWindow;
    var v := VirtualizeData(data, true, top, rowHeight, height, overscan, buffer);
    BufferedWindowIs(|data|, top, rowHeight, height, overscan, buffer);
    forall i | 0 <= i < |data| && Overlaps(i, rowHeight, top, height)
      ensures v.start <= i <= v.end
    {
      BufferedWindowCovers(|data|, top, rowHeight, height, overscan, buffer, i);
    }
  }

  /** The rows the worker means to return are exactly the rows that show, and its slice holds
      them exactly when no bound counts from the back. */
  lemma WorkerShowsExactly<T>(data: seq<T>, top: real, rowHeight: real, height: real)
    requires rowHeight > 0.0
    ensures var w := WorkerWindow(top, rowHeight, height);
            && (forall i :: w.start <= i < w.end <==> Overlaps(i, rowHeight, top, height))
            && (Slice(data, w.start, w.end) == Range(data, w.start, w.end) <==>
                CountsFromFront(|data|, w.start, w.end))
  {
    hide Overlaps, Ceil;
    var w := WorkerWindow(top, rowHeight, height);
    SliceIsRange(data, w.start, w.end);
    forall i
      ensures w.start <= i < w.end <==> Overlaps(i, rowHeight, top, height)
    {
      OverlapsBetween(i, rowHeight, top, height);
    }
  }

  /** Which holds for every viewport that does not start above the list. */
  lemma WorkerBelowTheTop(n: nat, top: real, rowHeight: real, height: real)
    requires rowHeight > 0.0 && top >= 0.0 && height >= 0.0
    ensures var w := WorkerWindow(top, rowHeight, height); CountsFromFront(n, w.start, w.end)
  {
    hide Ceil;
    CeilOfSum(top, height, rowHeight);
    BelowQuotient(0, rowHeight, top);
    FloorAndCeil(-1, top / rowHeight);
  }

  /** A viewport that starts one row above a list of three and ends inside it: the first row
      shows, and the worker returns nothing. */
  lemma WorkerAboveTheList(a: int, b: int, c: int)
    ensures var w := WorkerWindow(-1.0, 1.0, 2.0);
            Overlaps(0, 1.0, -1.0, 2.0) && Slice([a, b, c], w.start, w.end) == []
  {
    assert (-1.0 / 1.0).Floor == -1;
    assert Ceil((-1.0 + 2.0) / 1.0) == 1;
  }

  /** A viewport of one row, two rows above a list of three, without overscan: the engine
      returns the first two rows, though none shows. */
  lemma ViewportAboveTheList(a: int, b: int, c: int)
    ensures VirtualizeData([a, b, c], true, -3.0, 1.0, 1.0, 0, 0).items == [a, b]
    ensures forall i :: 0 <= i < 3 ==> !Overlaps(i, 1.0, -3.0, 1.0)
  {
    assert (-3.0 / 1.0).Floor == -3;
    assert Ceil((-3.0 + 1.0) / 1.0) == -2;
  }
}
