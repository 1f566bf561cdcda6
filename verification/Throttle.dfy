/** The throttle helper of the web library: a call runs only if `delay` milliseconds have
    passed since the last call that ran. */
module Throttle {

  /** Call times in the order the calls arrive. */
  ghost predicate NonDecreasing(calls: seq<int>) {
    forall i, j :: 0 <= i < j < |calls| ==> calls[i] <= calls[j]
  }

  /** Indices of the calls that run, in order. */
  function Executions(delay: int, calls: seq<int>): (e: seq<nat>)
    ensures forall k :: 0 <= k < |e| ==> e[k] < |calls|
  {
    if calls == [] then []
    else
      var n := |calls| - 1;
      var before := Executions(delay, calls[..n]);
      if calls[n] - LastRun(delay, calls[..n]) >= delay then before + [n] else before
  }

  /** Time of the most recent call that ran; 0 before any did. */
  function LastRun(delay: int, calls: seq<int>): int {
    if calls == [] then 0
    else
      var n := |calls| - 1;
      var before := LastRun(delay, calls[..n]);
      if calls[n] - before >= delay then calls[n] else before
  }

  class Throttler {
    const delay: int
    var lastCall: int
    ghost var calls: seq<int>

    ghost predicate Valid()
      reads this
    {
      lastCall == LastRun(delay, calls)
    }

    constructor (delay: int)
      ensures Valid() && this.delay == delay && lastCall == 0 && calls == []
    {
      this.delay := delay;
      lastCall := 0;
      calls := [];
    }

    method Call(now: int) returns (executed: bool)
      requires Valid()
      modifies this
      ensures Valid() && calls == old(calls) + [now]
      ensures Executions(delay, calls) == Executions(delay, old(calls)) + if executed then [|old(calls)|] else []
      ensures lastCall == if executed then now else old(lastCall)
    {
      executed := now - lastCall >= delay;
      if executed {
        lastCall := now;
      }
      calls := calls + [now];
      assert calls[..|calls| - 1] == old(calls);
    }
  }

  /** The last run is the last executed call, or 0 when nothing ran yet. */
  lemma {:induction false} LastRunIsLastExecution(delay: int, calls: seq<int>)
    ensures var e := Executions(delay, calls);
            LastRun(delay, calls) == if e == [] then 0 else calls[e[|e| - 1]]
  {
    if calls != [] {
      LastRunIsLastExecution(delay, calls[..|calls| - 1]);
    }
  }

  /** A selection of calls: increasing indices, none before `delay`, neighbours at least `delay` apart. */
  ghost predicate Spaced(delay: int, calls: seq<int>, pick: seq<nat>) {
    && (forall k :: 0 <= k < |pick| ==> pick[k] < |calls|)
    && (forall i, j :: 0 <= i < j < |pick| ==> pick[i] < pick[j])
    && (pick != [] ==> calls[pick[0]] >= delay)
    && (forall k :: 0 < k < |pick| ==> calls[pick[k]] - calls[pick[k - 1]] >= delay)
  }

  /** What runs is well spaced: the executions are themselves a selection. */
  lemma {:induction false} ExecutionsAreSpaced(delay: int, calls: seq<int>)
    ensures Spaced(delay, calls, Executions(delay, calls))
  {
    if calls != [] {
      var init := calls[..|calls| - 1];
      ExecutionsAreSpaced(delay, init);
      LastRunIsLastExecution(delay, init);
    }
  }

  /** With a non-decreasing clock any two executions, not only neighbours, are `delay` apart. */
  lemma ExecutionsAreFarApart(delay: int, calls: seq<int>, i: nat, j: nat)
    requires NonDecreasing(calls)
    requires i < j < |Executions(delay, calls)|
    ensures var e := Executions(delay, calls); calls[e[j]] - calls[e[i]] >= delay
  {
    ExecutionsAreSpaced(delay, calls);
    var e := Executions(delay, calls);
    assert calls[e[i + 1]] - calls[e[i + 1 - 1]] >= delay;
    assert e[i + 1] <= e[j];
  }

  /** A call is dropped exactly when it comes less than `delay` after the last execution before it. */
  lemma {:induction false} DroppedExactlyWhenTooSoon(delay: int, calls: seq<int>, k: nat)
    requires k < |calls|
    ensures k in Executions(delay, calls) <==> calls[k] - LastRun(delay, calls[..k]) >= delay
  {
    var n := |calls| - 1;
    if k < n {
      DroppedExactlyWhenTooSoon(delay, calls[..n], k);
      assert calls[..n][..k] == calls[..k];
    } else if k in Executions(delay, calls[..n]) {
      assert false;
    }
  }

  /** Dropping the last call keeps a selection that does not use it. */
  lemma SpacedWithoutLastCall(delay: int, calls: seq<int>, pick: seq<nat>)
    requires Spaced(delay, calls, pick) && calls != []
    requires pick != [] ==> pick[|pick| - 1] < |calls| - 1
    ensures Spaced(delay, calls[..|calls| - 1], pick)
  {
    assert forall k :: 0 <= k < |pick| ==> pick[k] <= pick[|pick| - 1];
  }

  /** Dropping the last call together with the pick that uses it. */
  lemma SpacedWithoutLastPick(delay: int, calls: seq<int>, pick: seq<nat>)
    requires Spaced(delay, calls, pick) && pick != [] && pick[|pick| - 1] == |calls| - 1
    ensures Spaced(delay, calls[..|calls| - 1], pick[..|pick| - 1])
  {
    assert forall k :: 0 <= k < |pick| - 1 ==> pick[k] < pick[|pick| - 1];
  }

  /** Greedy stays ahead. No selection of the calls that respects the delay is larger than the
      set that ran, and one of the same size ends no earlier. */
  lemma {:induction false} ThrottleIsOptimal(delay: int, calls: seq<int>, pick: seq<nat>)
    requires NonDecreasing(calls) && Spaced(delay, calls, pick)
    ensures |pick| <= |Executions(delay, calls)|
    ensures pick != [] && |pick| == |Executions(delay, calls)| ==> calls[pick[|pick| - 1]] >= LastRun(delay, calls)
  {
    if pick == [] { return; }
    var n, m := |calls| - 1, |pick| - 1;
    var init := calls[..n];
    LastRunIsLastExecution(delay, init);
    if pick[m] < n {
      SpacedWithoutLastCall(delay, calls, pick);
      ThrottleIsOptimal(delay, init, pick);
    } else {
      SpacedWithoutLastPick(delay, calls, pick);
      ThrottleIsOptimal(delay, init, pick[..m]);
      if m > 0 {
        assert calls[pick[m]] - calls[pick[m - 1]] >= delay;
        assert pick[..m][m - 1] == pick[m - 1];
      }
    }
  }
}
