/** The fixed-window rate limiter of the API middleware, with its background sweep. */
module RateLimiter {
  const LIMIT := 100
  const WINDOW := 60 * 1000

  datatype Entry = Entry(count: int, resetTime: int)
  datatype Answer = Answer(allowed: bool, remaining: int, resetTime: int)
  datatype Outcome = Outcome(store: Store, answer: Answer)
  type Store = map<string, Entry>

  function Check(store: Store, key: string, now: int): Outcome {
    if key !in store || now > store[key].resetTime then
      Outcome(store[key := Entry(1, now + WINDOW)], Answer(true, LIMIT - 1, now + WINDOW))
    else
      var current := store[key];
      if current.count >= LIMIT then
        Outcome(store, Answer(false, 0, current.resetTime))
      else
        var next := current.(count := current.count + 1);
        Outcome(store[key := next], Answer(true, LIMIT - next.count, current.resetTime))
  }

  function Sweep(store: Store, now: int): Store {
    map k | k in store && now <= store[k].resetTime :: store[k]
  }

  class Limiter {
    var store: Store

    constructor ()
      ensures store == map[]
    {
      store := map[];
    }

    method RateLimitCheck(key: string, now: int) returns (answer: Answer)
      modifies this
      ensures Outcome(store, answer) == Check(old(store), key, now)
    {
      if key !in store || now > store[key].resetTime {
        store := store[key := Entry(1, now + WINDOW)];
        return Answer(true, LIMIT - 1, now + WINDOW);
      }
      var current := store[key];
      if current.count >= LIMIT {
        return Answer(false, 0, current.resetTime);
      }
      current := current.(count := current.count + 1);
      store := store[key := current];
      answer := Answer(true, LIMIT - current.count, current.resetTime);
    }

    method CleanupRateLimitStore(now: int)
      modifies this
      ensures store == Sweep(old(store), now)
    {
      var pending := store.Keys;
      while pending != {}
        invariant pending <= store.Keys <= old(store).Keys
        invariant forall k :: k in store ==> store[k] == old(store)[k]
        invariant forall k :: k in store && k !in pending ==> now <= store[k].resetTime
        invariant forall k :: k in old(store) && k !in store ==> now > old(store)[k].resetTime
      {
        var key :| key in pending;
        if now > store[key].resetTime {
          store := store - {key};
        }
        pending := pending - {key};
      }
    }
  }

  // Runs: requests and sweeps in any order, on a clock that never goes back.

  datatype Event = Request(key: string, now: int) | Cleanup(now: int)
  datatype Served = Served(key: string, now: int, answer: Answer)
  datatype State = State(store: Store, log: seq<Served>)

  ghost predicate ClockNonDecreasing(events: seq<Event>) {
    forall i, j :: 0 <= i < j < |events| ==> events[i].now <= events[j].now
  }

  function Step(s: State, e: Event): State {
    match e
    case Request(key, now) =>
      var o := Check(s.store, key, now);
      State(o.store, s.log + [Served(key, now, o.answer)])
    case Cleanup(now) => State(Sweep(s.store, now), s.log)
  }

  function Run(events: seq<Event>): State {
    if events == [] then State(map[], [])
    else Step(Run(events[..|events| - 1]), events[|events| - 1])
  }

  function RequestsOnly(events: seq<Event>): (r: seq<Event>)
    ensures forall i :: 0 <= i < |r| ==> r[i] in events
  {
    if events == [] then []
    else
      var rest, e := RequestsOnly(events[..|events| - 1]), events[|events| - 1];
      if e.Request? then rest + [e] else rest
  }

  /** The swept store differs from the unswept one only in entries that expired before `now`. */
  ghost predicate AgreeUpToExpired(swept: Store, full: Store, now: int) {
    && (forall k :: k in swept ==> k in full && swept[k] == full[k])
    && (forall k :: k in full && k !in swept ==> now > full[k].resetTime)
  }

  /** One request is answered alike by the two stores, and they still agree afterwards. */
  lemma CheckIgnoresExpired(swept: Store, full: Store, key: string, now: int)
    requires AgreeUpToExpired(swept, full, now)
    ensures Check(swept, key, now).answer == Check(full, key, now).answer
    ensures AgreeUpToExpired(Check(swept, key, now).store, Check(full, key, now).store, now)
  {
  }

  /** The sweep never shows: every answer is the one an unswept store gives. */
  lemma {:induction false} SweepIsInvisible(events: seq<Event>)
    requires ClockNonDecreasing(events)
    ensures Run(events).log == Run(RequestsOnly(events)).log
    ensures events != [] ==>
              AgreeUpToExpired(Run(events).store, Run(RequestsOnly(events)).store, events[|events| - 1].now)
  {
    if events != [] {
      var n := |events| - 1;
      var init, e := events[..n], events[n];
      SweepIsInvisible(init);
      assert n > 0 ==> init[n - 1].now <= e.now;
      var swept, full := Run(init), Run(RequestsOnly(init));
      if e.Request? {
        CheckIgnoresExpired(swept.store, full.store, e.key, e.now);
        assert RequestsOnly(events)[..|RequestsOnly(events)| - 1] == RequestsOnly(init);
      }
    }
  }

  // Admission bounds.

  /** Requests of `key` admitted at `lo` or later. */
  function AdmittedSince(log: seq<Served>, key: string, lo: int): nat {
    if log == [] then 0
    else
      var s := log[|log| - 1];
      AdmittedSince(log[..|log| - 1], key, lo) + if s.key == key && s.answer.allowed && lo <= s.now then 1 else 0
  }

  /** Requests of `key` admitted within [lo, hi]. */
  function AdmittedWithin(log: seq<Served>, key: string, lo: int, hi: int): nat {
    if log == [] then 0
    else
      var s := log[|log| - 1];
      AdmittedWithin(log[..|log| - 1], key, lo, hi) +
      if s.key == key && s.answer.allowed && lo <= s.now <= hi then 1 else 0
  }

  /** Requests of `key` admitted into the window that ends at `reset`. */
  function AdmittedInWindow(log: seq<Served>, key: string, reset: int): nat {
    if log == [] then 0
    else
      var s := log[|log| - 1];
      AdmittedInWindow(log[..|log| - 1], key, reset) +
      if s.key == key && s.answer.allowed && s.answer.resetTime == reset then 1 else 0
  }

  /** Windows of one key start at least this far apart. */
  const PERIOD := WINDOW + 1

  /** The most admissions that can lie within the `x` milliseconds before a window starts: all
      of each whole period, and all but the first of one that is cut. */
  function Older(x: int): nat {
    if x <= 0 then 0 else LIMIT * (x / PERIOD) + if x % PERIOD == 0 then 0 else LIMIT - 1
  }

  lemma OlderUnfolds(x: int)
    ensures Older(x) == if x <= 0 then 0 else if x < PERIOD then LIMIT - 1 else LIMIT + Older(x - PERIOD)
  {
    if x >= PERIOD {
      assert (x - PERIOD) / PERIOD == x / PERIOD - 1 && (x - PERIOD) % PERIOD == x % PERIOD;
    }
  }

  lemma {:induction false} OlderGrows(x: int, y: int)
    requires x <= y
    ensures Older(x) <= Older(y)
    decreases y
  {
    hide Older;
    OlderUnfolds(x);
    OlderUnfolds(y);
    if PERIOD <= y {
      OlderGrows(x - PERIOD, y - PERIOD);
    }
  }

  /** The most admissions of one key that a closed span of `d` milliseconds can hold. */
  function SpanBound(d: int): nat {
    if d < 0 then 0 else 100 * (d / 60001 + 1) + if d % 60001 == 0 then 0 else 99
  }

  lemma SpanBoundIs(d: int)
    ensures SpanBound(d) == if d < 0 then 0 else LIMIT + Older(d)
  {
  }

  /** What a key's entry says about the log, when no sweep ran: nothing was admitted after its
      window, at most the requests it counts since the window started, the first of which came
      at the start, and at most as many before the start as the windows before can hold. */
  ghost predicate EntryExplainsLog(s: State, key: string, now: int) {
    if key !in s.store then
      forall lo :: AdmittedSince(s.log, key, lo) == 0
    else
      var e := s.store[key];
      var start := e.resetTime - WINDOW;
      && 1 <= e.count <= LIMIT && start <= now
      && (forall lo :: lo > e.resetTime ==> AdmittedSince(s.log, key, lo) == 0)
      && (forall lo :: lo > start ==> AdmittedSince(s.log, key, lo) <= e.count - 1)
      && (forall lo :: lo <= start ==> AdmittedSince(s.log, key, lo) <= e.count + Older(start - lo))
  }

  lemma AdmittedAfterStep(s: State, key: string, e: Event, lo: int)
    requires e.Request?
    ensures var s' := Step(s, e);
            |s'.log| == |s.log| + 1 && s'.log[..|s.log|] == s.log &&
            AdmittedSince(s'.log, key, lo) == AdmittedSince(s.log, key, lo) +
              if e.key == key && s'.log[|s.log|].answer.allowed && lo <= e.now then 1 else 0
  {
    assert Step(s, e).log[..|s.log|] == s.log;
  }

  /** Everything admitted before a new window fits before its start. */
  lemma OlderHoldsTheLog(s: State, key: string, was: int, start: int, lo: int)
    requires EntryExplainsLog(s, key, was) && (key in s.store ==> s.store[key].resetTime < start)
    ensures AdmittedSince(s.log, key, lo) <= Older(start - lo)
  {
    hide AdmittedSince, Older;
    OlderUnfolds(start - lo);
    if key in s.store {
      OlderGrows(s.store[key].resetTime - WINDOW - lo, start - lo - PERIOD);
    }
  }

  lemma StepKeepsExplanation(s: State, key: string, was: int, e: Event)
    requires EntryExplainsLog(s, key, was) && was <= e.now && e.Request?
    ensures EntryExplainsLog(Step(s, e), key, e.now)
  {
    hide AdmittedSince, Older;
    forall lo
      ensures AdmittedSince(Step(s, e).log, key, lo) == AdmittedSince(s.log, key, lo) +
                if e.key == key && Step(s, e).log[|s.log|].answer.allowed && lo <= e.now then 1 else 0
    {
      AdmittedAfterStep(s, key, e, lo);
    }
    if key !in s.store || s.store[key].resetTime < e.now {
      forall lo
        ensures AdmittedSince(s.log, key, lo) <= Older(e.now - lo)
      {
        OlderHoldsTheLog(s, key, was, e.now, lo);
      }
    }
  }

  lemma {:induction false} RunExplained(events: seq<Event>, key: string, now: int)
    requires ClockNonDecreasing(events) && (forall e :: e in events ==> e.Request?)
    requires events != [] ==> events[|events| - 1].now <= now
    ensures EntryExplainsLog(Run(events), key, now)
  {
    if events != [] {
      var n := |events| - 1;
      RunExplained(events[..n], key, events[n].now);
      StepKeepsExplanation(Run(events[..n]), key, events[n].now, events[n]);
    }
  }

  lemma {:induction false} RequestsOnlyKeepsClock(events: seq<Event>)
    requires ClockNonDecreasing(events)
    ensures ClockNonDecreasing(RequestsOnly(events))
    ensures forall e :: e in RequestsOnly(events) ==> e.Request? && e.now <= events[|events| - 1].now
  {
    if events != [] {
      RequestsOnlyKeepsClock(events[..|events| - 1]);
    }
  }

  lemma AdmittedRecently(events: seq<Event>, key: string, lo: int, hi: int)
    requires ClockNonDecreasing(events) && lo <= hi
    requires events != [] ==> events[|events| - 1].now <= hi
    ensures AdmittedSince(Run(events).log, key, lo) <= SpanBound(hi - lo)
  {
    SpanBoundIs(hi - lo);
    hide Run, AdmittedSince, Older, SpanBound;
    SweepIsInvisible(events);
    RequestsOnlyKeepsClock(events);
    var plain := RequestsOnly(events);
    RunExplained(plain, key, hi);
    if key in Run(plain).store {
      OlderGrows(Run(plain).store[key].resetTime - WINDOW - lo, hi - lo);
    }
  }

  lemma {:induction false} WithinIsSinceUpToHi(events: seq<Event>, key: string, lo: int, hi: int)
    requires ClockNonDecreasing(events)
    requires events != [] ==> events[|events| - 1].now <= hi
    ensures AdmittedWithin(Run(events).log, key, lo, hi) == AdmittedSince(Run(events).log, key, lo)
  {
    if events != [] {
      var n := |events| - 1;
      WithinIsSinceUpToHi(events[..n], key, lo, hi);
      var s, s' := Run(events[..n]), Run(events);
      if events[n].Request? {
        assert s'.log[..|s.log|] == s.log;
      }
    }
  }

  /** Over every run, with sweeps anywhere, a closed span admits at most its bound. */
  lemma {:induction false} SpanAdmitsAtMost(events: seq<Event>, key: string, lo: int, hi: int)
    requires ClockNonDecreasing(events)
    ensures AdmittedWithin(Run(events).log, key, lo, hi) <= SpanBound(hi - lo)
  {
    if hi < lo {
      NothingInEmptySpan(Run(events).log, key, lo, hi);
    } else if events != [] {
      var n := |events| - 1;
      if events[n].now <= hi {
        WithinIsSinceUpToHi(events, key, lo, hi);
        AdmittedRecently(events, key, lo, hi);
      } else {
        SpanAdmitsAtMost(events[..n], key, lo, hi);
        var s, s' := Run(events[..n]), Run(events);
        if events[n].Request? {
          assert s'.log[..|s.log|] == s.log;
        }
      }
    }
  }

  lemma {:induction false} NothingInEmptySpan(log: seq<Served>, key: string, lo: int, hi: int)
    requires hi < lo
    ensures AdmittedWithin(log, key, lo, hi) == 0
  {
    if log != [] {
      NothingInEmptySpan(log[..|log| - 1], key, lo, hi);
    }
  }

  // The bound is reached, and a window is used up exactly.

  /** `n` requests of `key` at `now`. */
  function Burst(key: string, now: int, n: nat): seq<Event> {
    seq(n, _ => Request(key, now))
  }

  lemma OneIsAdmitted(s: State, key: string, now: int, lo: int, hi: int)
    requires key in s.store && now <= s.store[key].resetTime && s.store[key].count < LIMIT && lo <= now <= hi
    ensures var s' := Step(s, Request(key, now));
            && key in s'.store && s'.store[key] == s.store[key].(count := s.store[key].count + 1)
            && AdmittedWithin(s'.log, key, lo, hi) == AdmittedWithin(s.log, key, lo, hi) + 1
  {
    var s' := Step(s, Request(key, now));
    assert s'.log[..|s.log|] == s.log;
  }

  /** A burst that the current window has room for is admitted whole. */
  lemma {:induction false} BurstIsAdmitted(events: seq<Event>, key: string, now: int, n: nat, lo: int, hi: int)
    requires key in Run(events).store && now <= Run(events).store[key].resetTime
    requires Run(events).store[key].count + n <= LIMIT && lo <= now <= hi
    ensures var s, s' := Run(events), Run(events + Burst(key, now, n));
            && key in s'.store && s'.store[key] == s.store[key].(count := s.store[key].count + n)
            && AdmittedWithin(s'.log, key, lo, hi) == AdmittedWithin(s.log, key, lo, hi) + n
  {
    hide AdmittedWithin, Step;
    if n == 0 {
      assert events + Burst(key, now, n) == events;
    } else {
      BurstIsAdmitted(events, key, now, n - 1, lo, hi);
      var all, init := events + Burst(key, now, n), events + Burst(key, now, n - 1);
      assert all[..|all| - 1] == init && all[|all| - 1] == Request(key, now);
      OneIsAdmitted(Run(init), key, now, lo, hi);
    }
  }

  lemma WindowOpens(s: State, key: string, now: int, lo: int, hi: int)
    requires (key in s.store ==> s.store[key].resetTime < now) && now <= hi
    ensures var s' := Step(s, Request(key, now));
            && key in s'.store && s'.store[key] == Entry(1, now + WINDOW)
            && AdmittedWithin(s'.log, key, lo, hi) ==
               AdmittedWithin(s.log, key, lo, hi) + if lo <= now then 1 else 0
  {
    var s' := Step(s, Request(key, now));
    assert s'.log[..|s.log|] == s.log;
  }

  /** The events so far happened at `now` or before. */
  ghost predicate UpTo(events: seq<Event>, now: int) {
    ClockNonDecreasing(events) && forall e :: e in events ==> e.now <= now
  }

  /** A request that opens a window, and a burst at `late` within it. */
  lemma FillWindow(events: seq<Event>, key: string, now: int, late: int, lo: int, hi: int)
    returns (all: seq<Event>)
    requires (key in Run(events).store ==> Run(events).store[key].resetTime < now) && UpTo(events, now)
    requires now <= late <= now + WINDOW && lo <= late <= hi
    ensures UpTo(all, late) && key in Run(all).store && Run(all).store[key] == Entry(LIMIT, now + WINDOW)
    ensures AdmittedWithin(Run(all).log, key, lo, hi) ==
            AdmittedWithin(Run(events).log, key, lo, hi) + LIMIT - if lo <= now then 0 else 1
  {
    hide AdmittedWithin, Step, UpTo, Burst;
    var first := events + [Request(key, now)];
    assert first[..|events|] == events;
    WindowOpens(Run(events), key, now, lo, hi);
    all := first + Burst(key, late, LIMIT - 1);
    BurstIsAdmitted(first, key, late, LIMIT - 1, lo, hi);
    UpToWith(events, [Request(key, now)], now, now);
    BurstIsUpTo(key, late, LIMIT - 1);
    UpToWith(first, Burst(key, late, LIMIT - 1), now, late);
  }

  /** All of the events happen at `now`. */
  ghost predicate AllAt(events: seq<Event>, now: int) {
    forall i :: 0 <= i < |events| ==> events[i].now == now
  }

  lemma BurstIsUpTo(key: string, now: int, n: nat)
    ensures AllAt(Burst(key, now, n), now)
  {
  }

  lemma UpToWith(events: seq<Event>, more: seq<Event>, was: int, now: int)
    requires UpTo(events, was) && was <= now && AllAt(more, now)
    ensures UpTo(events + more, now)
  {
    var all := events + more;
    forall i, j | 0 <= i < j < |all|
      ensures all[i].now <= all[j].now
    {
      assert i < |events| ==> events[i] in events;
    }
    forall e | e in all
      ensures e.now <= now
    {
      assert e in events || e in more;
    }
  }

  /** A run that admits as many requests as the bound in the `x` milliseconds up to `t`. */
  lemma {:induction false} SpanReachesBound(key: string, x: nat, t: int, hi: int) returns (events: seq<Event>)
    requires t <= hi
    ensures UpTo(events, t) && key in Run(events).store && Run(events).store[key] == Entry(LIMIT, t + WINDOW)
    ensures AdmittedWithin(Run(events).log, key, t - x, hi) == SpanBound(x)
  {
    SpanBoundIs(x);
    if x >= PERIOD {
      SpanBoundIs(x - PERIOD);
    }
    hide AdmittedWithin, Older, SpanBound;
    OlderUnfolds(x);
    var before: seq<Event> := [];
    NothingInEmptyLog(key, t - x, hi);
    if x >= PERIOD {
      before := SpanReachesBound(key, x - PERIOD, t - PERIOD, hi);
    } else if x > 0 {
      before := FillWindow([], key, t - PERIOD, t - 1, t - x, hi);
    }
    events := FillWindow(before, key, t, t, t - x, hi);
  }

  lemma NothingInEmptyLog(key: string, lo: int, hi: int)
    ensures Run([]) == State(map[], []) && AdmittedWithin([], key, lo, hi) == 0
  {
  }

  /** In every run, every closed span of `d` milliseconds admits at most `bound` requests. */
  ghost predicate SpansAdmitAtMost(d: int, bound: int) {
    forall events, key, lo, hi :: ClockNonDecreasing(events) && hi == lo + d ==>
      AdmittedWithin(Run(events).log, key, lo, hi) <= bound
  }

  /** SpanBound is the least bound there is, for spans of every length. */
  lemma SpanBoundIsExact(d: int, bound: nat)
    ensures SpansAdmitAtMost(d, bound) <==> SpanBound(d) <= bound
  {
    hide Run, AdmittedWithin, Older;
    if SpanBound(d) <= bound {
      forall events, key, lo, hi | ClockNonDecreasing(events) && hi == lo + d
        ensures AdmittedWithin(Run(events).log, key, lo, hi) <= bound
      {
        SpanAdmitsAtMost(events, key, lo, hi);
      }
    } else if d >= 0 {
      var events := SpanReachesBound("", d, d, d);
      assert AdmittedWithin(Run(events).log, "", 0, 0 + d) > bound;
    }
  }

  /** So 100 holds for no span but a single instant: two consecutive milliseconds can already
      admit 199 requests of one key, and so can a whole window. */
  lemma LimitHoldsForInstantsOnly(d: int)
    ensures SpansAdmitAtMost(d, 100) <==> d <= 0
    ensures SpanBound(1) == SpanBound(60000) == 199 && SpanBound(60001) == 200
  {
    SpanBoundIsExact(d, 100);
  }

  /** What a key's entry says about windows: it counts its own, and no later window was opened. */
  ghost predicate EntryCountsWindow(s: State, key: string) {
    if key !in s.store then
      forall reset :: AdmittedInWindow(s.log, key, reset) == 0
    else
      var e := s.store[key];
      && AdmittedInWindow(s.log, key, e.resetTime) == e.count && 1 <= e.count <= LIMIT
      && (forall reset :: reset > e.resetTime ==> AdmittedInWindow(s.log, key, reset) == 0)
      && (forall reset :: AdmittedInWindow(s.log, key, reset) <= LIMIT)
  }

  lemma StepKeepsWindowCount(s: State, key: string, e: Event)
    requires EntryCountsWindow(s, key) && e.Request?
    ensures EntryCountsWindow(Step(s, e), key)
  {
    var s' := Step(s, e);
    assert s'.log[..|s.log|] == s.log;
    var a := s'.log[|s.log|].answer;
    var admitted := e.key == key && a.allowed;
    assert forall reset ::
      (var more := if admitted && reset == a.resetTime then 1 else 0;
       AdmittedInWindow(s'.log, key, reset) == AdmittedInWindow(s.log, key, reset) + more);
  }

  lemma {:induction false} RunCountsWindows(events: seq<Event>, key: string)
    requires forall e :: e in events ==> e.Request?
    ensures EntryCountsWindow(Run(events), key)
  {
    if events != [] {
      var n := |events| - 1;
      RunCountsWindows(events[..n], key);
      StepKeepsWindowCount(Run(events[..n]), key, events[n]);
    }
  }

  /** Over every run, with sweeps anywhere: no window admits more than 100 requests of a key. */
  lemma WindowAdmitsAtMostLimit(events: seq<Event>, key: string, reset: int)
    requires ClockNonDecreasing(events)
    ensures AdmittedInWindow(Run(events).log, key, reset) <= 100
  {
    SweepIsInvisible(events);
    RequestsOnlyKeepsClock(events);
    RunCountsWindows(RequestsOnly(events), key);
  }

  /** An answer is right about its window: it admits exactly while the window has room, and
      reports the room that is left. */
  ghost predicate ReportsRoomLeft(log: seq<Served>, key: string, now: int) {
    && log != [] && log[|log| - 1].key == key
    && var before, a := log[..|log| - 1], log[|log| - 1].answer;
       && now <= a.resetTime <= now + 60000
       && (a.allowed <==> AdmittedInWindow(before, key, a.resetTime) < 100)
       && a.remaining == 100 - AdmittedInWindow(log, key, a.resetTime)
  }

  lemma StepReportsRoomLeft(s: State, key: string, now: int)
    requires EntryCountsWindow(s, key) && EntryExplainsLog(s, key, now)
    ensures ReportsRoomLeft(Step(s, Request(key, now)).log, key, now)
  {
    var log := Step(s, Request(key, now)).log;
    assert log[..|log| - 1] == s.log;
  }

  lemma OneMoreRequest(events: seq<Event>, key: string, now: int)
    requires ClockNonDecreasing(events + [Request(key, now)])
    ensures ClockNonDecreasing(events)
    ensures forall e :: e in RequestsOnly(events) ==> e.now <= now
    ensures Run(RequestsOnly(events + [Request(key, now)])) == Step(Run(RequestsOnly(events)), Request(key, now))
  {
    var all, plain := events + [Request(key, now)], RequestsOnly(events);
    assert all[..|events|] == events;
    assert forall i :: 0 <= i < |events| ==> events[i] == all[i] && all[i].now <= all[|events|].now;
    assert RequestsOnly(all) == plain + [Request(key, now)];
    assert RequestsOnly(all)[..|plain|] == plain;
  }

  /** Over every run, with sweeps anywhere, each answer reports the room left in its window. */
  lemma AnswersReportRoomLeft(events: seq<Event>, key: string, now: int)
    requires ClockNonDecreasing(events + [Request(key, now)])
    ensures ReportsRoomLeft(Run(events + [Request(key, now)]).log, key, now)
  {
    hide *;
    SweepIsInvisible(events + [Request(key, now)]);
    OneMoreRequest(events, key, now);
    RequestsOnlyKeepsClock(events);
    var plain := RequestsOnly(events);
    RunCountsWindows(plain, key);
    RunExplained(plain, key, now);
    StepReportsRoomLeft(Run(plain), key, now);
  }

  // What a sweep leaves.

  /** The largest reset time that was ever answered for the key is the one in the store, and a key
      that is not in the store has none that is still ahead. */
  ghost predicate StoreIsLatest(s: State, key: string, now: int) {
    if key in s.store then
      && (exists i :: 0 <= i < |s.log| && s.log[i].key == key && s.log[i].answer.resetTime == s.store[key].resetTime)
      && (forall i :: 0 <= i < |s.log| && s.log[i].key == key ==> s.log[i].answer.resetTime <= s.store[key].resetTime)
    else
      forall i :: 0 <= i < |s.log| && s.log[i].key == key ==> s.log[i].answer.resetTime < now
  }

  lemma RequestKeepsLatest(s: State, key: string, was: int, e: Event)
    requires StoreIsLatest(s, key, was) && was <= e.now && e.Request?
    ensures StoreIsLatest(Step(s, e), key, e.now)
  {
    var s' := Step(s, e);
    assert forall i :: 0 <= i < |s.log| ==> s'.log[i] == s.log[i];
    if e.key == key {
      assert s'.log[|s.log|].answer.resetTime == s'.store[key].resetTime;
    } else if key in s.store {
      var i :| 0 <= i < |s.log| && s.log[i].key == key && s.log[i].answer.resetTime == s.store[key].resetTime;
      assert s'.log[i].key == key;
    }
  }

  lemma {:induction false} RunKeepsLatest(events: seq<Event>, key: string, now: int)
    requires ClockNonDecreasing(events) && (events != [] ==> events[|events| - 1].now <= now)
    ensures StoreIsLatest(Run(events), key, now)
  {
    if events != [] {
      var n := |events| - 1;
      RunKeepsLatest(events[..n], key, events[n].now);
      if events[n].Request? {
        RequestKeepsLatest(Run(events[..n]), key, events[n].now, events[n]);
      }
    }
  }

  /** Over every run, after a sweep at `now` a key is stored exactly when some request of it was
      answered with a reset time that has not passed, that is, its window is still open. */
  lemma SweepLeavesOpenWindows(events: seq<Event>, key: string, now: int)
    requires ClockNonDecreasing(events + [Cleanup(now)])
    ensures var log := Run(events).log;
            key in Run(events + [Cleanup(now)]).store <==>
            exists i :: 0 <= i < |log| && log[i].key == key && now <= log[i].answer.resetTime
  {
    var all := events + [Cleanup(now)];
    assert all[..|events|] == events;
    assert forall i :: 0 <= i < |events| ==> events[i] == all[i] && all[i].now <= all[|events|].now;
    RunKeepsLatest(events, key, now);
    hide Run;
    SweepOfLatest(Run(events), key, now);
    RunWithSweep(events, now);
  }

  lemma RunWithSweep(events: seq<Event>, now: int)
    ensures Run(events + [Cleanup(now)]).store == Sweep(Run(events).store, now)
  {
    assert (events + [Cleanup(now)])[..|events|] == events;
  }

  lemma SweepOfLatest(s: State, key: string, now: int)
    requires StoreIsLatest(s, key, now)
    ensures key in Sweep(s.store, now) <==>
            exists i :: 0 <= i < |s.log| && s.log[i].key == key && now <= s.log[i].answer.resetTime
  {
  }
}
