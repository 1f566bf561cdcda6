/** The real-time chart engine: registered charts, their bounded buffers, update timers and
    subscriptions. */
module Streaming {

  datatype Value = Number(n: real) | Text(s: string)
  datatype Point = Point(timestamp: int, value: Value)
  {
    /** A point without a timestamp gets the current time. */
    function Stamped(now: int): Point { if timestamp == 0 then this.(timestamp := now) else this }
  }

  datatype Config = Config(maxDataPoints: int, updateInterval: int)
  datatype Buffer = Buffer(data: seq<Point>, maxSize: int, overflow: bool)
  datatype Subscription = Subscription(id: string, chartId: string)

  /** `running` holds the interval timers that have been started and not cleared. */
  datatype State = State(
    charts: map<string, Config>, buffers: map<string, Buffer>, timers: map<string, nat>,
    subscriptions: map<string, Subscription>, running: set<nat>, nextTimer: nat)

  const INITIAL := State(map[], map[], map[], map[], {}, 0)

  function Push(buffer: Buffer, p: Point): Buffer {
    var data := buffer.data + [p];
    if |data| > buffer.maxSize then
      var excess := |data| - buffer.maxSize;
      buffer.(data := if excess < |data| then data[excess..] else [], overflow := true)
    else
      buffer.(data := data)
  }

  function Register(s: State, id: string, config: Config): State {
    State(s.charts[id := config], s.buffers[id := Buffer([], config.maxDataPoints, false)],
          s.timers[id := s.nextTimer], s.subscriptions,
          (if id in s.timers then s.running - {s.timers[id]} else s.running) + {s.nextTimer}, s.nextTimer + 1)
  }

  function Add(s: State, id: string, p: Point): State {
    if id in s.buffers && id in s.charts then s.(buffers := s.buffers[id := Push(s.buffers[id], p)]) else s
  }

  function Clear(s: State, id: string): State {
    if id in s.buffers then s.(buffers := s.buffers[id := s.buffers[id].(data := [], overflow := false)]) else s
  }

  function Destroy(s: State, id: string): State {
    s.(charts := s.charts - {id}, buffers := s.buffers - {id}, timers := s.timers - {id},
       running := if id in s.timers then s.running - {s.timers[id]} else s.running,
       subscriptions := map k | k in s.subscriptions && s.subscriptions[k].chartId != id :: s.subscriptions[k])
  }

  function Shutdown(s: State): State {
    State(map[], map[], map[], map[], s.running - s.timers.Values, s.nextTimer)
  }

  class Engine {
    var charts: map<string, Config>
    var buffers: map<string, Buffer>
    var timers: map<string, nat>
    var subscriptions: map<string, Subscription>
    var running: set<nat>
    var nextTimer: nat

    function View(): State
      reads this
    {
      State(charts, buffers, timers, subscriptions, running, nextTimer)
    }

    constructor ()
      ensures View() == INITIAL
    {
      charts, buffers, timers, subscriptions, running, nextTimer := map[], map[], map[], map[], {}, 0;
    }

    method ClearInterval(timer: nat)
      modifies this`running
      ensures running == old(running) - {timer}
    {
      running := running - {timer};
    }

    method SetInterval() returns (timer: nat)
      modifies this`running, this`nextTimer
      ensures timer == old(nextTimer) && running == old(running) + {timer} && nextTimer == old(nextTimer) + 1
    {
      timer := nextTimer;
      running, nextTimer := running + {timer}, nextTimer + 1;
    }

    method RegisterChart(id: string, config: Config)
      modifies this
      ensures View() == Register(old(View()), id, config)
    {
      charts := charts[id := config];
      buffers := buffers[id := Buffer([], config.maxDataPoints, false)];
      if id in timers {
        ClearInterval(timers[id]);
      }
      var timer := SetInterval();
      timers := timers[id := timer];
    }

    method Subscribe(subscription: Subscription)
      modifies this`subscriptions
      ensures subscriptions == old(subscriptions)[subscription.id := subscription]
    {
      subscriptions := subscriptions[subscription.id := subscription];
    }

    method Unsubscribe(id: string)
      modifies this`subscriptions
      ensures subscriptions == old(subscriptions) - {id}
    {
      if id in subscriptions {
        subscriptions := subscriptions - {id};
      }
    }

    method AddDataPoint(id: string, p: Point, now: int)
      modifies this`buffers
      ensures View() == Add(old(View()), id, p.Stamped(now))
    {
      if id !in buffers {
        return;
      }
      AddToBuffer(id, p.Stamped(now));
    }

    method AddToBuffer(id: string, p: Point)
      modifies this`buffers
      ensures View() == Add(old(View()), id, p)
    {
      if id !in buffers || id !in charts {
        return;
      }
      var buffer := buffers[id];
      buffer := buffer.(data := buffer.data + [p]);
      if |buffer.data| > buffer.maxSize {
        var excess := |buffer.data| - buffer.maxSize;
        buffer := buffer.(data := if excess < |buffer.data| then buffer.data[excess..] else [], overflow := true);
      }
      buffers := buffers[id := buffer];
    }

    method ClearChartData(id: string)
      modifies this`buffers
      ensures View() == Clear(old(View()), id)
    {
      if id in buffers {
        buffers := buffers[id := buffers[id].(data := [], overflow := false)];
      }
    }

    method DestroyChart(id: string)
      modifies this
      ensures View() == Destroy(old(View()), id)
    {
      if id in timers {
        ClearInterval(timers[id]);
        timers := timers - {id};
      }
      charts, buffers := charts - {id}, buffers - {id};
      var pending := subscriptions.Keys;
      while pending != {}
        invariant charts == old(charts) - {id} && buffers == old(buffers) - {id} && timers == old(timers) - {id}
        invariant running == (if id in old(timers) then old(running) - {old(timers)[id]} else old(running))
        invariant nextTimer == old(nextTimer)
        invariant pending <= subscriptions.Keys <= old(subscriptions).Keys
        invariant forall k :: k in subscriptions ==> subscriptions[k] == old(subscriptions)[k]
        invariant forall k :: k in subscriptions && k !in pending ==> subscriptions[k].chartId != id
        invariant forall k :: k in old(subscriptions) && k !in subscriptions ==> old(subscriptions)[k].chartId == id
      {
        var key :| key in pending;
        if subscriptions[key].chartId == id {
          Unsubscribe(key);
        }
        pending := pending - {key};
      }
    }

    method ShutDown()
      modifies this
      ensures View() == Shutdown(old(View()))
    {
      var pending := timers.Keys;
      while pending != {}
        invariant pending <= timers.Keys && timers == old(timers) && nextTimer == old(nextTimer)
        invariant running == old(running) - (set k | k in timers && k !in pending :: timers[k])
      {
        var key :| key in pending;
        ClearInterval(timers[key]);
        pending := pending - {key};
      }
      assert timers.Values == set k | k in timers :: timers[k];
      timers := map[];
      charts, subscriptions, buffers := map[], map[], map[];
    }
  }

  // Runs.

  datatype Op =
    | DoRegister(id: string, config: Config)
    | DoAdd(id: string, point: Point, now: int)
    | DoClear(id: string)
    | DoDestroy(id: string)
    | DoSubscribe(subscription: Subscription)
    | DoUnsubscribe(key: string)
    | DoShutdown

  function Apply(s: State, op: Op): State {
    match op
    case DoRegister(id, config) => Register(s, id, config)
    case DoAdd(id, p, now) => Add(s, id, p.Stamped(now))
    case DoClear(id) => Clear(s, id)
    case DoDestroy(id) => Destroy(s, id)
    case DoSubscribe(sub) => s.(subscriptions := s.subscriptions[sub.id := sub])
    case DoUnsubscribe(key) => s.(subscriptions := s.subscriptions - {key})
    case DoShutdown => Shutdown(s)
  }

  function Run(ops: seq<Op>): State {
    if ops == [] then INITIAL else Apply(Run(ops[..|ops| - 1]), ops[|ops| - 1])
  }

  // What a run means for one chart, read off the operations alone.

  datatype Life = Absent | Present(config: Config, accepted: seq<Point>)

  /** A chart's configuration and all points accepted since it was registered or cleared; a point
      that came without a timestamp has the time at which it came. */
  function LifeOf(ops: seq<Op>, id: string): Life {
    if ops == [] then Absent
    else
      var before := LifeOf(ops[..|ops| - 1], id);
      match ops[|ops| - 1]
      case DoRegister(i, config) => if i == id then Present(config, []) else before
      case DoAdd(i, p, now) =>
        if i == id && before.Present? then
          var stamped := Point(if p.timestamp == 0 then now else p.timestamp, p.value);
          before.(accepted := before.accepted + [stamped])
        else before
      case DoClear(i) => if i == id && before.Present? then before.(accepted := []) else before
      case DoDestroy(i) => if i == id then Absent else before
      case DoShutdown => Absent
      case _ => before
  }

  /** The last `max` of the points, none if `max` is not positive. */
  function Window(points: seq<Point>, max: int): seq<Point> {
    if max <= 0 then [] else if |points| <= max then points else points[|points| - max..]
  }

  ghost predicate Matches(s: State, id: string, life: Life) {
    match life
    case Absent => id !in s.charts && id !in s.buffers && id !in s.timers
    case Present(config, accepted) =>
      && id in s.charts && s.charts[id] == config && id in s.timers
      && id in s.buffers
      && s.buffers[id] == Buffer(Window(accepted, config.maxDataPoints), config.maxDataPoints,
                                 accepted != [] && |accepted| > config.maxDataPoints)
  }

  lemma PushIsWindow(points: seq<Point>, max: int, p: Point)
    ensures Push(Buffer(Window(points, max), max, points != [] && |points| > max), p) ==
            Buffer(Window(points + [p], max), max, |points| + 1 > max)
  {
  }

  /** In every reachable state a chart is known to the chart, buffer and timer maps alike, and
      its buffer is the window over the points accepted since it was registered or cleared,
      with the overflow flag set exactly when a point has been dropped. */
  lemma {:induction false} BuffersAreWindows(ops: seq<Op>, id: string)
    ensures Matches(Run(ops), id, LifeOf(ops, id))
  {
    if ops != [] {
      var init, op := ops[..|ops| - 1], ops[|ops| - 1];
      BuffersAreWindows(init, id);
      var life := LifeOf(init, id);
      if op.DoAdd? && op.id == id && life.Present? {
        PushIsWindow(life.accepted, life.config.maxDataPoints, op.point.Stamped(op.now));
      }
    }
  }

  // Timers and subscriptions.

  /** One running timer per chart, and no other timer runs. */
  ghost predicate NoLeaks(s: State) {
    && s.charts.Keys == s.buffers.Keys == s.timers.Keys
    && s.running == s.timers.Values
    && Injective(s.timers)
    && (forall i :: i in s.timers ==> s.timers[i] < s.nextTimer)
    && (forall k :: k in s.subscriptions ==> s.subscriptions[k].id == k)
  }

  ghost predicate Injective(m: map<string, nat>) {
    forall i, j :: i in m && j in m && i != j ==> m[i] != m[j]
  }

  lemma ValuesWithout(m: map<string, nat>, k: string)
    requires Injective(m)
    ensures (m - {k}).Values == if k in m then m.Values - {m[k]} else m.Values
  {
    var m' := m - {k};
    forall v | v in m.Values && !(k in m && m[k] == v)
      ensures v in m'.Values
    {
      var i :| i in m && m[i] == v;
      assert i in m' && m'[i] == v;
    }
  }

  lemma ValuesWith(m: map<string, nat>, k: string, v: nat)
    requires k !in m
    ensures m[k := v].Values == m.Values + {v}
  {
    var m' := m[k := v];
    assert m'[k] == v;
    forall u | u in m.Values
      ensures u in m'.Values
    {
      var i :| i in m && m[i] == u;
      assert m'[i] == u;
    }
  }

  lemma RegisterKeepsNoLeaks(s: State, id: string, config: Config)
    requires NoLeaks(s)
    ensures NoLeaks(Register(s, id, config))
  {
    var s' := Register(s, id, config);
    RegisterTimers(s.timers, id, s.nextTimer);
    assert s'.charts.Keys == s.charts.Keys + {id} && s'.buffers.Keys == s.buffers.Keys + {id};
    assert s'.timers.Keys == s.timers.Keys + {id};
  }

  lemma RegisterTimers(timers: map<string, nat>, id: string, timer: nat)
    requires Injective(timers) && forall i :: i in timers ==> timers[i] < timer
    ensures timers[id := timer].Values == (if id in timers then timers.Values - {timers[id]} else timers.Values) + {timer}
    ensures Injective(timers[id := timer])
  {
    var rest := timers - {id};
    ValuesWithout(timers, id);
    ValuesWith(rest, id, timer);
    assert rest[id := timer] == timers[id := timer];
  }

  lemma ApplyKeepsNoLeaks(s: State, op: Op)
    requires NoLeaks(s)
    ensures NoLeaks(Apply(s, op))
  {
    if op.DoRegister? {
      RegisterKeepsNoLeaks(s, op.id, op.config);
    } else if op.DoDestroy? {
      ValuesWithout(s.timers, op.id);
    }
  }

  /** In every reachable state exactly one timer runs for each registered chart. */
  lemma {:induction false} TimersNeverLeak(ops: seq<Op>)
    ensures NoLeaks(Run(ops))
  {
    if ops != [] {
      TimersNeverLeak(ops[..|ops| - 1]);
      ApplyKeepsNoLeaks(Run(ops[..|ops| - 1]), ops[|ops| - 1]);
    }
  }

  /** The operation ends the subscription: it replaces or removes it, destroys its chart or shuts
      the engine down. */
  predicate Ends(op: Op, sub: Subscription) {
    match op
    case DoSubscribe(other) => other.id == sub.id
    case DoUnsubscribe(key) => key == sub.id
    case DoDestroy(id) => id == sub.chartId
    case DoShutdown => true
    case _ => false
  }

  /** The run made the subscription at `i` and did not end it since. */
  ghost predicate LiveSince(ops: seq<Op>, i: nat, sub: Subscription) {
    i < |ops| && ops[i] == DoSubscribe(sub) && forall j :: i < j < |ops| ==> !Ends(ops[j], sub)
  }

  ghost predicate Live(ops: seq<Op>, sub: Subscription) {
    exists i :: LiveSince(ops, i, sub)
  }

  lemma LiveSinceAfter(ops: seq<Op>, i: nat, sub: Subscription)
    requires ops != []
    ensures var n := |ops| - 1;
            LiveSince(ops, i, sub) <==>
            (i == n && ops[n] == DoSubscribe(sub)) || (LiveSince(ops[..n], i, sub) && !Ends(ops[n], sub))
  {
    var n := |ops| - 1;
    assert forall j :: 0 <= j < n ==> ops[..n][j] == ops[j];
  }

  lemma LiveAfter(ops: seq<Op>, sub: Subscription)
    requires ops != []
    ensures var n := |ops| - 1;
            Live(ops, sub) <==> ops[n] == DoSubscribe(sub) || (Live(ops[..n], sub) && !Ends(ops[n], sub))
  {
    hide LiveSince;
    var n := |ops| - 1;
    forall i: nat
      ensures LiveSince(ops, i, sub) <==>
              (i == n && ops[n] == DoSubscribe(sub)) || (LiveSince(ops[..n], i, sub) && !Ends(ops[n], sub))
    {
      LiveSinceAfter(ops, i, sub);
    }
    assert ops[n] == DoSubscribe(sub) ==> LiveSince(ops, n, sub);
  }

  /** In every reachable state a subscription is stored, under its own id, exactly when the run
      made it and has since neither replaced nor removed it, nor destroyed its chart, nor shut
      the engine down. */
  lemma {:induction false} SubscriptionsAreLive(ops: seq<Op>, key: string, sub: Subscription)
    ensures key in Run(ops).subscriptions && Run(ops).subscriptions[key] == sub <==> key == sub.id && Live(ops, sub)
  {
    hide Live;
    if ops == [] {
      NothingIsLive(sub);
    } else {
      SubscriptionsAreLive(ops[..|ops| - 1], key, sub);
      LiveAfter(ops, sub);
      SubscriptionIdIsKey(ops[..|ops| - 1], key);
    }
  }

  lemma NothingIsLive(sub: Subscription)
    ensures !Live([], sub)
  {
  }

  lemma SubscriptionIdIsKey(ops: seq<Op>, key: string)
    ensures key in Run(ops).subscriptions ==> Run(ops).subscriptions[key].id == key
  {
    TimersNeverLeak(ops);
  }
}
