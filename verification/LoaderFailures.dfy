/** Why loads fail and how they recover: only a failed fetch fails a load, and a load begun after
    failures loads everything. */
module LoaderFailures {
  import opened ChunkLoader
  import opened LoaderWaits

  ghost predicate NoFetchFails<T>(steps: seq<Step<T>>) {
    forall step :: step in steps && step.Act? ==> !step.action.FetchFails?
  }

  /** The chunk registered under the id failed. */
  predicate FailedChunk<T>(s: Engine<T>, id: ChunkId) {
    s.Lookup(id).Found? && s.Lookup(id).chunk.state.Error?
  }

  /** The loader has not failed, and does not wait for a chunk that has. */
  predicate Unharmed<T>(s: Engine<T>, loader: Loader<T>) {
    !loader.phase.Failed? && (loader.phase.Polling? ==> !FailedChunk(s, loader.Id()))
  }

  /** Without a failing fetch no id comes to be registered with a failed chunk. */
  lemma NoNewFailedChunk<T>(s: Engine<T>, step: Step<T>, id: ChunkId)
    requires WellFormed(s) && !FailedChunk(s, id) && (step.Act? ==> !step.action.FetchFails?)
    ensures !FailedChunk(Apply(s, step), id)
  {
    if step.Act? && step.l < |s.loaders| && Enabled(s, s.loaders[step.l], step.action) {
      EffectFits(s, s.loaders[step.l], step.action);
      LookupAfterPerform(s, step.l, EffectOf(s, s.loaders[step.l], step.action), id);
    }
  }

  /** A load that calls is sent on, to data, to a wait or to a fetch, also past a failed chunk. */
  lemma ActKeepsUnharmed<T>(s: Engine<T>, l: nat, action: Action)
    requires WellFormed(s) && l < |s.loaders| && Enabled(s, s.loaders[l], action) && !action.FetchFails?
    requires Unharmed(s, s.loaders[l])
    ensures var s' := Apply(s, Act(l, action)); Unharmed(s', s'.loaders[l])
  {
    var e := EffectOf(s, s.loaders[l], action);
    EffectFits(s, s.loaders[l], action);
    LookupAfterPerform(s, l, e, s.loaders[l].Id());
  }

  ghost predicate UnharmedFrom<T>(s: Engine<T>, from: nat) {
    WellFormed(s) && from <= |s.loaders| && forall m :: from <= m < |s.loaders| ==> Unharmed(s, s.loaders[m])
  }

  lemma StepKeepsUnharmed<T>(s: Engine<T>, step: Step<T>, from: nat)
    requires UnharmedFrom(s, from) && (step.Act? ==> !step.action.FetchFails?)
    ensures UnharmedFrom(Apply(s, step), from)
  {
    hide WellFormed, FailedChunk, EffectOf;
    var s' := Apply(s, step);
    ApplyKeepsWellFormed(s, step);
    var acts := step.Act? && step.l < |s.loaders| && Enabled(s, s.loaders[step.l], step.action);
    if acts {
      EffectFits(s, s.loaders[step.l], step.action);
      if from <= step.l {
        ActKeepsUnharmed(s, step.l, step.action);
      }
    }
    forall m | from <= m < |s'.loaders|
      ensures Unharmed(s', s'.loaders[m])
    {
      if m < |s.loaders| && !(acts && m == step.l) {
        if !FailedChunk(s, s.loaders[m].Id()) {
          NoNewFailedChunk(s, step, s.loaders[m].Id());
        }
      }
    }
  }

  lemma {:induction false} StaysUnharmed<T>(s: Engine<T>, more: seq<Step<T>>)
    requires WellFormed(s) && NoFetchFails(more)
    ensures UnharmedFrom(After(s, more), |s.loaders|)
  {
    hide Apply, WellFormed, Unharmed;
    if more != [] {
      StaysUnharmed(s, more[..|more| - 1]);
      StepKeepsUnharmed(After(s, more[..|more| - 1]), more[|more| - 1], |s.loaders|);
    }
  }

  /** After every run, whatever failed in it: as long as no fetch fails, no load begun later
      fails, with clears anywhere. */
  lemma OnlyFailedFetchesFailLoads<T>(steps: seq<Step<T>>, more: seq<Step<T>>, m: nat)
    requires NoFetchFails(more)
    requires |After(Initial(), steps).loaders| <= m < |After(After(Initial(), steps), more).loaders|
    ensures !After(After(Initial(), steps), more).loaders[m].phase.Failed?
  {
    RunIsWellFormed(steps);
    StaysUnharmed(After(Initial(), steps), more);
  }

  /** A retry: after every run over one source in which waits are served, however many fetches
      failed, a new load with a positive chunk size can be brought to hold the whole source. */
  lemma RetryLoadsEverything<T>(steps: seq<Step<T>>, source: seq<T>, size: int, delay: int) returns (more: seq<Step<T>>)
    requires AlwaysHarmless(steps) && size >= 1
    requires forall step :: step in steps && step.Start? ==> step.source == source
    ensures forall step :: step in more ==> GoesOn(step)
    ensures var all := steps + [Start(source, size, delay)] + more;
            var l, s := |After(Initial(), steps).loaders|, After(Initial(), all);
            && l < |s.loaders| && s.loaders[l].size == size
            && s.loaders[l].phase.Completed? && s.loaders[l].data == source
  {
    hide Apply, Within, WellFormed, WaitsAreServed, EffectOf, GoesOn;
    var s0, start := After(Initial(), steps), Start(source, size, delay);
    var begun := steps + [start];
    RetryStarts(steps, source, size, delay);
    var s1 := After(Initial(), begun);
    RunIsWellFormed(steps);
    HarmlessUpTo(steps, |steps|);
    assert steps[..|steps|] == steps;
    ServedExactlyWhenHarmless(s0, start);
    MovesAreCovered(begun, |source|);
    more := LoadsCanEnd(s1, |source|);
    AfterAppend(Initial(), begun, more);
    RetryEnds(steps, more, source, size, delay);
  }

  lemma RetryStarts<T>(steps: seq<Step<T>>, source: seq<T>, size: int, delay: int)
    ensures var s0, start := After(Initial(), steps), Start(source, size, delay);
            var s1 := After(Initial(), steps + [start]);
            && s1 == Apply(s0, start) && s1.loaders == s0.loaders + [Loader(source, size, delay, [], 0, Calling)]
            && Harmless(s0, start)
  {
    OneMoreStep(steps, Start(source, size, delay));
  }

  lemma RetryEnds<T>(steps: seq<Step<T>>, more: seq<Step<T>>, source: seq<T>, size: int, delay: int)
    requires size >= 1 && forall step :: step in steps && step.Start? ==> step.source == source
    requires forall step :: step in more ==> GoesOn(step)
    requires var s := After(Initial(), steps + [Start(source, size, delay)] + more);
             |s.loaders| == |After(Initial(), steps).loaders| + 1 && forall l :: 0 <= l < |s.loaders| ==> Ended(s.loaders[l])
    ensures var l := |After(Initial(), steps).loaders|;
            var loader := After(Initial(), steps + [Start(source, size, delay)] + more).loaders[l];
            loader.size == size && loader.phase.Completed? && loader.data == source
  {
    hide Apply, After;
    var start := Start(source, size, delay);
    var s0, l, all := After(Initial(), steps), |After(Initial(), steps).loaders|, steps + [start] + more;
    RetryStarts(steps, source, size, delay);
    AfterAppend(Initial(), steps + [start], more);
    LoadersKeepTheirTerms(After(Initial(), steps + [start]), more, l);
    assert all == steps + ([start] + more);
    AfterAppend(Initial(), steps, [start] + more);
    OnlyFailedFetchesFailLoads(steps, [start] + more, l);
    LoadersHoldPrefixes(all, source, l);
  }

  // How long a chunk stays.

  /** The id is registered with a chunk that was created at `t` and has not failed. */
  predicate RegisteredSince<T>(s: Engine<T>, id: ChunkId, t: int) {
    s.Lookup(id).Found? && !s.Lookup(id).chunk.state.Error? && s.Lookup(id).chunk.timestamp == t
  }

  lemma StepKeepsRegistered<T>(s: Engine<T>, step: Step<T>, id: ChunkId, t: int)
    requires WellFormed(s) && RegisteredSince(s, id, t) && (step.Start? || (step.Act? && !step.action.FetchFails?))
    ensures RegisteredSince(Apply(s, step), id, t)
  {
    if step.Act? && step.l < |s.loaders| && Enabled(s, s.loaders[step.l], step.action) {
      EffectFits(s, s.loaders[step.l], step.action);
      LookupAfterPerform(s, step.l, EffectOf(s, s.loaders[step.l], step.action), id);
    }
  }

  lemma {:induction false} StaysRegistered<T>(s: Engine<T>, more: seq<Step<T>>, id: ChunkId, t: int)
    requires WellFormed(s) && RegisteredSince(s, id, t) && NothingCleared(more) && NoFetchFails(more)
    ensures WellFormed(After(s, more)) && RegisteredSince(After(s, more), id, t)
  {
    hide Apply, WellFormed, RegisteredSince;
    if more != [] {
      var n := |more| - 1;
      StaysRegistered(s, more[..n], id, t);
      ApplyKeepsWellFormed(After(s, more[..n]), more[n]);
      StepKeepsRegistered(After(s, more[..n]), more[n], id, t);
    }
  }

  /** From every reachable state: a call at time `t` that finds no chunk, or a failed one,
      registers its chunk. An age clear at `now` drops it exactly when it is more than five
      minutes old, as long as nothing failed or was cleared in between. */
  lemma AgeClearDropsExactlyOld<T>(steps: seq<Step<T>>, l: nat, t: int, more: seq<Step<T>>, now: int)
    requires var s := After(Initial(), steps);
             && l < |s.loaders| && s.loaders[l].phase.Calling?
             && (s.Lookup(s.loaders[l].Id()).Missing? || FailedChunk(s, s.loaders[l].Id()))
    requires NothingCleared(more) && NoFetchFails(more)
    ensures var s := After(Initial(), steps);
            var id, s' := s.loaders[l].Id(), After(Apply(s, Act(l, Call(t))), more);
            Apply(s', ClearOldDataChunks(now)).Lookup(id).Found? <==> now - t <= 300000
  {
    RunIsWellFormed(steps);
    var s := After(Initial(), steps);
    var id, called := s.loaders[l].Id(), Apply(s, Act(l, Call(t)));
    ApplyKeepsWellFormed(s, Act(l, Call(t)));
    assert RegisteredSince(called, id, t);
    StaysRegistered(called, more, id, t);
  }

  // What a load is.

  /** Over every interleaving, loader `l` loads what the `l`-th start asked for, in chunks of the
      size and with the delay it gave. */
  lemma {:induction false} LoadersAreStarts<T>(steps: seq<Step<T>>, l: nat) returns (i: nat)
    requires l < |After(Initial(), steps).loaders|
    ensures i < |steps| && steps[i].Start? && Starts(steps[..i]) == l
    ensures var loader := After(Initial(), steps).loaders[l];
            loader.source == steps[i].source && loader.size == steps[i].size && loader.delay == steps[i].delay
  {
    var n := |steps| - 1;
    var s := After(Initial(), steps[..n]);
    LoadersCountStarts(steps[..n]);
    if l < |s.loaders| {
      i := LoadersAreStarts(steps[..n], l);
      assert steps[..n][..i] == steps[..i];
      LoaderKeepsItsTerms(s, steps[n], l);
    } else {
      i := n;
      StepAddsAtMostOne(s, steps[n]);
    }
  }

  lemma StepAddsAtMostOne<T>(s: Engine<T>, step: Step<T>)
    ensures var loaders := Apply(s, step).loaders;
            if step.Start? then loaders == s.loaders + [Loader(step.source, step.size, step.delay, [], 0, Calling)]
            else |loaders| == |s.loaders|
  {
  }

  lemma {:induction false} LoadersCountStarts<T>(steps: seq<Step<T>>)
    ensures |After(Initial(), steps).loaders| == Starts(steps)
  {
    hide Apply;
    if steps != [] {
      LoadersCountStarts(steps[..|steps| - 1]);
      StepAddsAtMostOne(After(Initial(), steps[..|steps| - 1]), steps[|steps| - 1]);
    }
  }

  // Pauses.

  /** How many chunks, empty ones aside, loader `l` took up in the run. */
  function ChunksTaken<T>(steps: seq<Step<T>>, l: nat): nat {
    if steps == [] then 0
    else
      var n := |steps| - 1;
      var s, s' := After(Initial(), steps[..n]), After(Initial(), steps);
      ChunksTaken(steps[..n], l) +
      if l < |s.loaders| && l < |s'.loaders| && |s.loaders[l].data| < |s'.loaders[l].data| then 1 else 0
  }

  /** How many pauses of loader `l` ended in the run. */
  function PausesEnded<T>(steps: seq<Step<T>>, l: nat): nat {
    if steps == [] then 0
    else
      var n := |steps| - 1;
      var s := After(Initial(), steps[..n]);
      PausesEnded(steps[..n], l) +
      if steps[n] == Act(l, Wake) && l < |s.loaders| && s.loaders[l].phase.Delaying? then 1 else 0
  }

  /** Over every interleaving: a loader with a delay pauses once after every chunk it takes up,
      the last one included, and a loader without never does. */
  lemma {:induction false} PauseAfterEveryChunk<T>(steps: seq<Step<T>>, l: nat)
    ensures var s := After(Initial(), steps);
            if l < |s.loaders| then
              PausesEnded(steps, l) + (if s.loaders[l].phase.Delaying? then 1 else 0) ==
              if s.loaders[l].delay > 0 then ChunksTaken(steps, l) else 0
            else PausesEnded(steps, l) == 0 && ChunksTaken(steps, l) == 0
  {
    if steps != [] {
      var n := |steps| - 1;
      PauseAfterEveryChunk(steps[..n], l);
      PauseStep(After(Initial(), steps[..n]), steps[n], l);
    }
  }

  lemma PauseStep<T>(s: Engine<T>, step: Step<T>, l: nat)
    ensures var s' := Apply(s, step);
            if l < |s.loaders| then
              var a, b := s.loaders[l], if l < |s'.loaders| then s'.loaders[l] else s.loaders[l];
              && l < |s'.loaders| && b.delay == a.delay
              && (if step == Act(l, Wake) && a.phase.Delaying? then !b.phase.Delaying? && |b.data| == |a.data|
                  else if |a.data| < |b.data| then !a.phase.Delaying? && (b.phase.Delaying? <==> a.delay > 0)
                  else |b.data| == |a.data| && b.phase.Delaying? == a.phase.Delaying?)
            else l < |s'.loaders| ==> s'.loaders[l].phase.Calling?
  {
  }
}
