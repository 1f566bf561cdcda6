/** What loaders wait for: which clears leave a waiting loader without its chunk, and that loads
    end otherwise. */
module LoaderWaits {
  import opened JsArrays
  import opened ChunkLoader

  ghost predicate NothingCleared<T>(steps: seq<Step<T>>) {
    forall step :: step in steps ==> step.Start? || step.Act?
  }

  // What clearing does to a waiting loader.

  /** A loader waits for a chunk that is no longer registered, and every other load is over. */
  ghost predicate Stranded<T>(s: Engine<T>, l: nat) {
    && l < |s.loaders| && s.loaders[l].phase.Polling? && s.Lookup(s.loaders[l].Id()).Missing?
    && forall k :: 0 <= k < |s.loaders| && k != l ==> s.loaders[k].phase.Completed? || s.loaders[k].phase.Failed?
  }

  lemma StrandedStep<T>(s: Engine<T>, l: nat, step: Step<T>)
    requires Stranded(s, l) && !step.Start?
    ensures Apply(s, step).loaders == s.loaders && Stranded(Apply(s, step), l)
  {
    if step.Act? && step.l < |s.loaders| && Enabled(s, s.loaders[step.l], step.action) {
      assert step.l == l && step.action == Poll;
      assert EffectOf(s, s.loaders[l], Poll) == Effect(Keep, s.loaders[l]);
    }
  }

  /** A stranded loader polls for ever: no steps short of a new load ever move it on. */
  lemma {:induction false} StrandedLoaderNeverEnds<T>(s: Engine<T>, l: nat, steps: seq<Step<T>>)
    requires Stranded(s, l) && forall step :: step in steps ==> !step.Start?
    ensures Stranded(After(s, steps), l) && After(s, steps).loaders == s.loaders
  {
    if steps != [] {
      var n := |steps| - 1;
      StrandedLoaderNeverEnds(s, l, steps[..n]);
      StrandedStep(After(s, steps[..n]), l, steps[n]);
    }
  }

  /** A run that begins one load and reaches the fetch of its first chunk. */
  lemma FirstLoadHeld<T>(source: seq<T>, size: int) returns (steps: seq<Step<T>>)
    ensures forall step :: step in steps && step.Start? ==> step.source == source && step.size == size
    ensures After(Initial(), steps) ==
            Engine([Chunk(0, size, [], Loading, 0)], map[Key(0, size) := 0], [Loader(source, size, 0, [], 0, Fetching(0))])
  {
    var loader := Loader(source, size, 0, [], 0, Calling);
    var chunk := Chunk(0, size, [], Loading, 0);
    var s0, s1 := Engine([], map[], []), Engine([], map[], [loader]);
    assert Apply(s0, Start(source, size, 0)) == s1;
    steps := ThenStep([], Start(source, size, 0), s1);
    assert EffectOf(s1, loader, Call(0)) == Effect(Create(chunk), loader.(phase := Fetching(0)));
    steps := ThenStep(steps, Act(0, Call(0)), Engine([chunk], map[Key(0, size) := 0], [loader.(phase := Fetching(0))]));
  }

  /** Clearing the registry while one loader fetches and another waits for it strands the second. */
  lemma ClearingStrandsAWaitingLoader<T>(source: seq<T>, size: int) returns (steps: seq<Step<T>>)
    requires size > |source|
    ensures Stranded(After(Initial(), steps), 1) &&
            forall step :: step in steps && step.Start? ==> step.source == source && step.size == size
  {
    steps := SecondLoadWaits(source, size);
    var first, second := Loader(source, size, 0, [], 0, Fetching(0)), Loader(source, size, 0, [], 0, Polling);
    steps := ThenStep(steps, ClearDataChunks, Engine([Chunk(0, size, [], Loading, 0)], map[], [first, second]));
    var chunks := [Chunk(0, size, source, Loaded, 0)];
    assert Slice(source, 0, 0 + size) == source;
    first := first.(phase := Received(source));
    steps := ThenStep(steps, Act(0, FetchSucceeds), Engine(chunks, map[], [first, second]));
    steps := ThenStep(steps, Act(0, Action.Absorb), Engine(chunks, map[], [first.Absorb(source), second]));
  }

  lemma SecondLoadWaits<T>(source: seq<T>, size: int) returns (steps: seq<Step<T>>)
    ensures forall step :: step in steps && step.Start? ==> step.source == source && step.size == size
    ensures After(Initial(), steps) ==
            Engine([Chunk(0, size, [], Loading, 0)], map[Key(0, size) := 0],
                   [Loader(source, size, 0, [], 0, Fetching(0)), Loader(source, size, 0, [], 0, Polling)])
  {
    steps := FirstLoadHeld(source, size);
    var first, second := Loader(source, size, 0, [], 0, Fetching(0)), Loader(source, size, 0, [], 0, Calling);
    var chunks, registry := [Chunk(0, size, [], Loading, 0)], map[Key(0, size) := 0];
    steps := ThenStep(steps, Start(source, size, 0), Engine(chunks, registry, [first, second]));
    steps := ThenStep(steps, Act(1, Call(0)), Engine(chunks, registry, [first, second.(phase := Polling)]));
  }

  predicate Held<T>(loaders: seq<Loader<T>>, c: nat) {
    exists k :: 0 <= k < |loaders| && loaders[k].phase == Fetching(c)
  }

  /** Whatever a loader waits for is registered, and whatever is registered as loading has a
      loader that is fetching it. */
  ghost predicate WaitsAreServed<T>(s: Engine<T>) {
    && (forall id :: id in s.registry && BeingLoaded(s, id) ==> Held(s.loaders, s.registry[id]))
    && (forall l :: 0 <= l < |s.loaders| && s.loaders[l].phase.Polling? ==> s.Lookup(s.loaders[l].Id()).Found?)
  }

  /** Moving a loader that did not hold `c` keeps `c` held. */
  lemma StillHeld<T>(loaders: seq<Loader<T>>, l: nat, loader: Loader<T>, c: nat)
    requires l < |loaders| && Held(loaders, c) && loaders[l].phase != Fetching(c)
    ensures Held(loaders[l := loader], c)
  {
    var k :| 0 <= k < |loaders| && loaders[k].phase == Fetching(c);
    assert loaders[l := loader][k].phase == Fetching(c);
  }

  lemma ActKeepsRegistered<T>(s: Engine<T>, l: nat, action: Action, id: ChunkId)
    requires WellFormed(s) && l < |s.loaders| && Enabled(s, s.loaders[l], action)
    ensures var s' := Perform(s, l, EffectOf(s, s.loaders[l], action));
            && (s.Lookup(id).Found? ==> s'.Lookup(id).Found?)
            && (s'.loaders[l].phase.Polling? ==> s.Lookup(s'.loaders[l].Id()).Found? || s.loaders[l] == s'.loaders[l])
  {
    EffectFits(s, s.loaders[l], action);
    LookupAfterPerform(s, l, EffectOf(s, s.loaders[l], action), id);
  }

  lemma ActKeepsHeld<T>(s: Engine<T>, l: nat, action: Action, id: ChunkId)
    requires WellFormed(s) && WaitsAreServed(s) && l < |s.loaders| && Enabled(s, s.loaders[l], action)
    ensures var s' := Perform(s, l, EffectOf(s, s.loaders[l], action));
            id in s'.registry && BeingLoaded(s', id) ==> Held(s'.loaders, s'.registry[id])
  {
    var e := EffectOf(s, s.loaders[l], action);
    var s' := Perform(s, l, e);
    EffectFits(s, s.loaders[l], action);
    LookupAfterPerform(s, l, e, id);
    if id in s'.registry && BeingLoaded(s', id) {
      if e.write.Create? && e.write.chunk.Id() == id {
        assert s'.loaders[l].phase == Fetching(s'.registry[id]);
      } else {
        assert BeingLoaded(s, id) && s.loaders[l].phase != Fetching(s.registry[id]);
        StillHeld(s.loaders, l, e.loader, s.registry[id]);
      }
    }
  }

  lemma ActKeepsWaitsServed<T>(s: Engine<T>, l: nat, action: Action)
    requires WellFormed(s) && WaitsAreServed(s) && l < |s.loaders| && Enabled(s, s.loaders[l], action)
    ensures WaitsAreServed(Perform(s, l, EffectOf(s, s.loaders[l], action)))
  {
    var s' := Perform(s, l, EffectOf(s, s.loaders[l], action));
    forall id | id in s'.registry && BeingLoaded(s', id)
      ensures Held(s'.loaders, s'.registry[id])
    {
      ActKeepsHeld(s, l, action, id);
    }
    EffectFits(s, s.loaders[l], action);
    forall k | 0 <= k < |s'.loaders| && s'.loaders[k].phase.Polling?
      ensures s'.Lookup(s'.loaders[k].Id()).Found?
    {
      ActKeepsRegistered(s, l, action, s'.loaders[k].Id());
      assert k != l ==> s'.loaders[k] == s.loaders[k];
    }
  }

  lemma StartKeepsWaitsServed<T>(s: Engine<T>, step: Step<T>)
    requires WaitsAreServed(s) && step.Start?
    ensures WaitsAreServed(Apply(s, step))
  {
    var s' := Apply(s, step);
    forall id | id in s'.registry && BeingLoaded(s', id)
      ensures Held(s'.loaders, s'.registry[id])
    {
      assert BeingLoaded(s, id);
      var k :| 0 <= k < |s.loaders| && s.loaders[k].phase == Fetching(s.registry[id]);
      assert s'.loaders[k].phase == Fetching(s.registry[id]);
    }
  }

  /** The step leaves every waiting loader's chunk in the registry. */
  ghost predicate Harmless<T>(s: Engine<T>, step: Step<T>) {
    match step
    case ClearDataChunks => forall l :: 0 <= l < |s.loaders| ==> !s.loaders[l].phase.Polling?
    case ClearOldDataChunks(now) =>
      forall l :: 0 <= l < |s.loaders| && s.loaders[l].phase.Polling? ==>
        var found := s.Lookup(s.loaders[l].Id());
        found.Found? ==> now - found.chunk.timestamp <= 300000
    case _ => true
  }

  lemma ClearKeepsHeld<T>(s: Engine<T>, step: Step<T>, id: ChunkId)
    requires WaitsAreServed(s) && (step.ClearDataChunks? || step.ClearOldDataChunks?)
    ensures var s' := Apply(s, step);
            id in s'.registry && BeingLoaded(s', id) ==> Held(s'.loaders, s'.registry[id])
  {
    var s' := Apply(s, step);
    if id in s'.registry && BeingLoaded(s', id) {
      assert id in s.registry && BeingLoaded(s, id);
    }
  }

  /** From a state in which every wait is served, a step keeps that exactly when it is harmless:
      a full clear when nobody waits, an age clear when every awaited chunk is young enough, and
      any other step. */
  lemma ServedExactlyWhenHarmless<T>(s: Engine<T>, step: Step<T>)
    requires WellFormed(s) && WaitsAreServed(s)
    ensures WaitsAreServed(Apply(s, step)) <==> Harmless(s, step)
  {
    var s' := Apply(s, step);
    match step
    case Start(_, _, _) => StartKeepsWaitsServed(s, step);
    case Act(l, action) =>
      if l < |s.loaders| && Enabled(s, s.loaders[l], action) {
        ActKeepsWaitsServed(s, l, action);
      }
    case _ =>
      forall id | id in s'.registry && BeingLoaded(s', id)
        ensures Held(s'.loaders, s'.registry[id])
      {
        ClearKeepsHeld(s, step, id);
      }
  }

  ghost predicate AlwaysServed<T>(steps: seq<Step<T>>) {
    forall n :: 0 <= n <= |steps| ==> WaitsAreServed(After(Initial(), steps[..n]))
  }

  ghost predicate AlwaysHarmless<T>(steps: seq<Step<T>>) {
    forall n :: 0 <= n < |steps| ==> Harmless(After(Initial(), steps[..n]), steps[n])
  }

  lemma {:induction false} RunIsWellFormed<T>(steps: seq<Step<T>>)
    ensures WellFormed(After(Initial(), steps))
  {
    if steps != [] {
      RunIsWellFormed(steps[..|steps| - 1]);
      ApplyKeepsWellFormed(After(Initial(), steps[..|steps| - 1]), steps[|steps| - 1]);
    }
  }

  lemma PrefixOfRun<T>(steps: seq<Step<T>>, n: nat)
    requires n < |steps|
    ensures After(Initial(), steps[..n + 1]) == Apply(After(Initial(), steps[..n]), steps[n])
  {
    assert steps[..n + 1][..n] == steps[..n];
  }

  lemma {:induction false} HarmlessUpTo<T>(steps: seq<Step<T>>, n: nat)
    requires AlwaysHarmless(steps) && n <= |steps|
    ensures WaitsAreServed(After(Initial(), steps[..n]))
  {
    if n > 0 {
      HarmlessUpTo(steps, n - 1);
      PrefixOfRun(steps, n - 1);
      RunIsWellFormed(steps[..n - 1]);
      ServedExactlyWhenHarmless(After(Initial(), steps[..n - 1]), steps[n - 1]);
    }
  }

  /** Over every interleaving: at each point every loader that waits finds its chunk registered,
      and a chunk registered as loading is being fetched, exactly when each clear was harmless at
      its point. */
  lemma WaitsAreServedExactlyWhen<T>(steps: seq<Step<T>>)
    ensures AlwaysServed(steps) <==> AlwaysHarmless(steps)
  {
    if AlwaysHarmless(steps) {
      forall n | 0 <= n <= |steps|
        ensures WaitsAreServed(After(Initial(), steps[..n]))
      {
        HarmlessUpTo(steps, n);
      }
    } else {
      var n :| 0 <= n < |steps| && !Harmless(After(Initial(), steps[..n]), steps[n]);
      PrefixOfRun(steps, n);
      RunIsWellFormed(steps[..n]);
      if WaitsAreServed(After(Initial(), steps[..n])) {
        ServedExactlyWhenHarmless(After(Initial(), steps[..n]), steps[n]);
        assert !WaitsAreServed(After(Initial(), steps[..n + 1]));
      }
    }
  }

  // What a loader keeps.

  lemma LoaderKeepsItsTerms<T>(s: Engine<T>, step: Step<T>, l: nat)
    requires l < |s.loaders|
    ensures var s' := Apply(s, step);
            && l < |s'.loaders| && s'.loaders[l].source == s.loaders[l].source
            && s'.loaders[l].size == s.loaders[l].size && s'.loaders[l].delay == s.loaders[l].delay
            && (s.loaders[l].phase.Completed? ==> s'.loaders[l] == s.loaders[l])
  {
  }

  lemma {:induction false} LoadersKeepTheirTerms<T>(s: Engine<T>, steps: seq<Step<T>>, l: nat)
    requires l < |s.loaders|
    ensures var s' := After(s, steps);
            && l < |s'.loaders| && s'.loaders[l].source == s.loaders[l].source
            && s'.loaders[l].size == s.loaders[l].size && s'.loaders[l].delay == s.loaders[l].delay
            && (s.loaders[l].phase.Completed? ==> s'.loaders[l] == s.loaders[l])
  {
    hide Apply;
    if steps != [] {
      LoadersKeepTheirTerms(s, steps[..|steps| - 1], l);
      LoaderKeepsItsTerms(After(s, steps[..|steps| - 1]), steps[|steps| - 1], l);
    }
  }

  // Progress.

  /** The step moves a loader on: any enabled action but a poll that finds nothing new. */
  predicate Moves<T(==)>(s: Engine<T>, step: Step<T>) {
    step.Act? && step.l < |s.loaders| && Enabled(s, s.loaders[step.l], step.action) &&
    EffectOf(s, s.loaders[step.l], step.action).loader != s.loaders[step.l]
  }

  predicate Ended<T>(loader: Loader<T>) {
    loader.phase.Completed? || loader.phase.Failed?
  }

  /** A step of the loader, other than a failure, that moves it on if the loader can be moved. */
  function NextAction<T>(loader: Loader<T>): Action {
    match loader.phase
    case Calling => Call(0)
    case Fetching(_) => FetchSucceeds
    case Polling => Poll
    case Received(_) => Action.Absorb
    case _ => Wake
  }

  /** While waits are served, some loader can move on unless every load has ended. */
  lemma SomeLoaderMoves<T>(s: Engine<T>, l: nat) returns (k: nat)
    requires WellFormed(s) && WaitsAreServed(s) && l < |s.loaders| && !Ended(s.loaders[l])
    ensures k < |s.loaders| && Moves(s, Act(k, NextAction(s.loaders[k])))
  {
    assert HoldsOwnChunk(s.chunks, s.loaders[l]);
    k := l;
    if s.loaders[l].phase.Polling? && BeingLoaded(s, s.loaders[l].Id()) {
      var c := s.registry[s.loaders[l].Id()];
      k :| 0 <= k < |s.loaders| && s.loaders[k].phase == Fetching(c);
    }
  }

  /** Nothing is longer than `longest`: no source, and no chunk reaches further. */
  ghost predicate Within<T>(s: Engine<T>, longest: nat) {
    && (forall c :: 0 <= c < |s.chunks| ==> Reaches(s.chunks[c].offset, s.chunks[c].data, longest))
    && (forall l :: 0 <= l < |s.loaders| ==> LoaderWithin(s.loaders[l], longest))
  }

  ghost predicate LoaderWithin<T>(loader: Loader<T>, longest: nat) {
    && |loader.source| <= longest && 0 <= loader.offset <= longest
    && (loader.phase.Received? ==> Reaches(loader.offset, loader.phase.chunkData, longest))
  }

  predicate Reaches<T>(offset: int, data: seq<T>, longest: nat) {
    data == [] || offset + |data| <= longest
  }

  /** What a load still has to do: a whole round for each element, and what is left of this one. */
  function Remaining<T>(loader: Loader<T>, longest: nat): int {
    match loader.phase
    case Completed => 0
    case Failed => 0
    case _ => 4 * (longest - loader.offset) + Rank(loader.phase)
  }

  function Rank<T>(phase: Phase<T>): nat {
    match phase
    case Delaying(_) => 4
    case Calling => 3
    case Fetching(_) => 2
    case Polling => 2
    case Received(_) => 1
    case _ => 0
  }

  function TotalRemaining<T>(loaders: seq<Loader<T>>, longest: nat): int {
    if loaders == [] then 0
    else TotalRemaining(loaders[..|loaders| - 1], longest) + Remaining(loaders[|loaders| - 1], longest)
  }

  lemma {:induction false} RemainingAfterUpdate<T>(loaders: seq<Loader<T>>, l: nat, loader: Loader<T>, longest: nat)
    requires l < |loaders|
    ensures TotalRemaining(loaders[l := loader], longest) ==
            TotalRemaining(loaders, longest) + Remaining(loader, longest) - Remaining(loaders[l], longest)
  {
    var n := |loaders| - 1;
    var updated := loaders[l := loader];
    if l == n {
      assert updated[..n] == loaders[..n];
    } else {
      RemainingAfterUpdate(loaders[..n], l, loader, longest);
      assert updated[..n] == loaders[..n][l := loader];
    }
  }

  lemma {:induction false} RemainingIsNatural<T>(loaders: seq<Loader<T>>, longest: nat)
    requires forall l :: 0 <= l < |loaders| ==> LoaderWithin(loaders[l], longest)
    ensures TotalRemaining(loaders, longest) >= 0
  {
    if loaders != [] {
      RemainingIsNatural(loaders[..|loaders| - 1], longest);
    }
  }

  lemma FetchedReaches<T>(loader: Loader<T>, longest: nat)
    requires LoaderWithin(loader, longest)
    ensures Reaches(loader.offset, loader.Fetched(), longest)
  {
  }

  lemma EffectStaysWithin<T>(s: Engine<T>, loader: Loader<T>, action: Action, longest: nat)
    requires WellFormed(s) && Within(s, longest) && LoaderWithin(loader, longest) && HoldsOwnChunk(s.chunks, loader)
    requires Enabled(s, loader, action)
    ensures var e := EffectOf(s, loader, action);
            && LoaderWithin(e.loader, longest)
            && (!e.write.Keep? ==> Reaches(e.write.chunk.offset, e.write.chunk.data, longest))
            && (e.loader == loader || Remaining(e.loader, longest) < Remaining(loader, longest))
  {
    hide Slice;
    FetchedReaches(loader, longest);
    var found := s.Lookup(loader.Id());
    assert found.Found? ==> Reaches(found.chunk.offset, found.chunk.data, longest);
  }

  lemma PerformStaysWithin<T>(s: Engine<T>, l: nat, e: Effect<T>, longest: nat)
    requires Within(s, longest) && l < |s.loaders| && Fits(s, e) && LoaderWithin(e.loader, longest)
    requires !e.write.Keep? ==> Reaches(e.write.chunk.offset, e.write.chunk.data, longest)
    ensures var s' := Perform(s, l, e);
            Within(s', longest) && s'.loaders == s.loaders[l := e.loader] &&
            TotalRemaining(s'.loaders, longest) ==
            TotalRemaining(s.loaders, longest) + Remaining(e.loader, longest) - Remaining(s.loaders[l], longest)
  {
    hide LoaderWithin, Reaches, Remaining;
    RemainingAfterUpdate(s.loaders, l, e.loader, longest);
  }

  lemma ApplyStaysWithin<T>(s: Engine<T>, step: Step<T>, longest: nat)
    requires WellFormed(s) && Within(s, longest) && (step.Start? ==> |step.source| <= longest)
    ensures Within(Apply(s, step), longest)
    ensures var before, after := TotalRemaining(s.loaders, longest), TotalRemaining(Apply(s, step).loaders, longest);
            if step.Start? then after == before + 4 * longest + 3
            else if Moves(s, step) then after < before
            else after == before
  {
    hide EffectOf;
    if step.Start? {
      assert Apply(s, step).loaders[..|s.loaders|] == s.loaders;
    } else if step.Act? && step.l < |s.loaders| && Enabled(s, s.loaders[step.l], step.action) {
      var e := EffectOf(s, s.loaders[step.l], step.action);
      assert LoaderWithin(s.loaders[step.l], longest) && HoldsOwnChunk(s.chunks, s.loaders[step.l]);
      EffectFits(s, s.loaders[step.l], step.action);
      EffectStaysWithin(s, s.loaders[step.l], step.action, longest);
      PerformStaysWithin(s, step.l, e, longest);
    }
  }

  function Starts<T>(steps: seq<Step<T>>): nat {
    if steps == [] then 0 else Starts(steps[..|steps| - 1]) + if steps[|steps| - 1].Start? then 1 else 0
  }

  /** How many steps of the run moved a loader on. */
  function MovesIn<T(==)>(steps: seq<Step<T>>): nat {
    if steps == [] then 0
    else
      var n := |steps| - 1;
      MovesIn(steps[..n]) + if Moves(After(Initial(), steps[..n]), steps[n]) then 1 else 0
  }

  lemma Shares(n: nat, share: nat)
    ensures (n + 1) * share == n * share + share && n * share >= 0
  {
  }

  lemma StartsRemaining<T>(longest: nat)
    ensures WellFormed(Initial<T>()) && Within(Initial<T>(), longest) && TotalRemaining(Initial<T>().loaders, longest) == 0
  {
  }

  lemma {:induction false} MovesAreCovered<T>(steps: seq<Step<T>>, longest: nat)
    requires forall step :: step in steps && step.Start? ==> |step.source| <= longest
    ensures var s := After(Initial(), steps);
            && WellFormed(s) && Within(s, longest)
            && MovesIn(steps) + TotalRemaining(s.loaders, longest) <= Starts(steps) * (4 * longest + 3)
  {
    hide Apply, WellFormed, Within, EffectOf, Enabled, TotalRemaining;
    StartsRemaining<T>(longest);
    if steps != [] {
      var n := |steps| - 1;
      var s := After(Initial(), steps[..n]);
      MovesAreCovered(steps[..n], longest);
      ApplyKeepsWellFormed(s, steps[n]);
      ApplyStaysWithin(s, steps[n], longest);
      Shares(Starts(steps[..n]), 4 * longest + 3);
    }
  }

  /** Over every interleaving, with failures and clears anywhere: loads move on at most a number
      of times that is linear in the longest source. */
  lemma MovesAreBounded<T>(steps: seq<Step<T>>, longest: nat)
    requires forall step :: step in steps && step.Start? ==> |step.source| <= longest
    ensures MovesIn(steps) <= Starts(steps) * (4 * longest + 3)
  {
    MovesAreCovered(steps, longest);
    RemainingIsNatural(After(Initial(), steps).loaders, longest);
  }

  /** A step of a loader that is not a failure: no new load and no clear either. */
  predicate GoesOn<T>(step: Step<T>) {
    step.Act? && !step.action.FetchFails?
  }

  lemma {:induction false} AfterAppend<T>(s: Engine<T>, first: seq<Step<T>>, second: seq<Step<T>>)
    ensures After(s, first + second) == After(After(s, first), second)
  {
    hide Apply;
    if second == [] {
      assert first + second == first;
    } else {
      var n := |second| - 1;
      AfterAppend(s, first, second[..n]);
      assert (first + second)[..|first| + n] == first + second[..n];
    }
  }

  /** From every state in which waits are served, the loads can all be brought to an end without
      a new load, a failure or a clear. */
  lemma {:induction false} LoadsCanEnd<T>(s: Engine<T>, longest: nat) returns (more: seq<Step<T>>)
    requires WellFormed(s) && WaitsAreServed(s) && Within(s, longest)
    ensures forall step :: step in more ==> GoesOn(step)
    ensures var s' := After(s, more);
            |s'.loaders| == |s.loaders| && forall l :: 0 <= l < |s'.loaders| ==> Ended(s'.loaders[l])
    decreases TotalRemaining(s.loaders, longest)
  {
    more := [];
    if l :| 0 <= l < |s.loaders| && !Ended(s.loaders[l]) {
      var k := SomeLoaderMoves(s, l);
      var step := Act(k, NextAction(s.loaders[k]));
      ApplyKeepsWellFormed(s, step);
      ServedExactlyWhenHarmless(s, step);
      ApplyStaysWithin(s, step, longest);
      RemainingIsNatural(s.loaders, longest);
      RemainingIsNatural(Apply(s, step).loaders, longest);
      more := LoadsCanEnd(Apply(s, step), longest);
      assert After(s, [step]) == Apply(s, step) by { assert [step][..0] == []; }
      AfterAppend(s, [step], more);
      more := [step] + more;
    }
  }
}
