/** Progressive loading: any number of loaders share one registry of chunks and interleave at
    their `await` points. A step is one stretch of code between two such points (some stretches
    are cut further, which only adds interleavings). */
module ChunkLoader {
  import opened JsArrays

  const MAX_AGE := 5 * 60 * 1000

  /** Stands for the string `chunk_${offset}_${size}`; `ChunkKeys.KeyIsInjective` shows that the
      string determines the pair. */
  datatype ChunkId = Key(offset: int, size: int)

  datatype LoadState = Loading | Loaded | Error

  /** A chunk object. The registry and a fetching loader may both refer to it; clearing the
      registry detaches it without stopping the fetch. */
  datatype Chunk<T> = Chunk(offset: int, size: int, data: seq<T>, state: LoadState, timestamp: int)
  {
    function Id(): ChunkId { Key(offset, size) }
  }

  datatype Phase<T> =
    | Calling                  // about to call loadDataChunk
    | Fetching(chunk: nat)     // awaiting the provider, holding its chunk object
    | Polling                  // waiting for another loader's fetch of the same chunk
    | Received(chunkData: seq<T>)
    | Delaying(length: nat)    // pausing after a chunk of that length
    | Completed
    | Failed

  datatype Loader<T> = Loader(source: seq<T>, size: int, delay: int, data: seq<T>, offset: int, phase: Phase<T>)
  {
    function Id(): ChunkId { Key(offset, size) }

    /** What the provider's array holds for the current chunk. */
    function Fetched(): seq<T> { Slice(source, offset, offset + size) }

    function AfterChunk(length: nat): Phase<T> { if length < size then Completed else Calling }

    function Absorb(chunk: seq<T>): Loader<T> {
      if |chunk| == 0 then this.(phase := Completed)
      else this.(data := data + chunk, offset := offset + |chunk|,
                 phase := if delay > 0 then Delaying(|chunk|) else AfterChunk(|chunk|))
    }
  }

  /** `chunks` holds every chunk object ever made; the registry maps ids to indices into it. */
  datatype Engine<T> = Engine(chunks: seq<Chunk<T>>, registry: map<ChunkId, nat>, loaders: seq<Loader<T>>)
  {
    function Lookup(id: ChunkId): Lookup<T> {
      if id in registry && registry[id] < |chunks| then Found(chunks[registry[id]]) else Missing
    }
  }

  datatype Lookup<T> = Missing | Found(chunk: Chunk<T>)

  /** What one loader does next. */
  datatype Action = Call(now: int) | FetchSucceeds | FetchFails | Poll | Absorb | Wake

  datatype Step<T> =
    | Start(source: seq<T>, size: int, delay: int)
    | Act(l: nat, action: Action)
    | ClearOldDataChunks(now: int)
    | ClearDataChunks

  /** An action's effect: at most one chunk object created or rewritten, and the loader moved on. */
  datatype Write<T> = Keep | Create(chunk: Chunk<T>) | Rewrite(index: nat, chunk: Chunk<T>)
  datatype Effect<T> = Effect(write: Write<T>, loader: Loader<T>)

  predicate Enabled<T>(s: Engine<T>, loader: Loader<T>, action: Action) {
    match action
    case Call(_) => loader.phase.Calling?
    case FetchSucceeds => loader.phase.Fetching? && loader.phase.chunk < |s.chunks|
    case FetchFails => loader.phase.Fetching? && loader.phase.chunk < |s.chunks|
    case Poll => loader.phase.Polling?
    case Absorb => loader.phase.Received?
    case Wake => loader.phase.Delaying?
  }

  function EffectOf<T>(s: Engine<T>, loader: Loader<T>, action: Action): Effect<T>
    requires Enabled(s, loader, action)
  {
    match action
    case Call(now) => (
      match s.Lookup(loader.Id())
      case Found(Chunk(_, _, data, Loaded, _)) => Effect(Keep, loader.(phase := Received(data)))
      case Found(Chunk(_, _, _, Loading, _)) => Effect(Keep, loader.(phase := Polling))
      case _ => Effect(Create(Chunk(loader.offset, loader.size, [], Loading, now)),
                       loader.(phase := Fetching(|s.chunks|))))
    case FetchSucceeds =>
      var c := loader.phase.chunk;
      Effect(Rewrite(c, s.chunks[c].(data := loader.Fetched(), state := Loaded)),
             loader.(phase := Received(loader.Fetched())))
    case FetchFails =>
      var c := loader.phase.chunk;
      Effect(Rewrite(c, s.chunks[c].(state := Error)), loader.(phase := Failed))
    case Poll => (
      match s.Lookup(loader.Id())
      case Found(Chunk(_, _, data, Loaded, _)) => Effect(Keep, loader.(phase := Received(data)))
      case Found(Chunk(_, _, _, Error, _)) => Effect(Keep, loader.(phase := Failed))
      case _ => Effect(Keep, loader))
    case Absorb => Effect(Keep, loader.Absorb(loader.phase.chunkData))
    case Wake => Effect(Keep, loader.(phase := loader.AfterChunk(loader.phase.length)))
  }

  function Perform<T>(s: Engine<T>, l: nat, e: Effect<T>): Engine<T>
    requires l < |s.loaders|
  {
    var loaders := s.loaders[l := e.loader];
    match e.write
    case Keep => s.(loaders := loaders)
    case Create(chunk) => Engine(s.chunks + [chunk], s.registry[chunk.Id() := |s.chunks|], loaders)
    case Rewrite(c, chunk) => if c < |s.chunks| then s.(chunks := s.chunks[c := chunk], loaders := loaders) else s
  }

  /** An action that is not enabled changes nothing. */
  function Apply<T>(s: Engine<T>, step: Step<T>): Engine<T> {
    match step
    case Start(source, size, delay) => s.(loaders := s.loaders + [Loader(source, size, delay, [], 0, Calling)])
    case Act(l, action) =>
      if l < |s.loaders| && Enabled(s, s.loaders[l], action) then Perform(s, l, EffectOf(s, s.loaders[l], action)) else s
    case ClearOldDataChunks(now) =>
      s.(registry := map id | id in s.registry &&
                              !(s.registry[id] < |s.chunks| && now - s.chunks[s.registry[id]].timestamp > MAX_AGE)
                     :: s.registry[id])
    case ClearDataChunks => s.(registry := map[])
  }

  function After<T>(s: Engine<T>, steps: seq<Step<T>>): Engine<T> {
    if steps == [] then s
    else Apply(After(s, steps[..|steps| - 1]), steps[|steps| - 1])
  }

  function Initial<T>(): Engine<T> {
    Engine([], map[], [])
  }

  // Structure: what the registry and the phases say about chunk objects.

  ghost predicate WellFormed<T>(s: Engine<T>) {
    && (forall id :: id in s.registry ==> s.registry[id] < |s.chunks| && s.chunks[s.registry[id]].Id() == id)
    && (forall l :: 0 <= l < |s.loaders| ==> HoldsOwnChunk(s.chunks, s.loaders[l]))
  }

  ghost predicate HoldsOwnChunk<T>(chunks: seq<Chunk<T>>, loader: Loader<T>) {
    loader.phase.Fetching? ==>
      && loader.phase.chunk < |chunks|
      && chunks[loader.phase.chunk].offset == loader.offset
      && chunks[loader.phase.chunk].size == loader.size
  }

  /** An effect that fits the state: a created chunk is the acting loader's own and is held by
      it; a rewritten one keeps its range; only creation starts a fetch. */
  ghost predicate Fits<T>(s: Engine<T>, e: Effect<T>) {
    match e.write
    case Keep => !e.loader.phase.Fetching?
    case Create(chunk) =>
      chunk.state.Loading? && chunk.offset == e.loader.offset && chunk.size == e.loader.size &&
      e.loader.phase == Fetching(|s.chunks|)
    case Rewrite(c, chunk) =>
      c < |s.chunks| && chunk.offset == s.chunks[c].offset && chunk.size == s.chunks[c].size && !e.loader.phase.Fetching?
  }

  lemma EffectFits<T>(s: Engine<T>, loader: Loader<T>, action: Action)
    requires Enabled(s, loader, action)
    ensures Fits(s, EffectOf(s, loader, action)) && EffectOf(s, loader, action).loader.size == loader.size
  {
  }

  lemma PerformKeepsWellFormed<T>(s: Engine<T>, l: nat, e: Effect<T>)
    requires WellFormed(s) && l < |s.loaders| && Fits(s, e)
    ensures WellFormed(Perform(s, l, e))
  {
    var s' := Perform(s, l, e);
    assert forall k :: 0 <= k < |s.loaders| ==> HoldsOwnChunk(s.chunks, s.loaders[k]);
    assert forall k :: 0 <= k < |s.loaders| ==> HoldsOwnChunk(s'.chunks, s'.loaders[k]);
  }

  lemma ApplyKeepsWellFormed<T>(s: Engine<T>, step: Step<T>)
    requires WellFormed(s)
    ensures WellFormed(Apply(s, step))
  {
    if step.Act? && step.l < |s.loaders| && Enabled(s, s.loaders[step.l], step.action) {
      EffectFits(s, s.loaders[step.l], step.action);
      PerformKeepsWellFormed(s, step.l, EffectOf(s, s.loaders[step.l], step.action));
    }
  }

  // Data: what is loaded is what the source holds.

  /** The loader has the first `offset` elements; a non-positive chunk size never gets to the end. */
  ghost predicate LoaderFaithful<T>(loader: Loader<T>, source: seq<T>) {
    && loader.source == source
    && 0 <= loader.offset <= |source| && loader.data == source[..loader.offset]
    && (loader.size < 1 && source != [] ==> loader.offset < |source|)
    && match loader.phase
       case Received(chunk) => chunk == loader.Fetched()
       case Delaying(length) => length > 0 && (length < loader.size ==> loader.offset == |source|)
       case Completed => loader.size >= 1 ==> loader.offset == |source|
       case _ => true
  }

  ghost predicate ChunkFaithful<T>(chunk: Chunk<T>, source: seq<T>) {
    chunk.state.Loaded? ==> chunk.data == Slice(source, chunk.offset, chunk.offset + chunk.size)
  }

  ghost predicate Faithful<T>(s: Engine<T>, source: seq<T>) {
    && (forall c :: 0 <= c < |s.chunks| ==> ChunkFaithful(s.chunks[c], source))
    && (forall l :: 0 <= l < |s.loaders| ==> LoaderFaithful(s.loaders[l], source))
  }

  lemma AbsorbIsFaithful<T>(loader: Loader<T>, source: seq<T>)
    requires LoaderFaithful(loader, source) && loader.phase.Received?
    ensures LoaderFaithful(loader.Absorb(loader.phase.chunkData), source)
  {
  }

  /** A loaded chunk found under the loader's id is the loader's own slice. */
  lemma FoundChunkIsOurs<T>(s: Engine<T>, loader: Loader<T>, source: seq<T>)
    requires WellFormed(s) && Faithful(s, source) && loader.source == source
    ensures var found := s.Lookup(loader.Id());
            found.Found? && found.chunk.state.Loaded? ==> found.chunk.data == loader.Fetched()
  {
    var found := s.Lookup(loader.Id());
    if found.Found? {
      assert ChunkFaithful(s.chunks[s.registry[loader.Id()]], source);
    }
  }

  lemma EffectIsFaithful<T>(s: Engine<T>, loader: Loader<T>, action: Action, source: seq<T>)
    requires WellFormed(s) && Faithful(s, source) && LoaderFaithful(loader, source) && HoldsOwnChunk(s.chunks, loader)
    requires Enabled(s, loader, action)
    ensures var e := EffectOf(s, loader, action);
            LoaderFaithful(e.loader, source) && (!e.write.Keep? ==> ChunkFaithful(e.write.chunk, source))
  {
    hide Slice;
    FoundChunkIsOurs(s, loader, source);
    if action.Absorb? {
      AbsorbIsFaithful(loader, source);
    }
  }

  lemma ApplyIsFaithful<T>(s: Engine<T>, step: Step<T>, source: seq<T>)
    requires WellFormed(s) && Faithful(s, source) && (step.Start? ==> step.source == source)
    ensures Faithful(Apply(s, step), source)
  {
    hide LoaderFaithful, ChunkFaithful, EffectOf;
    if step.Start? {
      NewLoaderIsFaithful(source, step.size, step.delay);
    } else if step.Act? && step.l < |s.loaders| && Enabled(s, s.loaders[step.l], step.action) {
      EffectIsFaithful(s, s.loaders[step.l], step.action, source);
      assert Apply(s, step).loaders[..] == s.loaders[step.l := EffectOf(s, s.loaders[step.l], step.action).loader] ||
             Apply(s, step) == s;
    }
  }

  lemma NewLoaderIsFaithful<T>(source: seq<T>, size: int, delay: int)
    ensures LoaderFaithful(Loader(source, size, delay, [], 0, Calling), source)
  {
  }

  lemma {:induction false} RunIsFaithful<T>(steps: seq<Step<T>>, source: seq<T>)
    requires forall step :: step in steps && step.Start? ==> step.source == source
    ensures WellFormed(After(Initial(), steps)) && Faithful(After(Initial(), steps), source)
  {
    if steps != [] {
      var n := |steps| - 1;
      var s, step := After(Initial(), steps[..n]), steps[n];
      RunIsFaithful(steps[..n], source);
      ApplyKeepsWellFormed(s, step);
      ApplyIsFaithful(s, step, source);
    }
  }

  /** Over every interleaving of loads of one source, with failures and clears anywhere: each
      loader always holds a prefix of the source, and one that ends without error holds the whole
      source exactly when its chunk size is positive (or there is nothing to load). */
  lemma LoadersHoldPrefixes<T>(steps: seq<Step<T>>, source: seq<T>, l: nat)
    requires forall step :: step in steps && step.Start? ==> step.source == source
    requires l < |After(Initial(), steps).loaders|
    ensures var loader := After(Initial(), steps).loaders[l];
            && loader.data <= source
            && (loader.phase.Completed? ==> (loader.data == source <==> loader.size >= 1 || source == []))
  {
    RunIsFaithful(steps, source);
    assert LoaderFaithful(After(Initial(), steps).loaders[l], source);
  }

  // Fetches in flight.

  predicate FetchesFor<T>(loader: Loader<T>, id: ChunkId) {
    loader.phase.Fetching? && loader.Id() == id
  }

  function InFlight<T>(loaders: seq<Loader<T>>, id: ChunkId): nat {
    if loaders == [] then 0
    else InFlight(loaders[..|loaders| - 1], id) + if FetchesFor(loaders[|loaders| - 1], id) then 1 else 0
  }

  lemma {:induction false} InFlightAfterUpdate<T>(loaders: seq<Loader<T>>, l: nat, loader: Loader<T>, id: ChunkId)
    requires l < |loaders|
    ensures InFlight(loaders[l := loader], id) ==
            InFlight(loaders, id) + (if FetchesFor(loader, id) then 1 else 0) - (if FetchesFor(loaders[l], id) then 1 else 0)
  {
    var n := |loaders| - 1;
    var updated := loaders[l := loader];
    if l == n {
      assert updated[..n] == loaders[..n];
    } else {
      InFlightAfterUpdate(loaders[..n], l, loader, id);
      assert updated[..n] == loaders[..n][l := loader];
    }
  }

  predicate BeingLoaded<T>(s: Engine<T>, id: ChunkId) {
    s.Lookup(id).Found? && s.Lookup(id).chunk.state.Loading?
  }

  /** The step clears `id` out of the registry while it is still loading. */
  predicate DropsFetch<T>(s: Engine<T>, step: Step<T>, id: ChunkId) {
    (step.ClearOldDataChunks? || step.ClearDataChunks?) && BeingLoaded(s, id) && !BeingLoaded(Apply(s, step), id)
  }

  function Drops<T>(steps: seq<Step<T>>, id: ChunkId): nat {
    if steps == [] then 0
    else
      var n := |steps| - 1;
      Drops(steps[..n], id) + if DropsFetch(After(Initial(), steps[..n]), steps[n], id) then 1 else 0
  }

  /** What an effect does to a lookup. */
  lemma LookupAfterPerform<T>(s: Engine<T>, l: nat, e: Effect<T>, id: ChunkId)
    requires WellFormed(s) && l < |s.loaders| && Fits(s, e)
    ensures Perform(s, l, e).Lookup(id) ==
            match e.write
            case Keep => s.Lookup(id)
            case Create(chunk) => if id == chunk.Id() then Found(chunk) else s.Lookup(id)
            case Rewrite(c, chunk) => if id in s.registry && s.registry[id] == c then Found(chunk) else s.Lookup(id)
  {
  }

  /** An action for another chunk id leaves the fetches of `id`, and whether it is loading, alone. */
  lemma OtherIdUntouched<T>(s: Engine<T>, l: nat, action: Action, id: ChunkId)
    requires WellFormed(s) && l < |s.loaders| && Enabled(s, s.loaders[l], action) && s.loaders[l].Id() != id
    ensures var e := EffectOf(s, s.loaders[l], action);
            Perform(s, l, e).Lookup(id) == s.Lookup(id) && !FetchesFor(e.loader, id)
  {
    var e := EffectOf(s, s.loaders[l], action);
    EffectFits(s, s.loaders[l], action);
    assert HoldsOwnChunk(s.chunks, s.loaders[l]);
    LookupAfterPerform(s, l, e, id);
  }

  /** An action for `id` starts a fetch only when none is registered, and ends its loading only
      together with its own fetch. */
  lemma OwnIdBalanced<T>(s: Engine<T>, l: nat, action: Action)
    requires WellFormed(s) && l < |s.loaders| && Enabled(s, s.loaders[l], action)
    ensures var id, e := s.loaders[l].Id(), EffectOf(s, s.loaders[l], action);
            var s' := Perform(s, l, e);
            && (FetchesFor(e.loader, id) ==> !BeingLoaded(s, id) && BeingLoaded(s', id))
            && (BeingLoaded(s, id) && !BeingLoaded(s', id) ==> FetchesFor(s.loaders[l], id))
  {
    var e := EffectOf(s, s.loaders[l], action);
    EffectFits(s, s.loaders[l], action);
    LookupAfterPerform(s, l, e, s.loaders[l].Id());
  }

  lemma ActKeepsFetchesCovered<T>(s: Engine<T>, l: nat, action: Action, id: ChunkId, drops: nat)
    requires WellFormed(s) && l < |s.loaders| && Enabled(s, s.loaders[l], action)
    requires InFlight(s.loaders, id) <= drops + if BeingLoaded(s, id) then 1 else 0
    ensures var s' := Perform(s, l, EffectOf(s, s.loaders[l], action));
            InFlight(s'.loaders, id) <= drops + if BeingLoaded(s', id) then 1 else 0
  {
    var e := EffectOf(s, s.loaders[l], action);
    EffectFits(s, s.loaders[l], action);
    InFlightAfterUpdate(s.loaders, l, e.loader, id);
    assert Perform(s, l, e).loaders == s.loaders[l := e.loader];
    if s.loaders[l].Id() == id {
      OwnIdBalanced(s, l, action);
    } else {
      OtherIdUntouched(s, l, action, id);
    }
  }

  lemma StepKeepsFetchesCovered<T>(s: Engine<T>, step: Step<T>, id: ChunkId, drops: nat)
    requires WellFormed(s)
    requires InFlight(s.loaders, id) <= drops + if BeingLoaded(s, id) then 1 else 0
    ensures var s' := Apply(s, step);
            var more := if DropsFetch(s, step, id) then 1 else 0;
            InFlight(s'.loaders, id) <= drops + more + if BeingLoaded(s', id) then 1 else 0
  {
    hide EffectOf, InFlight;
    if step.Start? {
      NewLoaderFetchesNothing(s.loaders, Apply(s, step).loaders[|s.loaders|], id);
    } else if step.Act? && step.l < |s.loaders| && Enabled(s, s.loaders[step.l], step.action) {
      ActKeepsFetchesCovered(s, step.l, step.action, id, drops);
    }
  }

  lemma NewLoaderFetchesNothing<T>(loaders: seq<Loader<T>>, loader: Loader<T>, id: ChunkId)
    requires loader.phase.Calling?
    ensures InFlight(loaders + [loader], id) == InFlight(loaders, id)
  {
    assert (loaders + [loader])[..|loaders|] == loaders;
  }

  lemma {:induction false} FetchesCovered<T>(steps: seq<Step<T>>, id: ChunkId)
    ensures var s := After(Initial(), steps);
            WellFormed(s) && InFlight(s.loaders, id) <= Drops(steps, id) + if BeingLoaded(s, id) then 1 else 0
  {
    hide Apply, DropsFetch, BeingLoaded;
    if steps != [] {
      var n := |steps| - 1;
      FetchesCovered(steps[..n], id);
      var s, step := After(Initial(), steps[..n]), steps[n];
      ApplyKeepsWellFormed(s, step);
      StepKeepsFetchesCovered(s, step, id, Drops(steps[..n], id));
    }
  }

  /** Over every interleaving, whatever the sources: one fetch per chunk id at a time, plus one
      for each time a clear dropped that id while it was loading. */
  lemma OneFetchPerChunk<T>(steps: seq<Step<T>>, id: ChunkId)
    ensures InFlight(After(Initial(), steps).loaders, id) <= 1 + Drops(steps, id)
  {
    FetchesCovered(steps, id);
  }

  lemma {:induction false} NoClearsNoDrops<T>(steps: seq<Step<T>>, id: ChunkId)
    requires forall step :: step in steps ==> step.Start? || step.Act?
    ensures Drops(steps, id) == 0
  {
    if steps != [] {
      NoClearsNoDrops(steps[..|steps| - 1], id);
    }
  }

  /** So while nothing is cleared no chunk is fetched twice at once. */
  lemma WithoutClearsOneFetch<T>(steps: seq<Step<T>>, id: ChunkId)
    requires forall step :: step in steps ==> step.Start? || step.Act?
    ensures InFlight(After(Initial(), steps).loaders, id) <= 1
  {
    NoClearsNoDrops(steps, id);
    OneFetchPerChunk(steps, id);
  }

  lemma OneMoreStep<T>(steps: seq<Step<T>>, step: Step<T>)
    ensures After(Initial(), steps + [step]) == Apply(After(Initial(), steps), step)
    ensures forall id :: Drops(steps + [step], id) ==
                         Drops(steps, id) + if DropsFetch(After(Initial(), steps), step, id) then 1 else 0
  {
    assert (steps + [step])[..|steps|] == steps;
  }

  /** Extends a run by a step whose result is given. */
  lemma ThenStep<T>(steps: seq<Step<T>>, step: Step<T>, s': Engine<T>) returns (longer: seq<Step<T>>)
    requires Apply(After(Initial(), steps), step) == s'
    ensures longer == steps + [step] && After(Initial(), longer) == s'
  {
    OneMoreStep(steps, step);
    longer := steps + [step];
  }

  /** A load begun when nothing is registered starts one more fetch of the first chunk. */
  lemma StartAndCallFetches<T>(s: Engine<T>, source: seq<T>, size: int)
    requires s.registry == map[]
    ensures var s' := Apply(Apply(s, Start(source, size, 0)), Act(|s.loaders|, Call(0)));
            && |s'.loaders| == |s.loaders| + 1 && BeingLoaded(s', Key(0, size))
            && InFlight(s'.loaders, Key(0, size)) == InFlight(s.loaders, Key(0, size)) + 1
  {
    var s1 := Apply(s, Start(source, size, 0));
    var k := |s.loaders|;
    assert s1.loaders[..k] == s.loaders;
    InFlightAfterUpdate(s1.loaders, k, EffectOf(s1, s1.loaders[k], Call(0)).loader, Key(0, size));
  }

  /** The bound is met for every number of drops: clear while loading, start again, k times over. */
  lemma {:induction false} EachDropAllowsAnotherFetch<T>(source: seq<T>, size: int,
                                                         k: nat) returns (steps: seq<Step<T>>)
    ensures Drops(steps, Key(0, size)) == k
    ensures var s := After(Initial(), steps);
            InFlight(s.loaders, Key(0, size)) == k + 1 && |s.loaders| == k + 1 && BeingLoaded(s, Key(0, size))
  {
    var init: seq<Step<T>> := [];
    if k > 0 {
      var before := EachDropAllowsAnotherFetch(source, size, k - 1);
      OneMoreStep(before, ClearDataChunks);
      init := before + [ClearDataChunks];
    }
    StartAndCallFetches(After(Initial(), init), source, size);
    OneMoreStep(init, Start(source, size, 0));
    OneMoreStep(init + [Start(source, size, 0)], Act(k, Call(0)));
    steps := init + [Start(source, size, 0)] + [Act(k, Call(0))];
  }
}
