/** What chunk ids leave out: the provider. A load is served from the chunks that an earlier load
    with the same chunk size left in the registry, whatever the two sources are. */
module SharedChunks {
  import opened JsArrays
  import opened ChunkLoader
  import opened LoaderWaits

  /** The id is registered with a chunk that is loaded and holds `data`. */
  ghost predicate Settled<T>(s: Engine<T>, id: ChunkId, data: seq<T>) {
    var found := s.Lookup(id);
    found.Found? && found.chunk.state.Loaded? && found.chunk.data == data
  }

  /** While nothing is cleared, each fetch has a chunk of its own, registered and loading. */
  ghost predicate Exclusive<T>(s: Engine<T>) {
    && (forall l :: 0 <= l < |s.loaders| ==> FetchIsRegistered(s, s.loaders[l]))
    && (forall l, k :: 0 <= l < k < |s.loaders| && s.loaders[l].phase.Fetching? ==> s.loaders[k].phase != s.loaders[l].phase)
  }

  ghost predicate FetchIsRegistered<T>(s: Engine<T>, loader: Loader<T>) {
    loader.phase.Fetching? ==>
      loader.Id() in s.registry && s.registry[loader.Id()] == loader.phase.chunk && BeingLoaded(s, loader.Id())
  }

  lemma ActKeepsExclusive<T>(s: Engine<T>, l: nat, action: Action)
    requires WellFormed(s) && Exclusive(s) && l < |s.loaders| && Enabled(s, s.loaders[l], action)
    ensures Exclusive(Perform(s, l, EffectOf(s, s.loaders[l], action)))
  {
    var e := EffectOf(s, s.loaders[l], action);
    var s' := Perform(s, l, e);
    EffectFits(s, s.loaders[l], action);
    assert FetchIsRegistered(s, s.loaders[l]) && HoldsOwnChunk(s.chunks, s.loaders[l]);
    forall k | 0 <= k < |s'.loaders|
      ensures FetchIsRegistered(s', s'.loaders[k])
    {
      if k != l {
        assert FetchIsRegistered(s, s.loaders[k]) && HoldsOwnChunk(s.chunks, s.loaders[k]);
        LookupAfterPerform(s, l, e, s.loaders[k].Id());
      }
    }
    forall i, k | 0 <= i < k < |s'.loaders| && s'.loaders[i].phase.Fetching?
      ensures s'.loaders[k].phase != s'.loaders[i].phase
    {
      assert HoldsOwnChunk(s.chunks, s.loaders[i]) && HoldsOwnChunk(s.chunks, s.loaders[k]);
    }
  }

  /** Without clears, what is loaded stays as it is. */
  lemma SettledStays<T>(s: Engine<T>, step: Step<T>, id: ChunkId, data: seq<T>)
    requires WellFormed(s) && Exclusive(s) && Settled(s, id, data) && (step.Start? || step.Act?)
    ensures Settled(Apply(s, step), id, data)
  {
    if step.Act? && step.l < |s.loaders| && Enabled(s, s.loaders[step.l], step.action) {
      var e := EffectOf(s, s.loaders[step.l], step.action);
      EffectFits(s, s.loaders[step.l], step.action);
      assert FetchIsRegistered(s, s.loaders[step.l]);
      LookupAfterPerform(s, step.l, e, id);
    }
  }

  lemma StepKeepsExclusive<T>(s: Engine<T>, step: Step<T>)
    requires WellFormed(s) && Exclusive(s) && (step.Start? || step.Act?)
    ensures WellFormed(Apply(s, step)) && Exclusive(Apply(s, step))
  {
    ApplyKeepsWellFormed(s, step);
    if step.Start? {
      var s' := Apply(s, step);
      forall l | 0 <= l < |s'.loaders|
        ensures FetchIsRegistered(s', s'.loaders[l])
      {
        assert l < |s.loaders| ==> FetchIsRegistered(s, s.loaders[l]);
      }
    } else if step.l < |s.loaders| && Enabled(s, s.loaders[step.l], step.action) {
      ActKeepsExclusive(s, step.l, step.action);
    }
  }

  // Offsets.

  /** Where the chunks of a load start: at the multiples of the chunk size. */
  predicate Mark(o: int, size: int)
    decreases o
  {
    size >= 1 && (o == 0 || (o >= size && Mark(o - size, size)))
  }

  lemma {:induction false} MarksAreApart(o: int, p: int, size: int)
    requires Mark(o, size) && Mark(p, size) && o < p
    ensures 0 <= o && o + size <= p
    decreases o
  {
    if o > 0 {
      MarksAreApart(o - size, p - size, size);
    }
  }

  lemma NextMark(o: int, size: int)
    requires Mark(o, size)
    ensures o >= 0 && Mark(o + size, size)
    ensures forall p :: Mark(p, size) && p < o + size ==> p <= o
  {
    forall p | Mark(p, size) && o < p
      ensures o + size <= p
    {
      MarksAreApart(o, p, size);
    }
  }

  // What a load leaves behind.

  /** Every chunk of a load that ended with `data` is settled, the last one included. */
  ghost predicate Whole<T>(s: Engine<T>, data: seq<T>, size: int) {
    forall o :: Mark(o, size) && o <= |data| ==> Settled(s, Key(o, size), Slice(data, o, o + size))
  }

  /** The chunks before the loader's offset are settled. */
  ghost predicate Trail<T>(s: Engine<T>, loader: Loader<T>) {
    && |loader.data| == loader.offset
    && (forall o :: Mark(o, loader.size) && o < loader.offset ==>
          Settled(s, Key(o, loader.size), Slice(loader.data, o, o + loader.size)))
    && match loader.phase
       case Received(chunk) =>
         Mark(loader.offset, loader.size) && |chunk| <= loader.size && Settled(s, loader.Id(), chunk)
       case Delaying(length) => Mark(loader.offset, loader.size) <==> length >= loader.size
       case Completed => Whole(s, loader.data, loader.size)
       case Failed => true
       case _ => Mark(loader.offset, loader.size)
  }

  /** A chunk that is loaded holds no more elements than it was asked for. */
  ghost predicate ChunksFit<T>(s: Engine<T>) {
    forall c :: 0 <= c < |s.chunks| && s.chunks[c].size >= 1 ==> |s.chunks[c].data| <= s.chunks[c].size
  }

  ghost predicate Trails<T>(s: Engine<T>) {
    && WellFormed(s) && Exclusive(s) && ChunksFit(s)
    && forall l :: 0 <= l < |s.loaders| && s.loaders[l].size >= 1 ==> Trail(s, s.loaders[l])
  }

  lemma TrailStays<T>(s: Engine<T>, step: Step<T>, loader: Loader<T>)
    requires WellFormed(s) && Exclusive(s) && Trail(s, loader) && (step.Start? || step.Act?)
    ensures Trail(Apply(s, step), loader)
  {
    hide Settled, Slice, Mark, Apply;
    forall id, data | Settled(s, id, data)
      ensures Settled(Apply(s, step), id, data)
    {
      SettledStays(s, step, id, data);
    }
  }

  lemma SliceOfLonger<T>(data: seq<T>, chunk: seq<T>, o: nat, size: int)
    requires size >= 1 && o + size <= |data|
    ensures Slice(data + chunk, o, o + size) == Slice(data, o, o + size)
  {
  }

  lemma LastSlice<T>(data: seq<T>, chunk: seq<T>, size: int)
    requires size >= 1 && |chunk| <= size
    ensures Slice(data + chunk, |data|, |data| + size) == chunk
  {
  }

  /** Absorbing a chunk lengthens the trail by it. */
  lemma AbsorbLengthensTrail<T>(s: Engine<T>, loader: Loader<T>)
    requires loader.size >= 1 && Trail(s, loader) && loader.phase.Received?
    ensures Trail(s, loader.Absorb(loader.phase.chunkData))
  {
    hide Settled, Slice, Mark;
    var chunk, size := loader.phase.chunkData, loader.size;
    var next := loader.Absorb(chunk);
    NextMark(loader.offset, size);
    LastSlice(loader.data, chunk, size);
    assert loader.data + [] == loader.data;
    forall o | Mark(o, size) && o <= loader.offset
      ensures Settled(s, Key(o, size), Slice(loader.data + chunk, o, o + size))
    {
      if o < loader.offset {
        MarksAreApart(o, loader.offset, size);
        SliceOfLonger(loader.data, chunk, o, size);
      }
    }
  }

  lemma ActKeepsOwnTrail<T>(s: Engine<T>, l: nat, action: Action)
    requires Trails(s) && l < |s.loaders| && s.loaders[l].size >= 1 && Enabled(s, s.loaders[l], action)
    ensures var s' := Apply(s, Act(l, action)); Trail(s', s'.loaders[l])
  {
    hide Slice, Mark;
    var loader := s.loaders[l];
    var e := EffectOf(s, loader, action);
    var s' := Apply(s, Act(l, action));
    EffectFits(s, loader, action);
    LookupAfterPerform(s, l, e, loader.Id());
    assert Trail(s, loader) && FetchIsRegistered(s, loader);
    TrailStays(s, Act(l, action), loader);
    match action
    case Absorb => AbsorbLengthensTrail(s', loader);
    case Wake =>
    case FetchSucceeds => FetchedFits(loader);
    case _ =>
      var found := s.Lookup(loader.Id());
      assert found.Found? ==> found.chunk.size == loader.size && |found.chunk.data| <= found.chunk.size;
  }

  lemma FetchedFits<T>(loader: Loader<T>)
    requires loader.size >= 1 && loader.offset >= 0
    ensures |loader.Fetched()| <= loader.size
  {
  }

  lemma ActKeepsChunksFit<T>(s: Engine<T>, l: nat, action: Action)
    requires Trails(s) && l < |s.loaders| && Enabled(s, s.loaders[l], action)
    ensures ChunksFit(Apply(s, Act(l, action)))
  {
    hide Slice, Mark, Trail;
    var loader := s.loaders[l];
    EffectFits(s, loader, action);
    assert HoldsOwnChunk(s.chunks, loader);
    if action.FetchSucceeds? && loader.size >= 1 {
      assert loader.offset >= 0 by { OffsetIsNatural(s, loader); }
      FetchedFits(loader);
    }
  }

  lemma OffsetIsNatural<T>(s: Engine<T>, loader: Loader<T>)
    requires Trail(s, loader)
    ensures loader.offset >= 0
  {
  }

  lemma StepKeepsTrails<T>(s: Engine<T>, step: Step<T>)
    requires Trails(s) && (step.Start? || step.Act?)
    ensures Trails(Apply(s, step))
  {
    hide Trail, WellFormed, Exclusive;
    var s' := Apply(s, step);
    StepKeepsExclusive(s, step);
    var acts := step.Act? && step.l < |s.loaders| && Enabled(s, s.loaders[step.l], step.action);
    if acts {
      ActKeepsChunksFit(s, step.l, step.action);
      EffectFits(s, s.loaders[step.l], step.action);
    }
    forall l | 0 <= l < |s'.loaders| && s'.loaders[l].size >= 1
      ensures Trail(s', s'.loaders[l])
    {
      if l == |s.loaders| {
        NewLoaderTrail(s', s'.loaders[l]);
      } else if acts && l == step.l {
        ActKeepsOwnTrail(s, l, step.action);
      } else {
        TrailStays(s, step, s.loaders[l]);
      }
    }
  }

  lemma NewLoaderTrail<T>(s: Engine<T>, loader: Loader<T>)
    requires loader.size >= 1 && loader.offset == 0 && loader.data == [] && loader.phase == Calling
    ensures Trail(s, loader)
  {
    forall o | Mark(o, loader.size)
      ensures o >= 0
    {
      NextMark(o, loader.size);
    }
  }

  lemma {:induction false} RunLeavesTrails<T>(steps: seq<Step<T>>)
    requires NothingCleared(steps)
    ensures Trails(After(Initial(), steps))
  {
    if steps != [] {
      RunLeavesTrails(steps[..|steps| - 1]);
      StepKeepsTrails(After(Initial(), steps[..|steps| - 1]), steps[|steps| - 1]);
    }
  }

  lemma {:induction false} MarkIsMultiple(o: int, size: int) returns (k: nat)
    requires Mark(o, size)
    ensures o == k * size
    decreases o
  {
    if o == 0 {
      k := 0;
    } else {
      var j := MarkIsMultiple(o - size, size);
      k := j + 1;
      assert j * size + size == (j + 1) * size;
    }
  }

  /** Over every interleaving without clears, a load asks for chunks at multiples of its chunk
      size only: one that got a short chunk asks for nothing more. */
  lemma LoadsAskAtMultiples<T>(steps: seq<Step<T>>, l: nat) returns (k: nat)
    requires NothingCleared(steps) && l < |After(Initial(), steps).loaders|
    requires var loader := After(Initial(), steps).loaders[l];
             loader.size >= 1 && (loader.phase.Calling? || loader.phase.Fetching? || loader.phase.Polling?)
    ensures var loader := After(Initial(), steps).loaders[l];
            loader.offset == |loader.data| == k * loader.size
  {
    RunLeavesTrails(steps);
    var loader := After(Initial(), steps).loaders[l];
    assert Trail(After(Initial(), steps), loader);
    k := MarkIsMultiple(loader.offset, loader.size);
  }

  // What a later load is handed.

  /** The loader copies `data`: it holds a prefix and never fetches, waits or fails. */
  ghost predicate Copies<T>(loader: Loader<T>, data: seq<T>) {
    && 0 <= loader.offset <= |data| && loader.data == data[..loader.offset]
    && match loader.phase
       case Calling => Mark(loader.offset, loader.size)
       case Received(chunk) =>
         Mark(loader.offset, loader.size) && chunk == Slice(data, loader.offset, loader.offset + loader.size)
       case Delaying(length) =>
         if length < loader.size then loader.offset == |data| else Mark(loader.offset, loader.size)
       case Completed => loader.offset == |data|
       case _ => false
  }

  lemma SliceEnds<T>(data: seq<T>, o: nat, size: int)
    requires size >= 1 && o <= |data|
    ensures var chunk := Slice(data, o, o + size);
            && |chunk| == (if o + size <= |data| then size else |data| - o)
            && data[..o] + chunk == data[..o + |chunk|]
  {
  }

  lemma CopyGoesOn<T>(s: Engine<T>, loader: Loader<T>, action: Action, data: seq<T>)
    requires loader.size >= 1 && Whole(s, data, loader.size) && Copies(loader, data) && Enabled(s, loader, action)
    ensures Copies(EffectOf(s, loader, action).loader, data)
  {
    hide Mark, Slice;
    if action.Call? {
      assert Settled(s, Key(loader.offset, loader.size), Slice(data, loader.offset, loader.offset + loader.size));
    } else if action.Absorb? {
      NextMark(loader.offset, loader.size);
      SliceEnds(data, loader.offset, loader.size);
    }
  }

  lemma WholeStays<T>(s: Engine<T>, step: Step<T>, data: seq<T>, size: int)
    requires WellFormed(s) && Exclusive(s) && Whole(s, data, size) && (step.Start? || step.Act?)
    ensures Whole(Apply(s, step), data, size)
  {
    hide Settled, Slice, Mark, Apply;
    forall o | Mark(o, size) && o <= |data|
      ensures Settled(Apply(s, step), Key(o, size), Slice(data, o, o + size))
    {
      SettledStays(s, step, Key(o, size), Slice(data, o, o + size));
    }
  }

  /** Every load with the chunk size begun after the first `from` loads copies `data`. */
  ghost predicate LaterLoadsCopy<T>(s: Engine<T>, from: nat, data: seq<T>, size: int) {
    && WellFormed(s) && Exclusive(s) && Whole(s, data, size)
    && forall m :: from <= m < |s.loaders| && s.loaders[m].size == size ==> Copies(s.loaders[m], data)
  }

  lemma StepKeepsCopying<T>(s: Engine<T>, step: Step<T>, from: nat, data: seq<T>, size: int)
    requires size >= 1 && from <= |s.loaders| && LaterLoadsCopy(s, from, data, size) && (step.Start? || step.Act?)
    ensures |s.loaders| <= |Apply(s, step).loaders| && LaterLoadsCopy(Apply(s, step), from, data, size)
  {
    hide WellFormed, Exclusive, Whole, Copies;
    var s' := Apply(s, step);
    StepKeepsExclusive(s, step);
    WholeStays(s, step, data, size);
    var acts := step.Act? && step.l < |s.loaders| && Enabled(s, s.loaders[step.l], step.action);
    if acts {
      EffectFits(s, s.loaders[step.l], step.action);
    }
    forall m | from <= m < |s'.loaders| && s'.loaders[m].size == size
      ensures Copies(s'.loaders[m], data)
    {
      if m == |s.loaders| {
        NewLoaderCopies(s'.loaders[m], data);
      } else if acts && m == step.l {
        CopyGoesOn(s, s.loaders[m], step.action, data);
      }
    }
  }

  lemma NewLoaderCopies<T>(loader: Loader<T>, data: seq<T>)
    requires loader.size >= 1 && loader.offset == 0 && loader.data == [] && loader.phase == Calling
    ensures Copies(loader, data)
  {
  }

  lemma {:induction false} LaterLoadsGoOnCopying<T>(s: Engine<T>, more: seq<Step<T>>, data: seq<T>, size: int)
    requires WellFormed(s) && Exclusive(s) && Whole(s, data, size) && size >= 1 && NothingCleared(more)
    ensures |s.loaders| <= |After(s, more).loaders| && LaterLoadsCopy(After(s, more), |s.loaders|, data, size)
  {
    hide WellFormed, Exclusive, Whole, Copies;
    if more != [] {
      LaterLoadsGoOnCopying(s, more[..|more| - 1], data, size);
      StepKeepsCopying(After(s, more[..|more| - 1]), more[|more| - 1], |s.loaders|, data, size);
    }
  }

  /** Over every interleaving of loads of any sources in which nothing is cleared: once a load
      has completed, every load begun later with the same chunk size holds a prefix of what the
      first one loaded, does not fail, and holds all of it when it completes. */
  lemma LaterLoadsGetTheFirstsData<T>(steps: seq<Step<T>>, more: seq<Step<T>>, l: nat, m: nat)
    requires NothingCleared(steps) && NothingCleared(more)
    requires var s := After(Initial(), steps);
             l < |s.loaders| <= m < |After(s, more).loaders| && s.loaders[l].phase.Completed? && s.loaders[l].size >= 1
    requires After(After(Initial(), steps), more).loaders[m].size == After(Initial(), steps).loaders[l].size
    ensures var first, later := After(Initial(), steps).loaders[l], After(After(Initial(), steps), more).loaders[m];
            later.data <= first.data && !later.phase.Failed? && (later.phase.Completed? ==> later.data == first.data)
  {
    var s := After(Initial(), steps);
    RunLeavesTrails(steps);
    assert Trail(s, s.loaders[l]);
    LaterLoadsGoOnCopying(s, more, s.loaders[l].data, s.loaders[l].size);
    assert Copies(After(s, more).loaders[m], s.loaders[l].data);
  }

  // Runs over two sources.

  ghost predicate LoadsOnly<T>(steps: seq<Step<T>>, sources: set<seq<T>>) {
    forall step :: step in steps && step.Start? ==> step.source in sources && step.size >= 1
  }

  /** Every loader that completed holds its own source. */
  ghost predicate CompletedLoadsAreOwn<T>(s: Engine<T>) {
    forall l :: 0 <= l < |s.loaders| && s.loaders[l].phase.Completed? ==> s.loaders[l].data == s.loaders[l].source
  }

  /** No fetch of the run failed, so no load and no chunk did. */
  ghost predicate NoneFailed<T>(s: Engine<T>) {
    && (forall c :: 0 <= c < |s.chunks| ==> !s.chunks[c].state.Error?)
    && (forall l :: 0 <= l < |s.loaders| ==> !s.loaders[l].phase.Failed?)
  }

  lemma {:induction false} WithoutFailures<T>(steps: seq<Step<T>>)
    requires forall step :: step in steps ==> step.Start? || GoesOn(step)
    ensures NoneFailed(After(Initial(), steps))
  {
    if steps != [] {
      var n := |steps| - 1;
      var s, step := After(Initial(), steps[..n]), steps[n];
      WithoutFailures(steps[..n]);
      if step.Act? && step.l < |s.loaders| && Enabled(s, s.loaders[step.l], step.action) {
        assert Apply(s, step).loaders == s.loaders[step.l := EffectOf(s, s.loaders[step.l], step.action).loader];
      }
    }
  }

  /** Every run without clears and failures can be continued until all its loads complete. */
  lemma CompleteAll<T>(steps: seq<Step<T>>, longest: nat) returns (more: seq<Step<T>>)
    requires forall step :: step in steps ==> (step.Start? && |step.source| <= longest) || GoesOn(step)
    ensures forall step :: step in more ==> GoesOn(step)
    ensures var s := After(Initial(), steps);
            var s' := After(s, more);
            s' == After(Initial(), steps + more) && |s'.loaders| == |s.loaders| &&
            forall l :: 0 <= l < |s'.loaders| ==> s'.loaders[l].phase.Completed?
  {
    hide After, Within;
    MovesAreCovered(steps, longest);
    assert AlwaysHarmless(steps);
    HarmlessUpTo(steps, |steps|);
    assert steps[..|steps|] == steps;
    more := LoadsCanEnd(After(Initial(), steps), longest);
    AfterAppend(Initial(), steps, more);
    WithoutFailures(steps + more);
  }

  /** For every chunk size: after a completed load of `a`, a load of `b` completes with `a`. */
  lemma SecondLoadGetsTheFirstsData<T>(a: seq<T>, b: seq<T>, size: int) returns (steps: seq<Step<T>>)
    requires size >= 1
    ensures forall step :: step in steps && step.Start? ==> step.source in {a, b} && step.size == size
    ensures var s := After(Initial(), steps);
            && |s.loaders| == 2 && s.loaders[0].phase.Completed? && s.loaders[1].phase.Completed?
            && s.loaders[0].source == s.loaders[0].data == a && s.loaders[1].source == b && s.loaders[1].data == a
  {
    hide Apply;
    var longest := if |a| < |b| then |b| else |a|;
    var first := FirstLoadCompletes(a, size, longest);
    var second := first + [Start(b, size, 0)];
    SecondLoadStarts(first, b, size);
    var rest := CompleteAll(second, longest);
    steps := second + rest;
    LoadersKeepTheirTerms(After(Initial(), second), rest, 0);
    LoadersKeepTheirTerms(After(Initial(), second), rest, 1);
    assert steps == first + ([Start(b, size, 0)] + rest);
    AfterAppend(Initial(), first, [Start(b, size, 0)] + rest);
    LaterLoadsGetTheFirstsData(first, [Start(b, size, 0)] + rest, 0, 1);
  }

  lemma FirstLoadCompletes<T>(a: seq<T>, size: int, longest: nat) returns (steps: seq<Step<T>>)
    requires size >= 1 && |a| <= longest
    ensures forall step :: step in steps ==> step == Start(a, size, 0) || GoesOn(step)
    ensures var s := After(Initial(), steps);
            && |s.loaders| == 1 && s.loaders[0].phase.Completed?
            && s.loaders[0].size == size && s.loaders[0].source == s.loaders[0].data == a
  {
    var start: seq<Step<T>> := [Start(a, size, 0)];
    assert start[..0] == [];
    assert After(Initial(), start).loaders == [Loader(a, size, 0, [], 0, Calling)];
    var more := CompleteAll(start, longest);
    steps := start + more;
    LoadersKeepTheirTerms(After(Initial(), start), more, 0);
    LoadersHoldPrefixes(steps, a, 0);
  }

  lemma SecondLoadStarts<T>(steps: seq<Step<T>>, b: seq<T>, size: int)
    ensures After(Initial(), steps + [Start(b, size, 0)]).loaders ==
            After(Initial(), steps).loaders + [Loader(b, size, 0, [], 0, Calling)]
  {
    OneMoreStep(steps, Start(b, size, 0));
  }

  /** Chunk ids name a range but not a provider. Completed loads hold their own source in every
      run over two sources exactly when the two sources are equal. */
  lemma SourcesMustAgree<T(!new)>(a: seq<T>, b: seq<T>)
    ensures (forall steps: seq<Step<T>> :: LoadsOnly(steps, {a, b}) ==> CompletedLoadsAreOwn(After(Initial(), steps)))
            <==> a == b
  {
    if a == b {
      forall steps: seq<Step<T>> | LoadsOnly(steps, {a, b})
        ensures CompletedLoadsAreOwn(After(Initial(), steps))
      {
        RunIsFaithful(steps, a);
        SizesComeFromStarts(steps);
      }
    } else {
      var steps := SecondLoadGetsTheFirstsData(a, b, 1);
      assert LoadsOnly(steps, {a, b}) && !CompletedLoadsAreOwn(After(Initial(), steps));
    }
  }

  lemma {:induction false} SizesComeFromStarts<T>(steps: seq<Step<T>>)
    requires forall step :: step in steps && step.Start? ==> step.size >= 1
    ensures forall l :: 0 <= l < |After(Initial(), steps).loaders| ==> After(Initial(), steps).loaders[l].size >= 1
  {
    if steps != [] {
      var n := |steps| - 1;
      var s, step := After(Initial(), steps[..n]), steps[n];
      SizesComeFromStarts(steps[..n]);
      if step.Act? && step.l < |s.loaders| && Enabled(s, s.loaders[step.l], step.action) {
        EffectFits(s, s.loaders[step.l], step.action);
        assert Apply(s, step).loaders == s.loaders[step.l := EffectOf(s, s.loaders[step.l], step.action).loader];
      }
    }
  }
}
