/** Runs of the cache: range reads of any sources, lookups, stores, evictions, sweeps and clears
    in any order. */
module CacheRuns {
  import opened JsArrays
  import opened ChunkKeys
  import opened RangeCache
  import opened StableSort

  datatype Op<T> =
    | ReadRange(source: seq<T>, start: int, end: int, now: int)
    | GetKey(key: string, now: int)
    | SetKey(key: string, data: seq<T>, size: int, ttl: int, now: int)
    | EvictShare(percent: nat)
    | Cleanup(now: int)
    | Clear

  /** The engine a run works on: its size limit and its estimate of sizes. */
  datatype Setting<!T> = Setting(maxSize: int, sizeOf: seq<T> -> int)
  {
    function Read(entries: Entries<T>, source: seq<T>, start: int, end: int, now: int): Read<T> {
      GetItems(entries, maxSize, source, start, end, sizeOf, now)
    }
  }

  function Apply<T>(c: Setting<T>, entries: Entries<T>, op: Op<T>): Entries<T> {
    match op
    case ReadRange(source, start, end, now) => c.Read(entries, source, start, end, now).entries
    case GetKey(key, now) => Get(entries, key, now).entries
    case SetKey(key, data, size, ttl, now) => Set(entries, c.maxSize, NewEntry(key, data, size, ttl, now))
    case EvictShare(percent) => if percent <= 100 then Evict(entries, percent) else entries
    case Cleanup(now) => Remove(entries, ExpiredKeys(entries, now))
    case Clear => []
  }

  function Run<T>(c: Setting<T>, ops: seq<Op<T>>): Entries<T> {
    if ops == [] then [] else Apply(c, Run(c, ops[..|ops| - 1]), ops[|ops| - 1])
  }

  /** A property of entries that an access does not change. */
  ghost predicate Stable<T(!new)>(P: Entry<T> -> bool) {
    forall e: Entry<T>, now: int {:trigger e.Touched(now)} :: P(e) ==> P(e.Touched(now))
  }

  ghost predicate All<T>(entries: Entries<T>, P: Entry<T> -> bool) {
    forall i :: 0 <= i < |entries| ==> P(entries[i])
  }

  lemma AllAfterRemove<T>(entries: Entries<T>, keys: set<string>, P: Entry<T> -> bool)
    requires All(entries, P)
    ensures All(Remove(entries, keys), P)
  {
    forall i | 0 <= i < |Remove(entries, keys)|
      ensures P(Remove(entries, keys)[i])
    {
      RemoveKeeps(entries, keys, Remove(entries, keys)[i]);
    }
  }

  lemma SetKeepsAll<T>(entries: Entries<T>, maxSize: int, e: Entry<T>, P: Entry<T> -> bool)
    requires UniqueKeys(entries) && All(entries, P) && P(e)
    ensures UniqueKeys(Set(entries, maxSize, e)) && All(Set(entries, maxSize, e), P)
  {
    var put := Put(entries, e);
    assert UniqueKeys(put) && All(put, P);
    AllAfterRemove(put, OldestKeys(put, Share(|put|, 20)), P);
    RemoveKeepsUnique(put, OldestKeys(put, Share(|put|, 20)));
  }

  lemma GetKeepsAll<T(!new)>(entries: Entries<T>, key: string, now: int, P: Entry<T> -> bool)
    requires UniqueKeys(entries) && All(entries, P) && Stable(P)
    ensures var o := Get(entries, key, now);
            UniqueKeys(o.entries) && All(o.entries, P) && (o.got.Hit? ==> P(o.got.entry) && o.got.entry.key == key)
  {
    AllAfterRemove(entries, {key}, P);
    RemoveKeepsUnique(entries, {key});
  }

  /** Every entry an operation stores satisfies P. */
  ghost predicate Stores<T>(c: Setting<T>, op: Op<T>, P: Entry<T> -> bool) {
    match op
    case ReadRange(source, start, end, now) => P(ChunkEntry(source, start, end, c.sizeOf, now))
    case SetKey(key, data, size, ttl, now) => P(NewEntry(key, data, size, ttl, now))
    case _ => true
  }

  lemma ApplyKeepsAll<T(!new)>(c: Setting<T>, entries: Entries<T>, op: Op<T>, P: Entry<T> -> bool)
    requires UniqueKeys(entries) && All(entries, P) && Stable(P) && Stores(c, op, P)
    ensures UniqueKeys(Apply(c, entries, op)) && All(Apply(c, entries, op), P)
  {
    hide Key, Slice, Set;
    match op
    case ReadRange(source, start, end, now) =>
      var key := ChunkKey(source, start, end);
      GetKeepsAll(entries, key, now, P);
      SetKeepsAll(Get(entries, key, now).entries, c.maxSize, ChunkEntry(source, start, end, c.sizeOf, now), P);
    case GetKey(key, now) => GetKeepsAll(entries, key, now, P);
    case SetKey(key, data, size, ttl, now) => SetKeepsAll(entries, c.maxSize, NewEntry(key, data, size, ttl, now), P);
    case EvictShare(percent) =>
      if percent <= 100 {
        AllAfterRemove(entries, OldestKeys(entries, Share(|entries|, percent)), P);
        RemoveKeepsUnique(entries, OldestKeys(entries, Share(|entries|, percent)));
      }
    case Cleanup(now) =>
      AllAfterRemove(entries, ExpiredKeys(entries, now), P);
      RemoveKeepsUnique(entries, ExpiredKeys(entries, now));
    case Clear =>
  }

  lemma {:induction false} RunKeepsAll<T(!new)>(c: Setting<T>, ops: seq<Op<T>>, P: Entry<T> -> bool)
    requires Stable(P) && forall i :: 0 <= i < |ops| ==> Stores(c, ops[i], P)
    ensures UniqueKeys(Run(c, ops)) && All(Run(c, ops), P)
  {
    if ops != [] {
      RunKeepsAll(c, ops[..|ops| - 1], P);
      ApplyKeepsAll(c, Run(c, ops[..|ops| - 1]), ops[|ops| - 1], P);
    }
  }

  // The cache is invisible.

  /** What is stored under a range key is that range of the source. */
  ghost predicate Coherent<T>(e: Entry<T>, source: seq<T>) {
    forall a, b :: e.key == Key(a, b) ==> e.data == Slice(source, a, b)
  }

  lemma RangeEntryIsCoherent<T>(e: Entry<T>, source: seq<T>, a: int, b: int)
    requires e.key == Key(a, b) && e.data == Slice(source, a, b)
    ensures Coherent(e, source)
  {
    hide Key, Slice;
    forall a', b' | e.key == Key(a', b')
      ensures e.data == Slice(source, a', b')
    {
      KeyIsInjective(a, b, a', b');
    }
  }

  /** Reads of any sources are served from one of them, as long as every chunk read is also a
      chunk of that one. */
  lemma ReadsAreServedFrom<T(!new)>(c: Setting<T>, all: seq<T>, ops: seq<Op<T>>, source: seq<T>,
                                    start: int, end: int, now: int)
    requires forall i :: 0 <= i < |ops| ==> Stores(c, ops[i], (e: Entry<T>) => Coherent(e, all))
    requires Chunk(source, start, end) == Slice(all, From(start), To(source, end))
    ensures c.Read(Run(c, ops), source, start, end, now).items == Chunk(source, start, end)
  {
    hide Key, Slice, Set;
    var P := (e: Entry<T>) => Coherent(e, all);
    assert forall i :: 0 <= i < |ops| ==> Stores(c, ops[i], P);
    RunKeepsAll(c, ops, P);
    GetKeepsAll(Run(c, ops), ChunkKey(source, start, end), now, P);
  }

  /** Over every run on one source, with reads, evictions, sweeps and clears in any order, a
      range read returns the same slice as an uncached one. The slice is the requested range
      exactly when a negative end does not reach back past the start. */
  lemma CacheIsInvisible<T(!new)>(c: Setting<T>, source: seq<T>, ops: seq<Op<T>>, start: int, end: int, now: int)
    requires forall i :: 0 <= i < |ops| && ops[i].ReadRange? ==> ops[i].source == source
    requires forall i :: 0 <= i < |ops| && ops[i].SetKey? ==>
               Coherent(NewEntry(ops[i].key, ops[i].data, ops[i].size, ops[i].ttl, ops[i].now), source)
    ensures var items := c.Read(Run(c, ops), source, start, end, now).items;
            && items == Slice(source, From(start), To(source, end))
            && (items == Range(source, start, end) <==> end >= 0 || From(start) >= |source| + end)
  {
    var P := (e: Entry<T>) => Coherent(e, source);
    forall i | 0 <= i < |ops|
      ensures Stores(c, ops[i], P)
    {
      if ops[i].ReadRange? {
        RangeEntryIsCoherent(ChunkEntry(source, ops[i].start, ops[i].end, c.sizeOf, ops[i].now), source,
                             From(ops[i].start), To(source, ops[i].end));
      }
    }
    ReadsAreServedFrom(c, source, ops, source, start, end, now);
    ChunkIsRange(source, start, end);
  }

  lemma ChunkIsRange<T>(source: seq<T>, start: int, end: int)
    ensures Chunk(source, start, end) == Range(source, start, end) <==> end >= 0 || From(start) >= |source| + end
  {
    SliceIsRange(source, From(start), To(source, end));
    assert Range(source, From(start), To(source, end)) == Range(source, start, end);
  }

  // Two sources.

  /** Reads of the given sources up to a non-negative end, and no stores from outside. */
  ghost predicate ReadsOnly<T>(ops: seq<Op<T>>, sources: set<seq<T>>) {
    forall i :: 0 <= i < |ops| ==>
      !ops[i].SetKey? && (ops[i].ReadRange? ==> ops[i].source in sources && ops[i].end >= 0)
  }

  /** After the run, a read of the source returns its own range. */
  ghost predicate ReadsOwnRange<T>(c: Setting<T>, ops: seq<Op<T>>, source: seq<T>, start: int, end: int, now: int) {
    c.Read(Run(c, ops), source, start, end, now).items == Range(source, start, end)
  }

  lemma PrefixChunk<T>(a: seq<T>, b: seq<T>, start: int, end: int)
    requires a <= b && end >= 0
    ensures Chunk(a, start, end) == Slice(b, From(start), To(a, end))
  {
  }

  lemma PrefixesReadTheirOwn<T(!new)>(c: Setting<T>, a: seq<T>, b: seq<T>, ops: seq<Op<T>>, source: seq<T>,
                                      start: int, end: int, now: int)
    requires a <= b && ReadsOnly(ops, {a, b}) && source in {a, b} && end >= 0
    ensures ReadsOwnRange(c, ops, source, start, end, now)
  {
    hide Key, Slice, Run;
    forall i | 0 <= i < |ops|
      ensures Stores(c, ops[i], (e: Entry<T>) => Coherent(e, b))
    {
      if ops[i].ReadRange? {
        var op := ops[i];
        PrefixChunk(a, b, op.start, op.end);
        RangeEntryIsCoherent(ChunkEntry(op.source, op.start, op.end, c.sizeOf, op.now), b,
                             From(op.start), To(op.source, op.end));
      }
    }
    PrefixChunk(a, b, start, end);
    ReadsAreServedFrom(c, b, ops, source, start, end, now);
    ChunkIsRange(source, start, end);
  }

  lemma {:induction false} FirstDifference<T>(a: seq<T>, b: seq<T>) returns (i: nat)
    requires !(a <= b) && !(b <= a)
    ensures i < |a| && i < |b| && a[i] != b[i]
  {
    if a[0] != b[0] {
      i := 0;
    } else {
      var k := FirstDifference(a[1..], b[1..]);
      i := k + 1;
    }
  }

  lemma FirstReadIsStored<T>(c: Setting<T>, source: seq<T>, start: int, end: int, now: int)
    ensures Run(c, [ReadRange(source, start, end, now)]) == [ChunkEntry(source, start, end, c.sizeOf, now)]
  {
    hide Key, Slice, Enforce;
    var op := ReadRange(source, start, end, now);
    assert [op][..0] == [];
    var e := ChunkEntry(source, start, end, c.sizeOf, now);
    assert Get<T>([], e.key, now) == Outcome([], Miss);
    assert Put([], e) == [e];
    FewEntriesStay([e], c.maxSize);
  }

  lemma StoredIsServed<T>(e: Entry<T>, now: int)
    requires e.expiresAt == Never
    ensures Get([e], e.key, now).got == Hit(e.Touched(now))
  {
    assert IndexOf([e], e.key) == 0;
  }

  lemma ChunkOfOne<T>(source: seq<T>, i: nat)
    requires i < |source|
    ensures ChunkKey(source, i, i + 1) == Key(i, i + 1) && Chunk(source, i, i + 1) == [source[i]]
  {
    hide Key;
  }

  /** On an empty cache, a read of one element of `a` is handed to the next read of `b` there. */
  lemma SecondReadGetsTheFirsts<T>(c: Setting<T>, a: seq<T>, b: seq<T>, i: nat)
    requires i < |a| && i < |b|
    ensures c.Read(Run(c, [ReadRange(a, i, i + 1, 0)]), b, i, i + 1, 0).items == [a[i]]
  {
    ChunkOfOne(a, i);
    ChunkOfOne(b, i);
    hide Key, Slice, Run, Set, Get, ChunkKey, Chunk;
    FirstReadIsStored(c, a, i, i + 1, 0);
    StoredIsServed(ChunkEntry(a, i, i + 1, c.sizeOf, 0), 0);
  }

  lemma ReadsClash<T>(c: Setting<T>, a: seq<T>, b: seq<T>) returns (ops: seq<Op<T>>, i: nat)
    requires !(a <= b) && !(b <= a)
    ensures ReadsOnly(ops, {a, b}) && !ReadsOwnRange(c, ops, b, i, i + 1, 0)
  {
    hide Run;
    i := FirstDifference(a, b);
    ops := [ReadRange(a, i, i + 1, 0)];
    SecondReadGetsTheFirsts(c, a, b, i);
    assert Range(b, i, i + 1) == [b[i]];
  }

  /** Range keys name a range but not a source. Over every run of reads by two providers, with
      evictions, sweeps and clears anywhere, every read returns the reader's own range exactly
      when one source is a prefix of the other. */
  lemma ProvidersMustAgree<T(!new)>(c: Setting<T>, a: seq<T>, b: seq<T>)
    ensures (forall ops, source, start, end, now ::
               ReadsOnly(ops, {a, b}) && source in {a, b} && end >= 0 ==> ReadsOwnRange(c, ops, source, start, end, now))
            <==> a <= b || b <= a
  {
    hide ReadsOnly, ReadsOwnRange;
    if a <= b || b <= a {
      forall ops, source, start, end, now | ReadsOnly(ops, {a, b}) && source in {a, b} && end >= 0
        ensures ReadsOwnRange(c, ops, source, start, end, now)
      {
        if a <= b {
          PrefixesReadTheirOwn(c, a, b, ops, source, start, end, now);
        } else {
          assert {b, a} == {a, b};
          PrefixesReadTheirOwn(c, b, a, ops, source, start, end, now);
        }
      }
    } else {
      var ops, i := ReadsClash(c, a, b);
    }
  }

  // How many entries there can be, and how large they can be together.

  lemma {:induction false} TotalIsAtLeastCount<T>(entries: Entries<T>)
    requires All(entries, (e: Entry<T>) => e.size >= 1)
    ensures TotalSize(entries) >= |entries|
  {
    if entries != [] {
      TotalIsAtLeastCount(entries[..|entries| - 1]);
    }
  }

  lemma {:induction false} TotalIsAtMost<T>(entries: Entries<T>, largest: int)
    requires All(entries, (e: Entry<T>) => e.size <= largest)
    ensures TotalSize(entries) <= largest * |entries|
  {
    if entries != [] {
      var n := |entries| - 1;
      TotalIsAtMost(entries[..n], largest);
      assert largest * (n + 1) == largest * n + largest;
    }
  }

  lemma {:induction false} TotalAfterUpdate<T>(entries: Entries<T>, i: nat, e: Entry<T>)
    requires i < |entries|
    ensures TotalSize(entries[i := e]) == TotalSize(entries) - entries[i].size + e.size
  {
    var n := |entries| - 1;
    if i < n {
      TotalAfterUpdate(entries[..n], i, e);
      assert entries[i := e][..n] == entries[..n][i := e];
    } else {
      assert entries[i := e][..n] == entries[..n];
    }
  }

  lemma {:induction false} RemoveShrinks<T>(entries: Entries<T>, keys: set<string>)
    requires All(entries, (e: Entry<T>) => e.size >= 1)
    ensures |Remove(entries, keys)| <= |entries| && TotalSize(Remove(entries, keys)) <= TotalSize(entries)
  {
    if entries != [] {
      var n := |entries| - 1;
      RemoveShrinks(entries[..n], keys);
      var init := Remove(entries[..n], keys);
      assert (init + [entries[n]])[..|init|] == init;
    }
  }

  lemma PutGrows<T>(entries: Entries<T>, e: Entry<T>)
    requires All(entries, (x: Entry<T>) => x.size >= 1)
    ensures |entries| <= |Put(entries, e)| <= |entries| + 1
    ensures TotalSize(Put(entries, e)) <= TotalSize(entries) + e.size
  {
    var i := IndexOf(entries, e.key);
    if i < |entries| {
      TotalAfterUpdate(entries, i, e);
    } else {
      assert (entries + [e])[..|entries|] == entries;
    }
  }

  lemma GetShrinks<T(!new)>(entries: Entries<T>, key: string, now: int)
    requires UniqueKeys(entries) && All(entries, (e: Entry<T>) => e.size >= 1)
    ensures var rest := Get(entries, key, now).entries;
            |rest| <= |entries| && TotalSize(rest) <= TotalSize(entries)
  {
    RemoveShrinks(entries, {key});
    var i := IndexOf(entries, key);
    if i < |entries| {
      TotalAfterUpdate(entries, i, entries[i].Touched(now));
    }
  }

  /** Every operation drops or touches entries, and at most one is stored after that. */
  lemma ApplyIsDropThenStore<T(!new)>(c: Setting<T>, entries: Entries<T>, op: Op<T>, P: Entry<T> -> bool)
    returns (rest: Entries<T>, e: Entry<T>)
    requires UniqueKeys(entries) && All(entries, P) && Stable(P) && Stores(c, op, P)
    requires All(entries, (x: Entry<T>) => x.size >= 1)
    ensures UniqueKeys(rest) && All(rest, P) && |rest| <= |entries| && TotalSize(rest) <= TotalSize(entries)
    ensures Apply(c, entries, op) == rest || (P(e) && Apply(c, entries, op) == Set(rest, c.maxSize, e))
  {
    hide Set, Key, Slice;
    rest, e := entries, NewEntry("", [], 1, 0, 0);
    match op
    case ReadRange(source, start, end, now) =>
      var key := ChunkKey(source, start, end);
      GetKeepsAll(entries, key, now, P);
      GetShrinks(entries, key, now);
      rest, e := Get(entries, key, now).entries, ChunkEntry(source, start, end, c.sizeOf, now);
    case GetKey(key, now) =>
      GetKeepsAll(entries, key, now, P);
      GetShrinks(entries, key, now);
      rest := Get(entries, key, now).entries;
    case SetKey(key, data, size, ttl, now) => e := NewEntry(key, data, size, ttl, now);
    case EvictShare(percent) =>
      if percent <= 100 {
        rest := Without(entries, OldestKeys(entries, Share(|entries|, percent)), P);
      }
    case Cleanup(now) => rest := Without(entries, ExpiredKeys(entries, now), P);
    case Clear =>
      TotalIsAtLeastCount(entries);
      rest := [];
  }

  lemma Without<T>(entries: Entries<T>, keys: set<string>, P: Entry<T> -> bool) returns (rest: Entries<T>)
    requires UniqueKeys(entries) && All(entries, P) && All(entries, (x: Entry<T>) => x.size >= 1)
    ensures rest == Remove(entries, keys) && UniqueKeys(rest) && All(rest, P)
    ensures |rest| <= |entries| && TotalSize(rest) <= TotalSize(entries)
  {
    rest := Remove(entries, keys);
    AllAfterRemove(entries, keys, P);
    RemoveKeepsUnique(entries, keys);
    RemoveShrinks(entries, keys);
  }

  function Capacity(maxSize: int): nat {
    if maxSize < 4 then 4 else maxSize
  }

  /** Storing an entry either meets the size limit, or evicts a fifth of the entries. */
  lemma SetMeetsLimitOrEvicts<T>(entries: Entries<T>, maxSize: int, e: Entry<T>)
    requires UniqueKeys(entries) && All(entries, (x: Entry<T>) => x.size >= 1) && e.size >= 1
    ensures var put, kept := Put(entries, e), Set(entries, maxSize, e);
            if TotalSize(put) <= maxSize then kept == put && |put| <= maxSize
            else |kept| == |put| - |put| / 5 && TotalSize(kept) <= TotalSize(entries) + e.size
  {
    var put := Put(entries, e);
    assert UniqueKeys(put) && All(put, (x: Entry<T>) => x.size >= 1);
    TotalIsAtLeastCount(put);
    PutGrows(entries, e);
    EvictionIsLRU(put, 20);
    RemoveShrinks(put, OldestKeys(put, Share(|put|, 20)));
  }

  lemma SetStaysWithinCapacity<T>(entries: Entries<T>, maxSize: int, e: Entry<T>)
    requires UniqueKeys(entries) && All(entries, (x: Entry<T>) => x.size >= 1) && e.size >= 1
    requires |entries| <= Capacity(maxSize)
    ensures |Set(entries, maxSize, e)| <= Capacity(maxSize)
  {
    hide Set, Put, TotalSize;
    PutGrows(entries, e);
    SetMeetsLimitOrEvicts(entries, maxSize, e);
  }

  /** Over every run in which entries weigh at least 1, there are never more entries than the
      size limit, or four if that is more: five is the least count of which a fifth is one. */
  lemma {:induction false} CacheStaysWithinCapacity<T(!new)>(c: Setting<T>, ops: seq<Op<T>>)
    requires forall i :: 0 <= i < |ops| ==> Stores(c, ops[i], (e: Entry<T>) => e.size >= 1)
    ensures |Run(c, ops)| <= Capacity(c.maxSize)
  {
    hide Apply, Set, Capacity, TotalSize, UniqueKeys;
    if ops != [] {
      var init := ops[..|ops| - 1];
      var P := (e: Entry<T>) => e.size >= 1;
      CacheStaysWithinCapacity(c, init);
      RunKeepsAll(c, init, P);
      var rest, e := ApplyIsDropThenStore(c, Run(c, init), ops[|ops| - 1], P);
      if P(e) {
        SetStaysWithinCapacity(rest, c.maxSize, e);
      }
    }
  }

  /** How many stores it takes, each evicting a fifth, to bring `n` entries down to eight: from
      nine entries on, a store that evicts leaves fewer than there were. */
  function Passes(n: nat): nat {
    if n <= 8 then 0 else 1 + Passes(n + 1 - (n + 1) / 5)
  }

  lemma {:induction false} PassesGrow(m: nat, n: nat)
    requires m <= n
    ensures Passes(m) <= Passes(n)
  {
    if m > 8 {
      PassesGrow(m + 1 - (m + 1) / 5, n + 1 - (n + 1) / 5);
    }
  }

  function Power(base: nat, n: nat): nat {
    if n == 0 then 1 else base * Power(base, n - 1)
  }

  /** They are at most logarithmic in the number of entries. */
  lemma {:induction false} PassesAreLogarithmic(n: nat)
    requires n > 8
    ensures Power(5, Passes(n) - 1) <= (n - 8) * Power(4, Passes(n) - 1)
  {
    var next := n + 1 - (n + 1) / 5;
    if next > 8 {
      PassesAreLogarithmic(next);
      var k := Passes(next) - 1;
      ScaledBound(next - 8, n - 8, Power(5, k), Power(4, k));
    }
  }

  lemma ScaledBound(a: nat, b: nat, p: nat, q: nat)
    requires p <= a * q && 5 * a <= 4 * b
    ensures 5 * p <= b * (4 * q)
  {
    assert 5 * (a * q) == (5 * a) * q;
    assert (5 * a) * q <= (4 * b) * q;
    assert (4 * b) * q == b * (4 * q);
  }

  /** The total the entries can have, when none is larger than `largest`. */
  ghost predicate Bounded<T>(entries: Entries<T>, maxSize: int, largest: nat) {
    && |entries| <= Capacity(maxSize)
    && (|entries| <= 8 ||
        TotalSize(entries) <= maxSize + largest * (Passes(Capacity(maxSize)) - Passes(|entries|)))
  }

  lemma FewerIsBounded<T>(entries: Entries<T>, rest: Entries<T>, maxSize: int, largest: nat)
    requires Bounded(entries, maxSize, largest)
    requires |rest| <= |entries| && TotalSize(rest) <= TotalSize(entries)
    ensures Bounded(rest, maxSize, largest)
  {
    PassesGrow(|rest|, |entries|);
    MoreOf(largest, Passes(Capacity(maxSize)) - Passes(|entries|), Passes(Capacity(maxSize)) - Passes(|rest|));
  }

  lemma MoreOf(k: nat, a: int, b: int)
    requires a <= b
    ensures k * a <= k * b && k * (a + 1) == k * a + k
  {
  }

  lemma SetStaysBounded<T>(entries: Entries<T>, maxSize: int, largest: nat, e: Entry<T>)
    requires UniqueKeys(entries) && All(entries, (x: Entry<T>) => x.size >= 1) && 1 <= e.size <= largest
    requires Bounded(entries, maxSize, largest)
    ensures Bounded(Set(entries, maxSize, e), maxSize, largest)
  {
    hide Set, Put, Passes;
    var n, after := |entries|, |Set(entries, maxSize, e)|;
    var all := Passes(Capacity(maxSize));
    PutGrows(entries, e);
    SetMeetsLimitOrEvicts(entries, maxSize, e);
    if TotalSize(Put(entries, e)) <= maxSize {
      PassesGrow(after, Capacity(maxSize));
      MoreOf(largest, 0, all - Passes(after));
    } else if after > 8 {
      EvictingStoreIsAPass(n, after);
      MoreOf(largest, all - Passes(n) + 1, all - Passes(after));
      MoreOf(largest, all - Passes(n), all - Passes(n));
    }
  }

  lemma EvictingStoreIsAPass(n: nat, after: nat)
    requires n > 8 && after <= n + 1 - (n + 1) / 5
    ensures Passes(after) <= Passes(n) - 1
  {
    PassesGrow(after, n + 1 - (n + 1) / 5);
  }

  lemma {:induction false} RunStaysBounded<T(!new)>(c: Setting<T>, ops: seq<Op<T>>, largest: nat)
    requires forall i :: 0 <= i < |ops| ==> Stores(c, ops[i], (e: Entry<T>) => 1 <= e.size <= largest)
    ensures Bounded(Run(c, ops), c.maxSize, largest)
  {
    hide Apply, Set, TotalSize, UniqueKeys;
    if ops != [] {
      var init := ops[..|ops| - 1];
      var P := (e: Entry<T>) => 1 <= e.size <= largest;
      RunStaysBounded(c, init, largest);
      RunKeepsAll(c, init, P);
      var rest, e := ApplyIsDropThenStore(c, Run(c, init), ops[|ops| - 1], P);
      FewerIsBounded(Run(c, init), rest, c.maxSize, largest);
      if P(e) {
        SetStaysBounded(rest, c.maxSize, largest, e);
      }
    }
  }

  /** Over every run in which entries weigh between 1 and `largest`, the total size exceeds the
      limit by at most `largest` for each pass, or is the size of eight entries. */
  lemma TotalSizeIsBounded<T(!new)>(c: Setting<T>, ops: seq<Op<T>>, largest: nat)
    requires forall i :: 0 <= i < |ops| ==> Stores(c, ops[i], (e: Entry<T>) => 1 <= e.size <= largest)
    ensures TotalSize(Run(c, ops)) <= 8 * largest ||
            TotalSize(Run(c, ops)) <= c.maxSize + largest * Passes(Capacity(c.maxSize))
  {
    hide Run, Passes, Stores;
    var entries := Run(c, ops);
    var all := Passes(Capacity(c.maxSize));
    RunKeepsAll(c, ops, (e: Entry<T>) => 1 <= e.size <= largest);
    RunStaysBounded(c, ops, largest);
    TotalIsAtMost(entries, largest);
    if |entries| <= 8 {
      MoreOf(largest, |entries|, 8);
    } else {
      MoreOf(largest, all - Passes(|entries|), all);
    }
  }

  // Recency.

  predicate Uses<T>(op: Op<T>, key: string) {
    match op
    case ReadRange(source, start, end, _) => key == ChunkKey(source, start, end)
    case GetKey(k, _) => k == key
    case SetKey(k, _, _, _, _) => k == key
    case _ => false
  }

  /** The time of the last operation of the run that read or stored the key. */
  function LastUse<T>(ops: seq<Op<T>>, key: string): Moment {
    if ops == [] then Never
    else
      var op := ops[|ops| - 1];
      if (op.ReadRange? || op.GetKey? || op.SetKey?) && Uses(op, key) then At(op.now)
      else LastUse(ops[..|ops| - 1], key)
  }

  lemma EntryAfterSet<T>(entries: Entries<T>, maxSize: int, stored: Entry<T>, e: Entry<T>)
    requires UniqueKeys(entries) && e in Set(entries, maxSize, stored)
    ensures e == stored || (e in entries && e.key != stored.key)
  {
    var put := Put(entries, stored);
    RemoveKeeps(put, OldestKeys(put, Share(|put|, 20)), e);
    assert e in put;
  }

  lemma EntryAfterGet<T>(entries: Entries<T>, key: string, now: int, e: Entry<T>)
    requires UniqueKeys(entries) && e in Get(entries, key, now).entries
    ensures if e.key == key then Get(entries, key, now).got.Hit? && e.lastAccessed == now else e in entries
  {
    RemoveKeeps(entries, {key}, e);
  }

  lemma EntryAfterOp<T(!new)>(c: Setting<T>, entries: Entries<T>, op: Op<T>, e: Entry<T>)
    requires UniqueKeys(entries) && e in Apply(c, entries, op)
    ensures if Uses(op, e.key) then e.lastAccessed == op.now else e in entries
  {
    hide Key, Slice, Set;
    match op
    case ReadRange(source, start, end, now) =>
      var key := ChunkKey(source, start, end);
      var o := Get(entries, key, now);
      GetKeepsAll(entries, key, now, (x: Entry<T>) => true);
      if o.got.Miss? {
        EntryAfterSet(o.entries, c.maxSize, ChunkEntry(source, start, end, c.sizeOf, now), e);
      }
      if e in o.entries {
        EntryAfterGet(entries, key, now, e);
      }
    case GetKey(key, now) => EntryAfterGet(entries, key, now, e);
    case SetKey(key, data, size, ttl, now) => EntryAfterSet(entries, c.maxSize, NewEntry(key, data, size, ttl, now), e);
    case EvictShare(percent) =>
      if percent <= 100 {
        RemoveKeeps(entries, OldestKeys(entries, Share(|entries|, percent)), e);
      }
    case Cleanup(now) => RemoveKeeps(entries, ExpiredKeys(entries, now), e);
  }

  /** Over every run, an entry's access time is the time of the last use of its key. */
  lemma {:induction false} AccessTimeIsLastUse<T(!new)>(c: Setting<T>, ops: seq<Op<T>>, e: Entry<T>)
    requires e in Run(c, ops)
    ensures LastUse(ops, e.key) == At(e.lastAccessed)
  {
    var init := ops[..|ops| - 1];
    RunKeepsAll(c, init, (x: Entry<T>) => true);
    EntryAfterOp(c, Run(c, init), ops[|ops| - 1], e);
    if e in Run(c, init) {
      AccessTimeIsLastUse(c, init, e);
    }
  }

  /** Over every run, eviction never removes a key that was used later than one that stays. */
  lemma EvictionFollowsUse<T(!new)>(c: Setting<T>, ops: seq<Op<T>>, percent: nat, gone: Entry<T>, kept: Entry<T>)
    requires percent <= 100 && gone in Run(c, ops) && kept in Run(c, ops)
    requires gone !in Evict(Run(c, ops), percent) && kept in Evict(Run(c, ops), percent)
    ensures var a, b := LastUse(ops, gone.key), LastUse(ops, kept.key);
            a.At? && b.At? && a.time <= b.time
  {
    hide Evict, LastUse, Before;
    var entries := Run(c, ops);
    RunKeepsAll(c, ops, (x: Entry<T>) => true);
    AccessTimeIsLastUse(c, ops, gone);
    AccessTimeIsLastUse(c, ops, kept);
    var i :| 0 <= i < |entries| && entries[i] == gone;
    var j :| 0 <= j < |entries| && entries[j] == kept;
    EvictionIsLRU(entries, percent);
    assert Before(AccessTimes(entries), i, j);
    BeforeMeansNoLater(AccessTimes(entries), i, j);
  }

  lemma BeforeMeansNoLater(keys: seq<real>, i: nat, j: nat)
    requires i < |keys| && j < |keys| && Before(keys, i, j)
    ensures keys[i] <= keys[j]
  {
  }
}
