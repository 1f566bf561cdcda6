/** What a run of the cache says about one entry: when it expires, what it holds and how often it
    was used, and where it stands in the order of the map. */
module CacheEntries {
  import opened JsArrays
  import opened ChunkKeys
  import opened RangeCache
  import opened CacheRuns

  ghost predicate Has<T>(entries: Entries<T>, key: string) {
    exists i :: 0 <= i < |entries| && entries[i].key == key
  }

  lemma HasEntry<T>(entries: Entries<T>, e: Entry<T>)
    requires e in entries
    ensures Has(entries, e.key)
  {
    var i :| 0 <= i < |entries| && entries[i] == e;
  }

  lemma EntryOf<T>(entries: Entries<T>, key: string) returns (e: Entry<T>)
    requires Has(entries, key)
    ensures e in entries && e.key == key
  {
    var i :| 0 <= i < |entries| && entries[i].key == key;
    e := entries[i];
  }

  lemma RunIsUnique<T(!new)>(c: Setting<T>, ops: seq<Op<T>>)
    ensures UniqueKeys(Run(c, ops))
  {
    RunKeepsAll(c, ops, (e: Entry<T>) => true);
  }

  // Expiry.

  /** The operation neither stores, evicts nor clears the key, and reads it or sweeps no later
      than `now`. */
  ghost predicate LeavesAlone<T>(c: Setting<T>, entries: Entries<T>, op: Op<T>, key: string, now: int) {
    match op
    case GetKey(k, at) => k == key ==> at <= now
    case Cleanup(at) => at <= now
    case Clear => false
    case _ => !Uses(op, key) && (Has(entries, key) ==> Has(Apply(c, entries, op), key))
  }

  /** What is left of an entry with `data` that was stored at `t` to live for `ttl`. */
  ghost predicate Ageing<T>(entries: Entries<T>, key: string, data: seq<T>, t: int, ttl: int, now: int) {
    && UniqueKeys(entries)
    && (forall e :: e in entries && e.key == key ==>
          e.data == data && e.expiresAt == if ttl == 0 then Never else At(t + ttl))
    && (Has(entries, key) || !(ttl == 0 || t + ttl == 0 || now <= t + ttl))
  }

  lemma SetStartsAgeing<T>(entries: Entries<T>, maxSize: int, key: string, data: seq<T>, size: int,
                           ttl: int, t: int, now: int)
    requires UniqueKeys(entries) && Has(Set(entries, maxSize, NewEntry(key, data, size, ttl, t)), key)
    ensures Ageing(Set(entries, maxSize, NewEntry(key, data, size, ttl, t)), key, data, t, ttl, now)
  {
    var stored := NewEntry(key, data, size, ttl, t);
    SetKeepsAll(entries, maxSize, stored, (e: Entry<T>) => true);
    forall e | e in Set(entries, maxSize, stored) && e.key == key
      ensures e == stored
    {
      EntryAfterSet(entries, maxSize, stored, e);
    }
  }

  lemma GetKeepsAgeing<T(!new)>(entries: Entries<T>, key: string, data: seq<T>, t: int, ttl: int, at: int, now: int)
    requires Ageing(entries, key, data, t, ttl, now) && at <= now
    ensures Ageing(Get(entries, key, at).entries, key, data, t, ttl, now)
  {
    GetKeepsAll(entries, key, at, (e: Entry<T>) => true);
    var i, after := IndexOf(entries, key), Get(entries, key, at).entries;
    if i < |entries| {
      assert entries[i] in entries;
      if !entries[i].Expired(at) {
        assert after[i].key == key;
      }
    }
    forall e | e in after && e.key == key
      ensures e.data == data && e.expiresAt == if ttl == 0 then Never else At(t + ttl)
    {
      GetLeaves(entries, key, at, e);
    }
  }

  /** An entry after a lookup is one from before, touched if it is the one looked up. */
  lemma GetLeaves<T>(entries: Entries<T>, key: string, now: int, e: Entry<T>)
    requires UniqueKeys(entries) && e in Get(entries, key, now).entries
    ensures if e.key == key then exists was :: was in entries && was.key == key && e == was.Touched(now)
            else e in entries
  {
    RemoveKeeps(entries, {key}, e);
    var i := IndexOf(entries, key);
    if e.key == key && i < |entries| {
      assert entries[i] in entries;
    }
  }

  lemma SweepKeepsAgeing<T>(entries: Entries<T>, key: string, data: seq<T>, t: int, ttl: int, at: int, now: int)
    requires Ageing(entries, key, data, t, ttl, now) && at <= now
    ensures Ageing(Remove(entries, ExpiredKeys(entries, at)), key, data, t, ttl, now)
  {
    var after := Remove(entries, ExpiredKeys(entries, at));
    RemoveKeepsUnique(entries, ExpiredKeys(entries, at));
    forall e | e in after
      ensures e in entries
    {
      RemoveKeeps(entries, ExpiredKeys(entries, at), e);
    }
    if Has(entries, key) {
      var e := EntryOf(entries, key);
      SweepKeepsLive(entries, at, e);
      if e in after {
        HasEntry(after, e);
      }
    }
  }

  lemma ApplyKeepsAgeing<T(!new)>(c: Setting<T>, entries: Entries<T>, op: Op<T>, key: string, data: seq<T>,
                                  t: int, ttl: int, now: int)
    requires Ageing(entries, key, data, t, ttl, now) && LeavesAlone(c, entries, op, key, now)
    ensures Ageing(Apply(c, entries, op), key, data, t, ttl, now)
  {
    hide Set, Get, Key, ExpiredKeys, Evict;
    if op.GetKey? && op.key == key {
      GetKeepsAgeing(entries, key, data, t, ttl, op.now, now);
    } else if op.Cleanup? {
      SweepKeepsAgeing(entries, key, data, t, ttl, op.now, now);
    } else {
      OthersKeepAgeing(c, entries, op, key, data, t, ttl, now);
    }
  }

  lemma OthersKeepAgeing<T(!new)>(c: Setting<T>, entries: Entries<T>, op: Op<T>, key: string, data: seq<T>,
                                  t: int, ttl: int, now: int)
    requires Ageing(entries, key, data, t, ttl, now) && LeavesAlone(c, entries, op, key, now)
    requires !op.Cleanup? && !Uses(op, key)
    ensures Ageing(Apply(c, entries, op), key, data, t, ttl, now)
  {
    ApplyKeepsAll(c, entries, op, (e: Entry<T>) => true);
    if op.GetKey? && Has(entries, key) {
      GetKeepsOthers(entries, op.key, op.now, key);
    }
    hide Apply;
    forall e | e in Apply(c, entries, op) && e.key == key
      ensures e in entries
    {
      EntryAfterOp(c, entries, op, e);
    }
  }

  lemma GetKeepsOthers<T>(entries: Entries<T>, key: string, now: int, other: string)
    requires Has(entries, other) && other != key
    ensures Has(Get(entries, key, now).entries, other)
  {
    var e := EntryOf(entries, other);
    RemoveKeeps(entries, {key}, e);
    var after := Get(entries, key, now).entries;
    var i :| 0 <= i < |entries| && entries[i] == e;
    if |after| == |entries| && IndexOf(entries, key) < |entries| && !entries[IndexOf(entries, key)].Expired(now) {
      assert after[i].key == other;
    } else {
      HasEntry(after, e);
    }
  }

  ghost predicate LeftAloneSince<T>(c: Setting<T>, ops: seq<Op<T>>, i: nat, key: string, now: int) {
    forall n :: i < n < |ops| ==> LeavesAlone(c, Run(c, ops[..n]), ops[n], key, now)
  }

  lemma LeftAloneBefore<T>(c: Setting<T>, ops: seq<Op<T>>, i: nat, key: string, now: int)
    requires LeftAloneSince(c, ops, i, key, now) && i < |ops| - 1
    ensures var last := |ops| - 1;
            LeftAloneSince(c, ops[..last], i, key, now) && LeavesAlone(c, Run(c, ops[..last]), ops[last], key, now) &&
            ops[..last][..i + 1] == ops[..i + 1]
  {
    hide LeavesAlone, Run;
    var last := |ops| - 1;
    forall n | i < n < last
      ensures LeavesAlone(c, Run(c, ops[..last][..n]), ops[..last][n], key, now)
    {
      assert ops[..last][..n] == ops[..n];
    }
  }

  lemma {:induction false} RunKeepsAgeing<T(!new)>(c: Setting<T>, ops: seq<Op<T>>, i: nat, now: int)
    requires i < |ops| && ops[i].SetKey? && Has(Run(c, ops[..i + 1]), ops[i].key)
    requires LeftAloneSince(c, ops, i, ops[i].key, now)
    ensures Ageing(Run(c, ops), ops[i].key, ops[i].data, ops[i].now, ops[i].ttl, now)
    decreases |ops|
  {
    hide Set, LeavesAlone, Ageing, LeftAloneSince, Has;
    var last := |ops| - 1;
    var init := ops[..last];
    if i == last {
      var op := ops[i];
      RunIsUnique(c, init);
      assert ops[..i + 1] == ops;
      SetStartsAgeing(Run(c, init), c.maxSize, op.key, op.data, op.size, op.ttl, op.now, now);
    } else {
      LeftAloneBefore(c, ops, i, ops[i].key, now);
      RunKeepsAgeing(c, init, i, now);
      ApplyKeepsAgeing(c, Run(c, init), ops[last], ops[i].key, ops[i].data, ops[i].now, ops[i].ttl, now);
    }
  }

  /** When an entry expires, over runs and in numbers. It was stored at some time for a lifetime,
      and nothing has stored, evicted or cleared its key since; lookups and sweeps up to `now`
      may have come in any number. Then a lookup at `now` hits, with the stored data, exactly when
      no lifetime was given, or the end of it is 0, or not yet passed, and a sweep at `now`
      leaves the entry exactly then. */
  lemma ExpiryInNumbers<T(!new)>(c: Setting<T>, ops: seq<Op<T>>, i: nat, now: int)
    requires i < |ops| && ops[i].SetKey? && Has(Run(c, ops[..i + 1]), ops[i].key)
    requires LeftAloneSince(c, ops, i, ops[i].key, now)
    ensures var t, ttl, got := ops[i].now, ops[i].ttl, Get(Run(c, ops), ops[i].key, now).got;
            && (got.Hit? <==> ttl == 0 || t + ttl == 0 || now <= t + ttl)
            && (got.Hit? ==> got.entry.data == ops[i].data)
            && (Has(Apply(c, Run(c, ops), Cleanup(now)), ops[i].key) <==> ttl == 0 || t + ttl == 0 || now <= t + ttl)
  {
    hide Run, Get, Ageing, LeftAloneSince, Has;
    RunKeepsAgeing(c, ops, i, now);
    LookupOfAgeing(Run(c, ops), ops[i].key, ops[i].data, ops[i].now, ops[i].ttl, now);
  }

  lemma LookupOfAgeing<T>(entries: Entries<T>, key: string, data: seq<T>, t: int, ttl: int, now: int)
    requires Ageing(entries, key, data, t, ttl, now)
    ensures var got := Get(entries, key, now).got;
            && (got.Hit? <==> ttl == 0 || t + ttl == 0 || now <= t + ttl)
            && (got.Hit? ==> got.entry.data == data)
    ensures Has(Remove(entries, ExpiredKeys(entries, now)), key) <==> ttl == 0 || t + ttl == 0 || now <= t + ttl
  {
    var i := IndexOf(entries, key);
    var after := Remove(entries, ExpiredKeys(entries, now));
    if Has(entries, key) {
      assert entries[i] in entries;
      SweepKeepsLive(entries, now, entries[i]);
      if entries[i] in after {
        HasEntry(after, entries[i]);
      }
    }
    if Has(after, key) {
      var e := EntryOf(after, key);
      RemoveKeeps(entries, ExpiredKeys(entries, now), e);
      HasEntry(entries, e);
      assert e == entries[i];
    }
  }

  // What an entry holds.

  /** How many operations after the `i`-th used the key. */
  function UsesAfter<T>(ops: seq<Op<T>>, i: nat, key: string): nat {
    if |ops| <= i + 1 then 0
    else UsesAfter(ops[..|ops| - 1], i, key) + if Uses(ops[|ops| - 1], key) then 1 else 0
  }

  /** The entry as the operation stores it: an explicit store with its lifetime, or the range of a
      source, which never expires. */
  ghost predicate StoredBy<T>(c: Setting<T>, op: Op<T>, e: Entry<T>) {
    match op
    case SetKey(key, data, size, ttl, now) =>
      && e.key == key && e.data == data && e.size == size && e.createdAt == now
      && e.expiresAt == if ttl == 0 then Never else At(now + ttl)
    case ReadRange(source, start, end, now) =>
      && e.key == Key(if start < 0 then 0 else start, if end < |source| then end else |source|)
      && e.data == Slice(source, if start < 0 then 0 else start, if end < |source| then end else |source|)
      && e.size == c.sizeOf(e.data) && e.createdAt == now && e.expiresAt == Never
    case _ => false
  }

  /** An entry after an operation was stored by it, touched by it, or left alone by it. */
  lemma EntryAfter<T(!new)>(c: Setting<T>, entries: Entries<T>, op: Op<T>, e: Entry<T>)
    requires UniqueKeys(entries) && e in Apply(c, entries, op)
    ensures if Uses(op, e.key) then
              || (StoredBy(c, op, e) && e.accessCount == 1)
              || (!op.SetKey? && exists was :: was in entries && e == was.Touched(op.now))
            else e in entries
  {
    hide Key, Slice, Set, Get;
    EntryAfterOp(c, entries, op, e);
    match op
    case ReadRange(source, start, end, now) =>
      if e.key == ChunkKey(source, start, end) {
        EntryAfterRead(c, entries, source, start, end, now, e);
      }
    case GetKey(key, now) => GetLeaves(entries, key, now, e);
    case SetKey(key, data, size, ttl, now) => EntryAfterSet(entries, c.maxSize, NewEntry(key, data, size, ttl, now), e);
    case _ =>
  }

  lemma EntryAfterRead<T(!new)>(c: Setting<T>, entries: Entries<T>, source: seq<T>, start: int, end: int,
                                now: int, e: Entry<T>)
    requires UniqueKeys(entries) && e in c.Read(entries, source, start, end, now).entries
    requires e.key == ChunkKey(source, start, end)
    ensures || (StoredBy(c, ReadRange(source, start, end, now), e) && e.accessCount == 1)
            || (exists was :: was in entries && e == was.Touched(now))
  {
    hide Key, Slice, Set, Get;
    var o := Get(entries, e.key, now);
    GetKeepsAll(entries, e.key, now, (x: Entry<T>) => true);
    if o.got.Miss? {
      EntryAfterSet(o.entries, c.maxSize, ChunkEntry(source, start, end, c.sizeOf, now), e);
    }
    if e in o.entries {
      GetLeaves(entries, e.key, now, e);
    }
  }

  /** Over every run, an entry holds what the operation that stored it said, no store of its key
      has come since, and its access count is one more than the number of uses since. */
  lemma {:induction false} EntryHoldsWhatWasStored<T(!new)>(c: Setting<T>, ops: seq<Op<T>>,
                                                            e: Entry<T>) returns (i: nat)
    requires e in Run(c, ops)
    ensures i < |ops| && StoredBy(c, ops[i], e) && e.accessCount == 1 + UsesAfter(ops, i, e.key)
    ensures forall n :: i < n < |ops| && ops[n].SetKey? ==> ops[n].key != e.key
  {
    hide Apply, StoredBy, Uses;
    var last := |ops| - 1;
    var init, op := ops[..last], ops[last];
    RunIsUnique(c, init);
    UsesIsTimed(op, e.key);
    EntryAfter(c, Run(c, init), op, e);
    if StoredBy(c, op, e) && e.accessCount == 1 && Uses(op, e.key) {
      i := last;
    } else {
      var was := e;
      if Uses(op, e.key) {
        was :| was in Run(c, init) && e == was.Touched(op.now);
        TouchedIsStored(c, was, op.now);
      }
      i := EntryHoldsWhatWasStored(c, init, was);
    }
  }

  lemma UsesIsTimed<T>(op: Op<T>, key: string)
    ensures op.SetKey? && op.key == key ==> Uses(op, key)
    ensures Uses(op, key) ==> op.ReadRange? || op.GetKey? || op.SetKey?
  {
  }

  lemma TouchedIsStored<T>(c: Setting<T>, e: Entry<T>, now: int)
    ensures forall op :: StoredBy(c, op, e) ==> StoredBy(c, op, e.Touched(now))
    ensures e.Touched(now).key == e.key && e.Touched(now).accessCount == e.accessCount + 1
  {
  }

  // The order of the map.

  /** The operation leaves the key in the map all along; a range read of an expired entry takes
      it out and puts it in again. */
  ghost predicate KeepsPlace<T>(entries: Entries<T>, op: Op<T>, key: string) {
    Has(entries, key) && !(op.ReadRange? && Uses(op, key) && Get(entries, key, op.now).got.Miss?)
  }

  /** The operation since which the key has been in the map. */
  ghost function InsertedAt<T>(c: Setting<T>, ops: seq<Op<T>>, key: string): int {
    if ops == [] then -1
    else
      var last := |ops| - 1;
      if KeepsPlace(Run(c, ops[..last]), ops[last], key) then InsertedAt(c, ops[..last], key) else last
  }

  ghost predicate OrderedBy<T>(entries: Entries<T>, rank: string -> int) {
    forall i, j :: 0 <= i < j < |entries| ==> rank(entries[i].key) < rank(entries[j].key)
  }

  lemma {:induction false} RemoveKeepsOrder<T>(entries: Entries<T>, keys: set<string>, rank: string -> int)
    requires OrderedBy(entries, rank)
    ensures OrderedBy(Remove(entries, keys), rank)
  {
    if entries != [] {
      var n := |entries| - 1;
      RemoveKeepsOrder(entries[..n], keys, rank);
      forall e | e in Remove(entries[..n], keys)
        ensures rank(e.key) < rank(entries[n].key)
      {
        RemoveKeeps(entries[..n], keys, e);
        var i :| 0 <= i < n && entries[i] == e;
      }
    }
  }

  /** The ranks of the entries that keep their place do not change. */
  lemma RanksAgree<T>(entries: Entries<T>, rest: Entries<T>, op: Op<T>, was: string -> int,
                      rank: string -> int, last: int)
    requires OrderedBy(rest, was)
    requires forall key :: rank(key) == if KeepsPlace(entries, op, key) then was(key) else last
    requires forall e :: e in rest ==> KeepsPlace(entries, op, e.key)
    ensures OrderedBy(rest, rank)
  {
    hide KeepsPlace;
    forall i, j | 0 <= i < j < |rest|
      ensures rank(rest[i].key) < rank(rest[j].key)
    {
      assert rest[i] in rest && rest[j] in rest;
    }
  }

  lemma GetKeepsOrder<T>(entries: Entries<T>, key: string, now: int, rank: string -> int)
    requires OrderedBy(entries, rank)
    ensures OrderedBy(Get(entries, key, now).entries, rank)
  {
    RemoveKeepsOrder(entries, {key}, rank);
  }

  lemma SetKeepsOrder<T>(entries: Entries<T>, maxSize: int, e: Entry<T>, rank: string -> int)
    requires OrderedBy(entries, rank)
    requires !Has(entries, e.key) ==> forall x :: x in entries ==> rank(x.key) < rank(e.key)
    ensures OrderedBy(Set(entries, maxSize, e), rank)
  {
    var put := Put(entries, e);
    assert OrderedBy(put, rank);
    RemoveKeepsOrder(put, OldestKeys(put, Share(|put|, 20)), rank);
  }

  lemma ReadKeepsOrder<T(!new)>(c: Setting<T>, entries: Entries<T>, op: Op<T>, was: string -> int,
                                rank: string -> int, last: int)
    requires op.ReadRange? && UniqueKeys(entries) && OrderedBy(entries, was)
    requires forall key :: Has(entries, key) ==> was(key) < last
    requires forall key :: rank(key) == if KeepsPlace(entries, op, key) then was(key) else last
    ensures OrderedBy(Apply(c, entries, op), rank)
  {
    hide Set, Key, Has;
    var key := ChunkKey(op.source, op.start, op.end);
    var o := Get(entries, key, op.now);
    GetServesLiveEntries(entries, key, op.now);
    GetKeepsOrder(entries, key, op.now, was);
    forall e | e in o.entries
      ensures KeepsPlace(entries, op, e.key) && rank(e.key) < last
    {
      GetHasOnly(entries, key, op.now, e);
    }
    RanksAgree(entries, o.entries, op, was, rank, last);
    if o.got.Miss? {
      var stored := ChunkEntry(op.source, op.start, op.end, c.sizeOf, op.now);
      assert !KeepsPlace(entries, op, key);
      SetKeepsOrder(o.entries, c.maxSize, stored, rank);
    }
  }

  lemma GetHasOnly<T>(entries: Entries<T>, key: string, now: int, e: Entry<T>)
    requires UniqueKeys(entries) && e in Get(entries, key, now).entries
    ensures Has(entries, e.key) && (e.key == key ==> Get(entries, key, now).got.Hit?)
  {
    GetLeaves(entries, key, now, e);
    GetServesLiveEntries(entries, key, now);
    if e.key == key {
      var was :| was in entries && was.key == key && e == was.Touched(now);
      HasEntry(entries, was);
    } else {
      HasEntry(entries, e);
    }
  }

  lemma StoreKeepsOrder<T(!new)>(c: Setting<T>, entries: Entries<T>, op: Op<T>, was: string -> int,
                                 rank: string -> int, last: int)
    requires op.SetKey? && OrderedBy(entries, was)
    requires forall key :: Has(entries, key) ==> was(key) < last
    requires forall key :: rank(key) == if KeepsPlace(entries, op, key) then was(key) else last
    ensures OrderedBy(Apply(c, entries, op), rank)
  {
    hide Set, Has;
    forall e | e in entries
      ensures KeepsPlace(entries, op, e.key) && rank(e.key) < last
    {
      HasEntry(entries, e);
    }
    RanksAgree(entries, entries, op, was, rank, last);
    SetKeepsOrder(entries, c.maxSize, NewEntry(op.key, op.data, op.size, op.ttl, op.now), rank);
  }

  lemma ApplyKeepsOrder<T(!new)>(c: Setting<T>, entries: Entries<T>, op: Op<T>, was: string -> int,
                                 rank: string -> int, last: int)
    requires UniqueKeys(entries) && OrderedBy(entries, was)
    requires forall key :: Has(entries, key) ==> was(key) < last
    requires forall key :: rank(key) == if KeepsPlace(entries, op, key) then was(key) else last
    ensures OrderedBy(Apply(c, entries, op), rank)
  {
    hide Set, Get, Key, Has, OrderedBy;
    if op.ReadRange? {
      ReadKeepsOrder(c, entries, op, was, rank, last);
    } else if op.SetKey? {
      StoreKeepsOrder(c, entries, op, was, rank, last);
    } else {
      forall e | e in entries
        ensures KeepsPlace(entries, op, e.key)
      {
        HasEntry(entries, e);
      }
      RanksAgree(entries, entries, op, was, rank, last);
      match op
      case GetKey(key, now) => GetKeepsOrder(entries, key, now, rank);
      case EvictShare(percent) =>
        if percent <= 100 {
          RemoveKeepsOrder(entries, OldestKeys(entries, Share(|entries|, percent)), rank);
        }
      case Cleanup(now) => RemoveKeepsOrder(entries, ExpiredKeys(entries, now), rank);
      case _ => NothingIsOrdered<T>(rank);
    }
  }

  lemma NothingIsOrdered<T>(rank: string -> int)
    ensures OrderedBy<T>([], rank)
  {
  }

  /** Over every run, the entries stand in the order in which their keys came into the map. */
  lemma {:induction false} EntriesStandInInsertionOrder<T(!new)>(c: Setting<T>, ops: seq<Op<T>>)
    ensures OrderedBy(Run(c, ops), key => InsertedAt(c, ops, key))
    ensures forall key :: InsertedAt(c, ops, key) < |ops|
  {
    hide KeepsPlace, Apply;
    if ops != [] {
      var last := |ops| - 1;
      var init := ops[..last];
      EntriesStandInInsertionOrder(c, init);
      RunIsUnique(c, init);
      ApplyKeepsOrder(c, Run(c, init), ops[last], key => InsertedAt(c, init, key), key => InsertedAt(c, ops, key), last);
    }
  }
}
