/** The engine's cache: a map kept in insertion order, with expiry and eviction of the entries
    accessed least recently, and the range reads that go through it. */
module RangeCache {
  import opened JsArrays
  import opened ChunkKeys
  import opened StableSort

  datatype Moment = Never | At(time: int)

  datatype Entry<T> = Entry(key: string, data: seq<T>, size: int, accessCount: nat,
                            lastAccessed: int, createdAt: int, expiresAt: Moment)
  {
    /** An expiry time of 0 counts as none. */
    predicate Expired(now: int) { expiresAt.At? && expiresAt.time != 0 && now > expiresAt.time }

    function Touched(now: int): Entry<T> { this.(accessCount := accessCount + 1, lastAccessed := now) }
  }

  /** A JavaScript map: keys are unique and the entries keep the order of first insertion. */
  type Entries<T> = seq<Entry<T>>

  ghost predicate UniqueKeys<T>(entries: Entries<T>) {
    forall i, j :: 0 <= i < j < |entries| ==> entries[i].key != entries[j].key
  }

  function IndexOf<T>(entries: Entries<T>, key: string): (i: nat)
    ensures i <= |entries|
    ensures i < |entries| ==> entries[i].key == key
    ensures i == |entries| ==> forall k :: 0 <= k < |entries| ==> entries[k].key != key
  {
    if entries == [] then 0
    else
      var n := |entries| - 1;
      if entries[n].key == key then n
      else
        var i := IndexOf(entries[..n], key);
        if i < n then i else n + 1
  }

  function Put<T>(entries: Entries<T>, e: Entry<T>): Entries<T> {
    var i := IndexOf(entries, e.key);
    if i < |entries| then entries[i := e] else entries + [e]
  }

  /** The entries whose key is not among `keys`. */
  function Remove<T>(entries: Entries<T>, keys: set<string>): Entries<T> {
    if entries == [] then []
    else
      var n := |entries| - 1;
      var init := Remove(entries[..n], keys);
      if entries[n].key in keys then init else init + [entries[n]]
  }

  function ExpiredKeys<T>(entries: Entries<T>, now: int): set<string> {
    set i: nat | i < |entries| && entries[i].Expired(now) :: entries[i].key
  }

  function AccessTimes<T>(entries: Entries<T>): (t: seq<real>)
    ensures |t| == |entries| && forall i :: 0 <= i < |t| ==> t[i] == entries[i].lastAccessed as real
  {
    seq(|entries|, i requires 0 <= i < |entries| => entries[i].lastAccessed as real)
  }

  function Share(n: nat, percent: nat): (k: nat)
    requires percent <= 100
    ensures k <= n
  {
    assert n * percent <= n * 100;
    n * percent / 100
  }

  function KeysAt<T>(entries: Entries<T>, p: seq<nat>): set<string>
    requires forall k :: 0 <= k < |p| ==> p[k] < |entries|
  {
    if p == [] then {} else KeysAt(entries, p[..|p| - 1]) + {entries[p[|p| - 1]].key}
  }

  /** The keys of the first `k` entries by access time, in the stable order of the sort. */
  function OldestKeys<T>(entries: Entries<T>, k: nat): set<string>
    requires k <= |entries|
  {
    KeysAt(entries, Order(AccessTimes(entries))[..k])
  }

  function Evict<T>(entries: Entries<T>, percent: nat): Entries<T>
    requires percent <= 100
  {
    Remove(entries, OldestKeys(entries, Share(|entries|, percent)))
  }

  function TotalSize<T>(entries: Entries<T>): int {
    if entries == [] then 0 else TotalSize(entries[..|entries| - 1]) + entries[|entries| - 1].size
  }

  function Enforce<T>(entries: Entries<T>, maxSize: int): Entries<T> {
    if TotalSize(entries) > maxSize then Evict(entries, 20) else entries
  }

  function NewEntry<T>(key: string, data: seq<T>, size: int, ttl: int, now: int): Entry<T> {
    Entry(key, data, size, 1, now, now, if ttl != 0 then At(now + ttl) else Never)
  }

  function Set<T>(entries: Entries<T>, maxSize: int, e: Entry<T>): Entries<T> {
    Enforce(Put(entries, e), maxSize)
  }

  datatype Got<T> = Miss | Hit(entry: Entry<T>)
  datatype Outcome<T> = Outcome(entries: Entries<T>, got: Got<T>)

  function Get<T>(entries: Entries<T>, key: string, now: int): Outcome<T> {
    var i := IndexOf(entries, key);
    if i == |entries| then Outcome(entries, Miss)
    else if entries[i].Expired(now) then Outcome(Remove(entries, {key}), Miss)
    else Outcome(entries[i := entries[i].Touched(now)], Hit(entries[i].Touched(now)))
  }

  datatype Read<T> = Read(entries: Entries<T>, items: seq<T>)

  /** A range read clamps its start at 0 and its end at the length of the source. */
  function From(start: int): nat { if start < 0 then 0 else start }
  function To<T>(source: seq<T>, end: int): int { if end < |source| then end else |source| }

  function ChunkKey<T>(source: seq<T>, start: int, end: int): string { Key(From(start), To(source, end)) }
  function Chunk<T>(source: seq<T>, start: int, end: int): seq<T> { Slice(source, From(start), To(source, end)) }

  function ChunkEntry<T>(source: seq<T>, start: int, end: int, sizeOf: seq<T> -> int, now: int): Entry<T> {
    NewEntry(ChunkKey(source, start, end), Chunk(source, start, end), sizeOf(Chunk(source, start, end)), 0, now)
  }

  function GetItems<T>(entries: Entries<T>, maxSize: int, source: seq<T>, start: int, end: int,
                       sizeOf: seq<T> -> int, now: int): Read<T>
  {
    var o := Get(entries, ChunkKey(source, start, end), now);
    match o.got
    case Hit(e) => Read(o.entries, e.data)
    case Miss => Read(Set(o.entries, maxSize, ChunkEntry(source, start, end, sizeOf, now)), Chunk(source, start, end))
  }

  // Removing keys.

  function Keys<T>(entries: Entries<T>): set<string> {
    set i: nat | i < |entries| :: entries[i].key
  }

  lemma {:induction false} RemoveTwice<T>(entries: Entries<T>, a: set<string>, b: set<string>)
    ensures Remove(Remove(entries, a), b) == Remove(entries, a + b)
  {
    if entries != [] {
      var n := |entries| - 1;
      RemoveTwice(entries[..n], a, b);
      var init := Remove(entries[..n], a);
      assert (init + [entries[n]])[..|init|] == init;
    }
  }

  /** Exactly the other entries remain. */
  lemma {:induction false} RemoveKeeps<T>(entries: Entries<T>, keys: set<string>, e: Entry<T>)
    ensures e in Remove(entries, keys) <==> e in entries && e.key !in keys
  {
    if entries != [] {
      var n := |entries| - 1;
      RemoveKeeps(entries[..n], keys, e);
      assert entries == entries[..n] + [entries[n]];
    }
  }

  lemma {:induction false} RemoveSize<T>(entries: Entries<T>, keys: set<string>)
    requires UniqueKeys(entries) && keys <= Keys(entries)
    ensures |Remove(entries, keys)| == |entries| - |keys|
  {
    if entries != [] {
      var n := |entries| - 1;
      var key := entries[n].key;
      assert key !in Keys(entries[..n]);
      assert Keys(entries) == Keys(entries[..n]) + {key};
      RemoveSize(entries[..n], keys - {key});
      RemoveSame(entries[..n], keys, keys - {key});
    }
  }

  lemma {:induction false} RemoveSame<T>(entries: Entries<T>, a: set<string>, b: set<string>)
    requires a * Keys(entries) == b * Keys(entries)
    ensures Remove(entries, a) == Remove(entries, b)
  {
    if entries != [] {
      var n := |entries| - 1;
      assert Keys(entries) == Keys(entries[..n]) + {entries[n].key};
      assert entries[n].key in a <==> entries[n].key in a * Keys(entries);
      assert entries[n].key in b <==> entries[n].key in b * Keys(entries);
      forall k | k in Keys(entries[..n])
        ensures k in a <==> k in b
      {
        assert k in a * Keys(entries) <==> k in a;
      }
      assert a * Keys(entries[..n]) == b * Keys(entries[..n]);
      RemoveSame(entries[..n], a, b);
    }
  }

  lemma {:induction false} RemoveKeepsUnique<T>(entries: Entries<T>, keys: set<string>)
    requires UniqueKeys(entries)
    ensures UniqueKeys(Remove(entries, keys))
  {
    if entries != [] {
      var n := |entries| - 1;
      RemoveKeepsUnique(entries[..n], keys);
      forall e | e in Remove(entries[..n], keys)
        ensures e.key != entries[n].key
      {
        RemoveKeeps(entries[..n], keys, e);
      }
    }
  }

  // Eviction.

  lemma {:induction false} KeysAtAre<T>(entries: Entries<T>, p: seq<nat>, i: nat)
    requires UniqueKeys(entries) && i < |entries| && forall k :: 0 <= k < |p| ==> p[k] < |entries|
    ensures entries[i].key in KeysAt(entries, p) <==> i in p
  {
    if p != [] {
      var n := |p| - 1;
      KeysAtAre(entries, p[..n], i);
      assert p == p[..n] + [p[n]];
    }
  }

  lemma {:induction false} KeysAtSize<T>(entries: Entries<T>, p: seq<nat>)
    requires UniqueKeys(entries) && forall k :: 0 <= k < |p| ==> p[k] < |entries|
    requires forall a, b :: 0 <= a < b < |p| ==> p[a] != p[b]
    ensures |KeysAt(entries, p)| == |p| && KeysAt(entries, p) <= Keys(entries)
  {
    if p != [] {
      var n := |p| - 1;
      KeysAtSize(entries, p[..n]);
      KeysAtAre(entries, p[..n], p[n]);
    }
  }

  lemma NoOldestKeys<T>(entries: Entries<T>)
    ensures OldestKeys(entries, 0) == {}
  {
  }

  lemma OldestKeysGrow<T>(entries: Entries<T>, k: nat)
    requires k < |entries|
    ensures OldestKeys(entries, k + 1) == OldestKeys(entries, k) + {entries[Order(AccessTimes(entries))[k]].key}
  {
    hide Order;
    var order := Order(AccessTimes(entries));
    assert order[..k + 1][..k] == order[..k];
  }

  lemma ExpiredKeysGrow<T>(entries: Entries<T>, now: int, i: nat)
    requires i < |entries|
    ensures ExpiredKeys(entries[..0], now) == {}
    ensures ExpiredKeys(entries[..i + 1], now) ==
            if entries[i].Expired(now) then ExpiredKeys(entries[..i], now) + {entries[i].key}
            else ExpiredKeys(entries[..i], now)
  {
    var a, b := entries[..i], entries[..i + 1];
    assert forall j :: 0 <= j < i ==> b[j] == a[j];
  }

  lemma OldestKeysSize<T>(entries: Entries<T>, k: nat)
    requires UniqueKeys(entries) && k <= |entries|
    ensures |OldestKeys(entries, k)| == k && OldestKeys(entries, k) <= Keys(entries)
  {
    hide Order, KeysAt, Keys;
    var order := Order(AccessTimes(entries));
    OrderIsPermutation(AccessTimes(entries));
    assert forall a :: 0 <= a < k ==> order[..k][a] == order[a];
    KeysAtSize(entries, order[..k]);
  }

  lemma OldestAreFirst<T>(entries: Entries<T>, k: nat, i: nat, j: nat)
    requires UniqueKeys(entries) && k <= |entries| && i < |entries| && j < |entries|
    requires entries[i].key in OldestKeys(entries, k) && entries[j].key !in OldestKeys(entries, k)
    ensures Before(AccessTimes(entries), i, j)
  {
    hide Order, KeysAt;
    var times := AccessTimes(entries);
    var order := Order(times);
    OrderIsOrdered(times);
    OrderIsPermutation(times);
    KeysAtAre(entries, order[..k], i);
    KeysAtAre(entries, order[..k], j);
    var a :| 0 <= a < k && order[a] == i;
    assert j in Elements(order);
    var b :| 0 <= b < |order| && order[b] == j;
    assert b >= k;
  }

  /** Eviction removes exactly the stated share, and whatever it removes was accessed before
      whatever stays, or at the same time and inserted earlier. */
  lemma EvictionIsLRU<T>(entries: Entries<T>, percent: nat)
    requires UniqueKeys(entries) && percent <= 100
    ensures |Evict(entries, percent)| == |entries| - |entries| * percent / 100
    ensures forall i, j :: 0 <= i < |entries| && 0 <= j < |entries| &&
                           entries[i] !in Evict(entries, percent) && entries[j] in Evict(entries, percent) ==>
                             Before(AccessTimes(entries), i, j)
  {
    var k := Share(|entries|, percent);
    OldestKeysSize(entries, k);
    RemoveSize(entries, OldestKeys(entries, k));
    forall i, j | 0 <= i < |entries| && 0 <= j < |entries| &&
                  entries[i] !in Evict(entries, percent) && entries[j] in Evict(entries, percent)
      ensures Before(AccessTimes(entries), i, j)
    {
      RemoveKeeps(entries, OldestKeys(entries, k), entries[i]);
      RemoveKeeps(entries, OldestKeys(entries, k), entries[j]);
      OldestAreFirst(entries, k, i, j);
    }
  }

  /** A lookup serves an entry exactly when the key is stored without an expiry time, or with one
      that is 0 or has not passed, and a key that is not served is not stored afterwards. */
  lemma GetServesLiveEntries<T>(entries: Entries<T>, key: string, now: int)
    requires UniqueKeys(entries)
    ensures var o := Get(entries, key, now);
            && (o.got.Hit? <==>
                exists i :: 0 <= i < |entries| && entries[i].key == key &&
                  (entries[i].expiresAt == Never || entries[i].expiresAt.time == 0 || now <= entries[i].expiresAt.time))
            && (o.got.Miss? ==> forall e :: e in o.entries ==> e.key != key)
  {
    var i := IndexOf(entries, key);
    assert forall j :: 0 <= j < |entries| && entries[j].key == key ==> j == i;
    forall e | e in Remove(entries, {key})
      ensures e.key != key
    {
      RemoveKeeps(entries, {key}, e);
    }
  }

  /** A sweep leaves exactly the entries without an expiry time, or with one that is 0 or has not
      passed. */
  lemma SweepKeepsLive<T>(entries: Entries<T>, now: int, e: Entry<T>)
    requires UniqueKeys(entries)
    ensures e in Remove(entries, ExpiredKeys(entries, now)) <==>
            e in entries && (e.expiresAt == Never || e.expiresAt.time == 0 || now <= e.expiresAt.time)
  {
    RemoveKeeps(entries, ExpiredKeys(entries, now), e);
    if e in entries {
      var i :| 0 <= i < |entries| && entries[i] == e;
    }
  }

  // The cache object.

  class Cache<T> {
    const maxSize: int
    var entries: Entries<T>

    ghost predicate Valid()
      reads this
    {
      UniqueKeys(entries)
    }

    constructor (maxSize: int)
      ensures Valid() && entries == [] && this.maxSize == maxSize
    {
      this.maxSize := maxSize;
      entries := [];
    }

    method SetCacheEntry(key: string, data: seq<T>, size: int, ttl: int, now: int)
      requires Valid()
      modifies this
      ensures Valid() && entries == Set(old(entries), maxSize, NewEntry(key, data, size, ttl, now))
    {
      entries := Put(entries, NewEntry(key, data, size, ttl, now));
      EnforceCacheLimit();
    }

    method EnforceCacheLimit()
      requires Valid()
      modifies this
      ensures Valid() && entries == Enforce(old(entries), maxSize)
    {
      if TotalSize(entries) > maxSize {
        EvictLRUCacheEntries(20);
      }
    }

    method EvictLRUCacheEntries(percent: nat)
      requires Valid() && percent <= 100
      modifies this
      ensures Valid() && entries == Evict(old(entries), percent)
    {
      hide Order, OldestKeys, Remove;
      var snapshot := entries;
      var order := Order(AccessTimes(snapshot));
      var toRemove := Share(|snapshot|, percent);
      RemoveNothing(snapshot);
      NoOldestKeys(snapshot);
      for i := 0 to toRemove
        invariant entries == Remove(snapshot, OldestKeys(snapshot, i))
      {
        var key := snapshot[order[i]].key;
        entries := Remove(entries, {key});
        RemoveTwice(snapshot, OldestKeys(snapshot, i), {key});
        OldestKeysGrow(snapshot, i);
      }
      RemoveKeepsUnique(snapshot, OldestKeys(snapshot, toRemove));
    }

    method GetCacheEntry(key: string, now: int) returns (got: Got<T>)
      requires Valid()
      modifies this
      ensures Valid() && Outcome(entries, got) == Get(old(entries), key, now)
      ensures got.Hit? <==>
                exists i :: 0 <= i < |old(entries)| && old(entries)[i].key == key &&
                  (old(entries)[i].expiresAt == Never || old(entries)[i].expiresAt.time == 0 ||
                   now <= old(entries)[i].expiresAt.time)
    {
      GetServesLiveEntries(entries, key, now);
      var i := IndexOf(entries, key);
      if i == |entries| {
        return Miss;
      }
      if entries[i].Expired(now) {
        RemoveKeepsUnique(entries, {key});
        entries := Remove(entries, {key});
        return Miss;
      }
      entries := entries[i := entries[i].Touched(now)];
      got := Hit(entries[i]);
    }

    method CleanupCache(now: int)
      requires Valid()
      modifies this
      ensures Valid() && entries == Remove(old(entries), ExpiredKeys(old(entries), now))
      ensures forall e :: e in entries <==>
                e in old(entries) && (e.expiresAt == Never || e.expiresAt.time == 0 || now <= e.expiresAt.time)
    {
      var snapshot := entries;
      RemoveNothing(snapshot);
      assert ExpiredKeys(snapshot[..0], now) == {};
      for i := 0 to |snapshot|
        invariant entries == Remove(snapshot, ExpiredKeys(snapshot[..i], now))
      {
        ExpiredKeysGrow(snapshot, now, i);
        if snapshot[i].Expired(now) {
          entries := Remove(entries, {snapshot[i].key});
          RemoveTwice(snapshot, ExpiredKeys(snapshot[..i], now), {snapshot[i].key});
        }
      }
      assert snapshot[..|snapshot|] == snapshot;
      RemoveKeepsUnique(snapshot, ExpiredKeys(snapshot, now));
      forall e: Entry<T>
        ensures e in entries <==>
                e in snapshot && (e.expiresAt == Never || e.expiresAt.time == 0 || now <= e.expiresAt.time)
      {
        SweepKeepsLive(snapshot, now, e);
      }
    }

    method ClearCache()
      modifies this
      ensures Valid() && entries == []
    {
      entries := [];
    }

    /** `getItems` of a provider over `source`. */
    method ReadItems(source: seq<T>, start: int, end: int, sizeOf: seq<T> -> int, now: int) returns (items: seq<T>)
      requires Valid()
      modifies this
      ensures Valid() && Read(entries, items) == GetItems(old(entries), maxSize, source, start, end, sizeOf, now)
    {
      var chunkKey := Key(From(start), To(source, end));
      var cached := GetCacheEntry(chunkKey, now);
      if cached.Hit? {
        return cached.entry.data;
      }
      items := Slice(source, From(start), To(source, end));
      SetCacheEntry(chunkKey, items, sizeOf(items), 0, now);
    }
  }

  lemma {:induction false} RemoveNothing<T>(entries: Entries<T>)
    ensures Remove(entries, {}) == entries
  {
    if entries != [] {
      RemoveNothing(entries[..|entries| - 1]);
    }
  }

  /** With at most four entries nothing is evicted, however large they are. */
  lemma FewEntriesStay<T>(entries: Entries<T>, maxSize: int)
    requires |entries| <= 4
    ensures Enforce(entries, maxSize) == entries
  {
    assert Share(|entries|, 20) == 0;
    assert OldestKeys(entries, 0) == {};
    RemoveNothing(entries);
  }

  // How far the size limit is kept.

  /** The sizes of the entries with the given keys. */
  function SizeOfKeys<T>(entries: Entries<T>, keys: set<string>): int {
    if entries == [] then 0
    else
      var n := |entries| - 1;
      SizeOfKeys(entries[..n], keys) + if entries[n].key in keys then entries[n].size else 0
  }

  lemma {:induction false} TotalAfterRemove<T>(entries: Entries<T>, keys: set<string>)
    ensures TotalSize(Remove(entries, keys)) == TotalSize(entries) - SizeOfKeys(entries, keys)
  {
    if entries != [] {
      var n := |entries| - 1;
      TotalAfterRemove(entries[..n], keys);
      var init := Remove(entries[..n], keys);
      assert (init + [entries[n]])[..|init|] == init;
    }
  }

  /** Storing an entry leaves the total within the limit exactly when it fits, or the fifth of
      the entries that is evicted makes up for the excess. */
  lemma SizeLimitHoldsWhen<T>(entries: Entries<T>, maxSize: int, e: Entry<T>)
    ensures var put := Put(entries, e);
            var evicted := SizeOfKeys(put, OldestKeys(put, Share(|put|, 20)));
            TotalSize(Set(entries, maxSize, e)) <= maxSize <==>
            TotalSize(put) <= maxSize || TotalSize(put) - evicted <= maxSize
  {
    var put := Put(entries, e);
    TotalAfterRemove(put, OldestKeys(put, Share(|put|, 20)));
  }

  /** So a single entry over the limit stays, and so do up to four. */
  lemma SizeLimitOnFewEntries<T>(entries: Entries<T>, maxSize: int, e: Entry<T>)
    requires |entries| <= 3
    ensures TotalSize(Set(entries, maxSize, e)) <= maxSize <==> TotalSize(Put(entries, e)) <= maxSize
  {
    FewEntriesStay(Put(entries, e), maxSize);
  }
}
