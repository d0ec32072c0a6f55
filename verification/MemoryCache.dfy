/** The in-memory store of internal/cache/memory.go. A store is a map from keys to entries; which
    of several equally old entries an eviction picks is up to the sort, so an eviction is described
    by the set of its victims. */
module MemoryCaches {
  import opened Prelude
  import opened Sorting

  /** The dynamic types the program stores. */
  datatype Value = Number(amount: real) | Text(text: string)

  datatype Entry = Entry(value: Value, expiresAt: int, createdAt: int) {
    predicate IsExpired(now: int) {
      now > expiresAt
    }
  }

  type Data = map<string, Entry>

  datatype CacheConfig = CacheConfig(defaultTTL: int, maxTTL: int, maxSize: int)

  // ---------------------------------------------------------------- locked steps on values

  function EffectiveTTL(config: CacheConfig, ttl: int): int {
    var t := if ttl <= 0 then config.defaultTTL else ttl;
    if t > config.maxTTL then config.maxTTL else t
  }

  function NewEntry(config: CacheConfig, value: Value, ttl: int, now: int): Entry {
    Entry(value, now + EffectiveTTL(config, ttl), now)
  }

  predicate Present(data: Data, key: string, now: int) {
    key in data && !data[key].IsExpired(now)
  }

  function LookupEntry(data: Data, key: string, now: int): Option<Entry> {
    if Present(data, key, now) then Some(data[key]) else None
  }

  function Lookup(data: Data, key: string, now: int): Option<Value> {
    if Present(data, key, now) then Some(data[key].value) else None
  }

  /** A read drops the entry it finds expired. */
  function AfterRead(data: Data, key: string, now: int): Data {
    if key in data && data[key].IsExpired(now) then data - {key} else data
  }

  function LookupAll(data: Data, keys: seq<string>, now: int): map<string, Value> {
    map k | k in keys && Present(data, k, now) :: data[k].value
  }

  function Live(data: Data, now: int): Data {
    map k | k in data && Present(data, k, now) :: data[k]
  }

  /** How many entries one eviction removes. */
  function EvictionSize(n: nat): nat {
    if n == 0 then 0 else if n / 10 == 0 then 1 else n / 10
  }

  /** `victims` is a legal outcome of one eviction: a tenth of the entries, at least one, and none
      of them created after an entry that stays. */
  predicate Evictable(data: Data, victims: set<string>) {
    && victims <= data.Keys
    && |victims| == EvictionSize(|data|)
    && (forall v, k | v in victims && k in data.Keys - victims :: data[v].createdAt <= data[k].createdAt)
  }

  /** The victims of a write that finds the store full, or none of a write that does not. */
  predicate MakesRoom(data: Data, full: bool, victims: set<string>) {
    if full then Evictable(data, victims) else victims == {}
  }

  function Put(data: Data, victims: set<string>, key: string, entry: Entry): Data {
    (data - victims)[key := entry]
  }

  /** The entries of a batch carry the TTL as given: it is neither defaulted nor clamped. */
  function Batch(items: map<string, Value>, ttl: int, now: int): Data {
    map k | k in items :: Entry(items[k], now + ttl, now)
  }

  function PutAll(data: Data, victims: set<string>, items: map<string, Value>, ttl: int, now: int): Data {
    (data - victims) + Batch(items, ttl, now)
  }

  function Touch(data: Data, key: string, ttl: int, now: int): Data {
    if key in data then data[key := data[key].(expiresAt := now + ttl)] else data
  }

  // ---------------------------------------------------------------- the eviction order

  datatype Keyed = Keyed(key: string, entry: Entry)

  /** `xs` lists every entry of `data` once. */
  ghost predicate Lists(data: Data, xs: seq<Keyed>) {
    && |xs| == |data| && NoDuplicates(xs)
    && forall x :: x in xs <==> x.key in data && x.entry == data[x.key]
  }

  predicate OldestFirst(xs: seq<Keyed>) {
    forall i, j | 0 <= i < j < |xs| :: xs[i].entry.createdAt <= xs[j].entry.createdAt
  }

  /** Sorts the entries of a store by creation time. */
  method SortByCreation(data: Data, entries: seq<Keyed>) returns (sorted: seq<Keyed>)
    requires Lists(data, entries)
    ensures Lists(data, sorted) && OldestFirst(sorted)
  {
    var older := (a: Keyed, b: Keyed) => a.entry.createdAt < b.entry.createdAt;
    sorted := Sort(entries, older);
    assert forall i, j | 0 <= i < j < |sorted| :: !older(sorted[j], sorted[i]);
    assert forall i | 0 <= i < |sorted| :: sorted[i] in entries;
  }

  // ---------------------------------------------------------------- the classes

  class CacheStats {
    var hits: int
    var misses: int
    var evictions: int

    constructor ()
      ensures hits == misses == evictions == 0
    {
      hits, misses, evictions := 0, 0, 0;
    }
  }

  class InMemoryCache {
    const config: CacheConfig
    var data: Data
    const stats: CacheStats

    constructor (config: CacheConfig)
      ensures this.config == config && data == map[] && fresh(stats)
      ensures stats.hits == stats.misses == stats.evictions == 0
    {
      this.config := config;
      data := map[];
      stats := new CacheStats();
    }

    method RecordRead(hit: bool)
      modifies stats
      ensures stats.hits == old(stats.hits) + (if hit then 1 else 0)
      ensures stats.misses == old(stats.misses) + (if hit then 0 else 1)
      ensures stats.evictions == old(stats.evictions)
    {
      if hit {
        stats.hits := stats.hits + 1;
      } else {
        stats.misses := stats.misses + 1;
      }
    }

    method GetWithMetadata(key: string, now: int) returns (found: Option<Entry>)
      modifies this, stats
      ensures found == LookupEntry(old(data), key, now) && data == AfterRead(old(data), key, now)
      ensures stats.hits == old(stats.hits) + (if found.Some? then 1 else 0)
      ensures stats.misses == old(stats.misses) + (if found.Some? then 0 else 1)
      ensures stats.evictions == old(stats.evictions)
    {
      if key !in data {
        RecordRead(false);
        return None;
      }
      var entry := data[key];
      if entry.IsExpired(now) {
        data := data - {key};
        RecordRead(false);
        return None;
      }
      RecordRead(true);
      return Some(entry);
    }

    method Get(key: string, now: int) returns (found: Option<Value>)
      modifies this, stats
      ensures found == Lookup(old(data), key, now) && data == AfterRead(old(data), key, now)
      ensures stats.hits == old(stats.hits) + (if found.Some? then 1 else 0)
      ensures stats.misses == old(stats.misses) + (if found.Some? then 0 else 1)
      ensures stats.evictions == old(stats.evictions)
    {
      var entry := GetWithMetadata(key, now);
      match entry {
        case None => found := None;
        case Some(e) => found := Some(e.value);
      }
    }

    method SetWithMetadata(key: string, entry: Entry) returns (ghost victims: set<string>)
      modifies this, stats
      ensures MakesRoom(old(data), |old(data)| >= config.maxSize, victims)
      ensures data == Put(old(data), victims, key, entry)
      ensures stats.evictions == old(stats.evictions) + |victims|
      ensures stats.hits == old(stats.hits) && stats.misses == old(stats.misses)
    {
      victims := {};
      if |data| >= config.maxSize {
        victims := EvictLRU();
      }
      data := data[key := entry];
    }

    method Set(key: string, value: Value, ttl: int, now: int) returns (ghost victims: set<string>)
      modifies this, stats
      ensures MakesRoom(old(data), |old(data)| >= config.maxSize, victims)
      ensures data == Put(old(data), victims, key, NewEntry(config, value, ttl, now))
      ensures stats.evictions == old(stats.evictions) + |victims|
      ensures stats.hits == old(stats.hits) && stats.misses == old(stats.misses)
    {
      var t := ttl;
      if t <= 0 {
        t := config.defaultTTL;
      }
      if t > config.maxTTL {
        t := config.maxTTL;
      }
      victims := SetWithMetadata(key, Entry(value, now + t, now));
    }

    method SetMultiple(items: map<string, Value>, ttl: int, now: int) returns (ghost victims: set<string>)
      modifies this, stats
      ensures MakesRoom(old(data), items != map[] && |old(data)| + |items| >= config.maxSize, victims)
      ensures data == PutAll(old(data), victims, items, ttl, now)
      ensures stats.evictions == old(stats.evictions) + |victims|
      ensures stats.hits == old(stats.hits) && stats.misses == old(stats.misses)
    {
      victims := {};
      if items == map[] {
        EmptyBatch(data, items, ttl, now);
        return;
      }
      if |data| + |items| >= config.maxSize {
        victims := EvictLRU();
      }
      EvictThenStore(old(data), victims, items, ttl, now);
      StoreItems(items, ttl, now);
    }

    method StoreItems(items: map<string, Value>, ttl: int, now: int)
      modifies this`data
      ensures data == PutAll(old(data), {}, items, ttl, now)
    {
      var pending := items.Keys;
      while pending != {}
        invariant pending <= items.Keys
        invariant data.Keys == old(data).Keys + (items.Keys - pending)
        invariant forall k | k in data ::
            data[k] == if k in items && k !in pending then Entry(items[k], now + ttl, now) else old(data)[k]
        decreases pending
      {
        var key :| key in pending;
        data := data[key := Entry(items[key], now + ttl, now)];
        pending := pending - {key};
      }
      assert data.Keys == PutAll(old(data), {}, items, ttl, now).Keys;
    }

    method Delete(key: string)
      modifies this`data
      ensures data == old(data) - {key}
    {
      data := data - {key};
    }

    method Clear()
      modifies this`data
      ensures data == map[]
    {
      data := map[];
    }

    method Expire(key: string, ttl: int, now: int)
      modifies this`data
      ensures data == Touch(old(data), key, ttl, now)
    {
      if key in data {
        data := data[key := data[key].(expiresAt := now + ttl)];
      }
    }

    method GetMultiple(keys: seq<string>, now: int) returns (result: map<string, Value>)
      ensures result == LookupAll(data, keys, now)
    {
      result := map[];
      for i := 0 to |keys|
        invariant result == LookupAll(data, keys[..i], now)
      {
        var key := keys[i];
        assert keys[..i + 1] == keys[..i] + [key];
        if key in data && !data[key].IsExpired(now) {
          result := result[key := data[key].value];
        }
      }
      assert keys[..|keys|] == keys;
    }

    method EvictExpired(now: int) returns (count: nat)
      modifies this, stats
      ensures data == Live(old(data), now)
      ensures count == |old(data)| - |data|
      ensures stats.evictions == old(stats.evictions) + count
      ensures stats.hits == old(stats.hits) && stats.misses == old(stats.misses)
    {
      var expired := CollectExpired(now);
      for i := 0 to |expired|
        invariant data == old(data) - Prefix(expired, i)
        invariant unchanged(stats)
      {
        PrefixGrows(expired, i);
        RemoveOneMore(old(data), Prefix(expired, i), expired[i]);
        data := data - {expired[i]};
      }
      SweepMeaning(old(data), expired, now);
      stats.evictions := stats.evictions + |expired|;
      count := |expired|;
    }

    method CollectExpired(now: int) returns (expired: seq<string>)
      ensures NoDuplicates(expired)
      ensures forall k :: k in expired <==> k in data && data[k].IsExpired(now)
    {
      expired := [];
      var pending := data.Keys;
      while pending != {}
        invariant pending <= data.Keys
        invariant NoDuplicates(expired)
        invariant forall k :: k in expired <==> k in data && k !in pending && data[k].IsExpired(now)
        decreases pending
      {
        var key :| key in pending;
        pending := pending - {key};
        if data[key].IsExpired(now) {
          expired := expired + [key];
        }
      }
    }

    /** Collects every entry, sorts them oldest first and deletes the first tenth, at least one. */
    method EvictLRU() returns (ghost victims: set<string>)
      modifies this`data, stats
      ensures Evictable(old(data), victims) && data == old(data) - victims
      ensures stats.evictions == old(stats.evictions) + |victims|
      ensures stats.hits == old(stats.hits) && stats.misses == old(stats.misses)
    {
      victims := {};
      if data == map[] {
        return;
      }
      var entries := Collect();
      entries := SortByCreation(data, entries);
      var evictCount := |entries| / 10;
      if evictCount == 0 {
        evictCount := 1;
      }
      victims := DeleteFirst(entries, evictCount);
      stats.evictions := stats.evictions + evictCount;
    }

    method DeleteFirst(entries: seq<Keyed>, n: nat) returns (ghost victims: set<string>)
      requires n <= |entries| && Lists(data, entries) && OldestFirst(entries)
      modifies this`data
      ensures data == old(data) - victims && |victims| == n && victims <= old(data).Keys
      ensures forall v, k | v in victims && k in old(data).Keys - victims ::
                old(data)[v].createdAt <= old(data)[k].createdAt
    {
      ghost var keys := seq(|entries|, i requires 0 <= i < |entries| => entries[i].key);
      KeysAreDistinct(data, entries, keys);
      victims := {};
      for i := 0 to n
        invariant victims == Prefix(keys, i) && |victims| == i
        invariant data == old(data) - victims
      {
        PrefixGrows(keys, i);
        RemoveOneMore(old(data), victims, entries[i].key);
        data := data - {entries[i].key};
        victims := victims + {entries[i].key};
      }
      VictimsAreOldest(old(data), entries, keys, n);
    }

    method Collect() returns (entries: seq<Keyed>)
      ensures Lists(data, entries)
    {
      entries := [];
      var pending := data.Keys;
      while pending != {}
        invariant pending <= data.Keys && |entries| + |pending| == |data| && NoDuplicates(entries)
        invariant forall x :: x in entries <==> x.key in data && x.key !in pending && x.entry == data[x.key]
        decreases pending
      {
        var key :| key in pending;
        pending := pending - {key};
        entries := entries + [Keyed(key, data[key])];
      }
    }
  }

  ghost function Prefix(keys: seq<string>, n: nat): set<string>
    requires n <= |keys|
  {
    set i | 0 <= i < n :: keys[i]
  }

  lemma PrefixGrows(keys: seq<string>, n: nat)
    requires n < |keys| && NoDuplicates(keys)
    ensures Prefix(keys, n + 1) == Prefix(keys, n) + {keys[n]} && keys[n] !in Prefix(keys, n)
  {
  }

  lemma RemoveOneMore(data: Data, removed: set<string>, key: string)
    ensures (data - removed) - {key} == data - (removed + {key})
  {
  }

  lemma EmptyBatch(data: Data, items: map<string, Value>, ttl: int, now: int)
    requires items == map[]
    ensures PutAll(data, {}, items, ttl, now) == data
  {
    assert Batch(items, ttl, now) == map[];
  }

  lemma EvictThenStore(data: Data, victims: set<string>, items: map<string, Value>, ttl: int, now: int)
    ensures PutAll(data - victims, {}, items, ttl, now) == PutAll(data, victims, items, ttl, now)
  {
    assert (data - victims) - {} == data - victims;
  }

  lemma {:induction false} PrefixCount(keys: seq<string>, n: nat)
    requires n <= |keys| && NoDuplicates(keys)
    ensures |Prefix(keys, n)| == n
  {
    if n == 0 {
      assert Prefix(keys, 0) == {};
    } else {
      PrefixCount(keys, n - 1);
      PrefixGrows(keys, n - 1);
    }
  }

  lemma RemovalCounts(data: Data, victims: set<string>)
    requires victims <= data.Keys
    ensures |data - victims| == |data| - |victims|
  {
    assert (data - victims).Keys == data.Keys - victims;
    assert data.Keys == (data.Keys - victims) + victims;
  }

  lemma {:induction false} Oldest(data: Data, keys: set<string>) returns (k: string)
    requires keys != {} && keys <= data.Keys
    ensures k in keys && forall x | x in keys :: data[k].createdAt <= data[x].createdAt
    decreases |keys|
  {
    k :| k in keys;
    if keys != {k} {
      var rest := Oldest(data, keys - {k});
      if data[rest].createdAt < data[k].createdAt {
        k := rest;
      }
    }
  }

  lemma {:induction false} SomeOldest(data: Data, n: nat) returns (victims: set<string>)
    requires n <= |data|
    ensures victims <= data.Keys && |victims| == n
    ensures forall v, k | v in victims && k in data.Keys - victims :: data[v].createdAt <= data[k].createdAt
  {
    victims := {};
    if n > 0 {
      victims := SomeOldest(data, n - 1);
      var rest := data.Keys - victims;
      assert |data.Keys| == |victims| + |rest| by {
        assert data.Keys == victims + rest;
      }
      var k := Oldest(data, rest);
      victims := victims + {k};
    }
  }

  /** An eviction always has victims to pick. */
  lemma RoomCanBeMade(data: Data, full: bool) returns (victims: set<string>)
    ensures MakesRoom(data, full, victims)
  {
    victims := {};
    if full {
      victims := SomeOldest(data, EvictionSize(|data|));
    }
  }

  lemma PrefixOfAll(keys: seq<string>, k: string)
    ensures k in Prefix(keys, |keys|) <==> k in keys
  {
  }

  lemma SweptIsLive(data: Data, expired: seq<string>, now: int)
    requires forall k :: k in expired <==> k in data && data[k].IsExpired(now)
    ensures Prefix(expired, |expired|) <= data.Keys
    ensures data - Prefix(expired, |expired|) == Live(data, now)
  {
    forall k
      ensures k in Prefix(expired, |expired|) <==> k in data && data[k].IsExpired(now)
    {
      PrefixOfAll(expired, k);
    }
  }

  lemma SweepMeaning(data: Data, expired: seq<string>, now: int)
    requires NoDuplicates(expired)
    requires forall k :: k in expired <==> k in data && data[k].IsExpired(now)
    ensures data - Prefix(expired, |expired|) == Live(data, now)
    ensures |Live(data, now)| == |data| - |expired|
  {
    SweptIsLive(data, expired, now);
    PrefixCount(expired, |expired|);
    RemovalCounts(data, Prefix(expired, |expired|));
  }

  lemma KeysAreDistinct(data: Data, entries: seq<Keyed>, keys: seq<string>)
    requires Lists(data, entries) && |keys| == |entries|
    requires forall i | 0 <= i < |keys| :: keys[i] == entries[i].key
    ensures NoDuplicates(keys)
  {
    forall i, j | 0 <= i < j < |keys|
      ensures keys[i] != keys[j]
    {
      assert entries[i] in entries && entries[j] in entries && entries[i] != entries[j];
    }
  }

  /** The keys of the first `n` of all entries sorted oldest first are older than the others. */
  lemma VictimsAreOldest(data: Data, entries: seq<Keyed>, keys: seq<string>, n: nat)
    requires n <= |entries| == |keys| && OldestFirst(entries) && Lists(data, entries)
    requires forall i | 0 <= i < |keys| :: keys[i] == entries[i].key
    ensures Prefix(keys, n) <= data.Keys
    ensures forall v, k | v in Prefix(keys, n) && k in data.Keys - Prefix(keys, n) :: data[v].createdAt <= data[k].createdAt
  {
    var victims := Prefix(keys, n);
    forall v | v in victims
      ensures v in data
    {
      var i :| 0 <= i < n && keys[i] == v;
      assert entries[i] in entries;
    }
    forall v, k | v in victims && k in data.Keys - victims
      ensures data[v].createdAt <= data[k].createdAt
    {
      var i :| 0 <= i < n && keys[i] == v;
      assert entries[i] in entries && Keyed(k, data[k]) in entries;
      var j :| 0 <= j < |entries| && entries[j] == Keyed(k, data[k]);
    }
  }
}
