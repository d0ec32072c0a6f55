/** The layered cache of internal/cache/fallback.go: an unreliable primary in front of an in-memory
    fallback. The primary is any TTL store that may fail on any call and may hide or lose entries.
    An operation reads the clock once per layer, `at` for the primary and `later` for the fallback. */
module FallbackCaches {
  import opened Prelude
  import opened MemoryCaches

  datatype LayerConfig = LayerConfig(primary: CacheConfig, fallbackTTL: int) {
    /** The fallback shares the configuration except that its default TTL is the fallback TTL. */
    function Fallback(): CacheConfig {
      primary.(defaultTTL := fallbackTTL)
    }
  }

  /** How a read of the primary goes: it fails, or it reports the `hidden` keys as missing. */
  datatype ReadFault = ReadFails | Serves(hidden: set<string>)

  /** How a write of the primary goes: a failed write may have taken effect on any of the keys. */
  datatype WriteFault = Done | Fails(applied: set<string>)

  datatype Layers = Layers(primary: Data, fallback: Data)

  datatype Op =
    | Get(key: string, at: int, later: int, read: ReadFault, victims: set<string>)
    | GetWithMetadata(key: string, at: int, later: int, read: ReadFault, victims: set<string>)
    | GetMultiple(keys: seq<string>, at: int, later: int, read: ReadFault)
    | Set(key: string, value: Value, ttl: int, at: int, later: int, write: WriteFault, victims: set<string>)
    | SetMultiple(items: map<string, Value>, ttl: int, at: int, later: int, write: WriteFault, victims: set<string>)
    | SetWithMetadata(key: string, entry: Entry, write: WriteFault, victims: set<string>)
    | Delete(key: string, write: WriteFault)
    | Clear(write: WriteFault)
    | EvictExpired(at: int, later: int, read: ReadFault)
    | Lose(lost: set<string>)

  datatype Answer = Nothing | One(value: Option<Value>) | Meta(entry: Option<Entry>) | Many(values: map<string, Value>)

  // ---------------------------------------------------------------- the primary on values

  function PrimaryLookup(data: Data, key: string, at: int, read: ReadFault): Option<Entry> {
    if read.ReadFails? || key in read.hidden then None else LookupEntry(data, key, at)
  }

  function PrimaryAfterRead(data: Data, key: string, at: int, read: ReadFault): Data {
    if read.ReadFails? || key in read.hidden then data else AfterRead(data, key, at)
  }

  function PrimaryAll(data: Data, keys: seq<string>, at: int, read: ReadFault): map<string, Value> {
    if read.ReadFails? then map[] else LookupAll(data, keys, at) - read.hidden
  }

  /** `after` on the given keys and `before` elsewhere. */
  function Partly(before: Data, after: Data, keys: set<string>): Data {
    (before - keys) + map k | k in after && k in keys :: after[k]
  }

  function Written(before: Data, after: Data, write: WriteFault): Data {
    if write.Done? then after else Partly(before, after, write.applied)
  }

  // ---------------------------------------------------------------- operations on values

  function Missing(keys: seq<string>, found: map<string, Value>): seq<string> {
    if keys == [] then []
    else Missing(keys[..|keys| - 1], found) + (if keys[|keys| - 1] in found then [] else [keys[|keys| - 1]])
  }

  function Step(config: LayerConfig, s: Layers, op: Op): (Layers, Answer) {
    match op
    case Get(key, at, later, read, victims) =>
      var p := PrimaryAfterRead(s.primary, key, at, read);
      (match PrimaryLookup(s.primary, key, at, read)
       case Some(e) =>
         (Layers(p, Put(s.fallback, victims, key, NewEntry(config.Fallback(), e.value, config.fallbackTTL, later))),
          One(Some(e.value)))
       case None => (Layers(p, AfterRead(s.fallback, key, later)), One(Lookup(s.fallback, key, later))))
    case GetWithMetadata(key, at, later, read, victims) =>
      var p := PrimaryAfterRead(s.primary, key, at, read);
      (match PrimaryLookup(s.primary, key, at, read)
       case Some(e) => (Layers(p, Put(s.fallback, victims, key, e)), Meta(Some(e)))
       case None => (Layers(p, AfterRead(s.fallback, key, later)), Meta(LookupEntry(s.fallback, key, later))))
    case GetMultiple(keys, at, later, read) =>
      var found := PrimaryAll(s.primary, keys, at, read);
      (s, Many(found + LookupAll(s.fallback, Missing(keys, found), later)))
    case Set(key, value, ttl, at, later, write, victims) =>
      (Layers(Written(s.primary, s.primary[key := NewEntry(config.primary, value, ttl, at)], write),
              Put(s.fallback, victims, key, NewEntry(config.Fallback(), value, config.fallbackTTL, later))), Nothing)
    case SetMultiple(items, ttl, at, later, write, victims) =>
      (Layers(Written(s.primary, PutAll(s.primary, {}, items, ttl, at), write),
              PutAll(s.fallback, victims, items, config.fallbackTTL, later)), Nothing)
    case SetWithMetadata(key, entry, write, victims) =>
      (Layers(Written(s.primary, s.primary[key := entry], write), Put(s.fallback, victims, key, entry)), Nothing)
    case Delete(key, write) =>
      (Layers(Written(s.primary, s.primary - {key}, write), s.fallback - {key}), Nothing)
    case Clear(write) =>
      (Layers(Written(s.primary, map[], write), map[]), Nothing)
    case EvictExpired(at, later, read) =>
      (Layers(if read.ReadFails? then s.primary else Live(s.primary, at), Live(s.fallback, later)), Nothing)
    case Lose(lost) => (s.(primary := s.primary - lost), Nothing)
  }

  // ---------------------------------------------------------------- the classes

  datatype Failure = PrimaryDown

  lemma SetMultipleStep(config: LayerConfig, primary: Data, fallback: Data, items: map<string, Value>, ttl: int,
                        at: int, later: int, write: WriteFault, victims: set<string>)
    ensures Step(config, Layers(primary, fallback), Op.SetMultiple(items, ttl, at, later, write, victims)).0
         == Layers(Written(primary, PutAll(primary, {}, items, ttl, at), write),
                   PutAll(fallback, victims, items, config.fallbackTTL, later))
  {
  }

  lemma SetStep(config: LayerConfig, primary: Data, fallback: Data, key: string, value: Value, ttl: int,
                at: int, later: int, write: WriteFault, victims: set<string>)
    ensures Step(config, Layers(primary, fallback), Op.Set(key, value, ttl, at, later, write, victims)).0
         == Layers(Written(primary, primary[key := NewEntry(config.primary, value, ttl, at)], write),
                   Put(fallback, victims, key, NewEntry(config.Fallback(), value, config.fallbackTTL, later)))
  {
  }

  lemma GetMultipleStep(config: LayerConfig, s: Layers, keys: seq<string>, at: int, later: int, read: ReadFault)
    ensures var found := PrimaryAll(s.primary, keys, at, read);
            Step(config, s, Op.GetMultiple(keys, at, later, read))
            == (s, Many(found + LookupAll(s.fallback, Missing(keys, found), later)))
  {
  }

  /** An unreliable primary; how each call goes is decided by its last argument. */
  class PrimaryCache {
    const config: CacheConfig
    var data: Data

    constructor (config: CacheConfig)
      ensures this.config == config && data == map[]
    {
      this.config := config;
      data := map[];
    }

    method Get(key: string, at: int, read: ReadFault) returns (r: Result<Option<Entry>, Failure>)
      modifies this
      ensures r.Err? <==> read.ReadFails?
      ensures r.Ok? ==> r.value == PrimaryLookup(old(data), key, at, read)
      ensures data == PrimaryAfterRead(old(data), key, at, read)
    {
      if read.ReadFails? {
        return Err(PrimaryDown);
      }
      if key in read.hidden || key !in data {
        return Ok(None);
      }
      var entry := data[key];
      if entry.IsExpired(at) {
        data := data - {key};
        return Ok(None);
      }
      return Ok(Some(entry));
    }

    method GetMultiple(keys: seq<string>, at: int, read: ReadFault) returns (r: Result<map<string, Value>, Failure>)
      ensures r.Err? <==> read.ReadFails?
      ensures r.Ok? ==> r.value == PrimaryAll(data, keys, at, read)
    {
      if read.ReadFails? {
        return Err(PrimaryDown);
      }
      return Ok(LookupAll(data, keys, at) - read.hidden);
    }

    /** Every write goes the same way: the data becomes `after`, or partly so if the call fails. */
    method Write(after: Data, write: WriteFault) returns (r: Result<(), Failure>)
      modifies this
      ensures data == Written(old(data), after, write)
      ensures r.Ok? <==> write.Done?
    {
      data := Written(data, after, write);
      return if write.Done? then Ok(()) else Err(PrimaryDown);
    }

    method EvictExpired(at: int, read: ReadFault) returns (r: Result<nat, Failure>)
      modifies this
      ensures data == if read.ReadFails? then old(data) else Live(old(data), at)
      ensures r.Ok? <==> !read.ReadFails?
      ensures r.Ok? ==> r.value == |old(data)| - |data|
    {
      if read.ReadFails? {
        return Err(PrimaryDown);
      }
      var before := |data|;
      LiveIsSmaller(data, at);
      data := Live(data, at);
      return Ok(before - |data|);
    }
  }

  lemma LiveIsSmaller(data: Data, at: int)
    ensures |Live(data, at)| <= |data|
  {
    assert Live(data, at).Keys <= data.Keys;
    var gone := data.Keys - Live(data, at).Keys;
    assert data.Keys == Live(data, at).Keys + gone;
  }

  class FallbackCache {
    const config: LayerConfig
    const primary: PrimaryCache
    const fallback: InMemoryCache

    ghost function View(): Layers
      reads primary, fallback
    {
      Layers(primary.data, fallback.data)
    }

    /** The layers run under the configuration they were built from. */
    ghost predicate Valid() {
      primary.config == config.primary && fallback.config == config.Fallback()
    }

    constructor (primary: PrimaryCache, fallbackTTL: int)
      ensures Valid() && this.primary == primary && config.fallbackTTL == fallbackTTL
      ensures fresh(fallback) && fresh(fallback.stats) && View() == Layers(primary.data, map[])
    {
      config := LayerConfig(primary.config, fallbackTTL);
      this.primary := primary;
      fallback := new InMemoryCache(primary.config.(defaultTTL := fallbackTTL));
    }

    method Get(key: string, at: int, later: int, read: ReadFault)
      returns (value: Option<Value>, ghost victims: set<string>)
      requires Valid()
      modifies primary, fallback, fallback.stats
      ensures (View(), One(value)) == Step(config, old(View()), Op.Get(key, at, later, read, victims))
      ensures MakesRoom(old(fallback.data), PrimaryLookup(old(primary.data), key, at, read).Some?
                                            && |old(fallback.data)| >= config.primary.maxSize, victims)
    {
      victims := {};
      var answer := primary.Get(key, at, read);
      match answer {
        case Err(_) => value := fallback.Get(key, later);
        case Ok(Some(entry)) =>
          victims := fallback.Set(key, entry.value, config.fallbackTTL, later);
          value := Some(entry.value);
        case Ok(None) => value := fallback.Get(key, later);
      }
    }

    method GetWithMetadata(key: string, at: int, later: int, read: ReadFault)
      returns (entry: Option<Entry>, ghost victims: set<string>)
      requires Valid()
      modifies primary, fallback, fallback.stats
      ensures (View(), Meta(entry)) == Step(config, old(View()), Op.GetWithMetadata(key, at, later, read, victims))
      ensures MakesRoom(old(fallback.data), PrimaryLookup(old(primary.data), key, at, read).Some?
                                            && |old(fallback.data)| >= config.primary.maxSize, victims)
    {
      victims := {};
      var answer := primary.Get(key, at, read);
      match answer {
        case Err(_) => entry := fallback.GetWithMetadata(key, later);
        case Ok(Some(e)) =>
          victims := fallback.SetWithMetadata(key, e);
          entry := Some(e);
        case Ok(None) => entry := fallback.GetWithMetadata(key, later);
      }
    }

    method GetMultiple(keys: seq<string>, at: int, later: int, read: ReadFault) returns (values: map<string, Value>)
      requires Valid()
      ensures (View(), Many(values)) == Step(config, View(), Op.GetMultiple(keys, at, later, read))
    {
      var answer := primary.GetMultiple(keys, at, read);
      if answer.Err? {
        values := fallback.GetMultiple(keys, later);
        NothingFound(keys);
        assert map[] + values == values;
        GetMultipleStep(config, View(), keys, at, later, read);
        return;
      }
      var found := answer.value;
      var missing: seq<string> := [];
      for i := 0 to |keys|
        invariant missing == Missing(keys[..i], found)
      {
        assert keys[..i + 1][..i] == keys[..i];
        if keys[i] !in found {
          missing := missing + [keys[i]];
        }
      }
      assert keys[..|keys|] == keys;
      values := found;
      if |missing| > 0 {
        var extra := fallback.GetMultiple(missing, later);
        var pending := extra.Keys;
        while pending != {}
          invariant pending <= extra.Keys
          invariant values.Keys == found.Keys + (extra.Keys - pending)
          invariant forall k | k in values :: values[k] == if k in extra && k !in pending then extra[k] else found[k]
          decreases pending
        {
          var k :| k in pending;
          values := values[k := extra[k]];
          pending := pending - {k};
        }
        assert values == found + extra;
      } else {
        assert found + LookupAll(fallback.data, missing, later) == found;
      }
      GetMultipleStep(config, View(), keys, at, later, read);
    }

    method Set(key: string, value: Value, ttl: int, at: int, later: int, write: WriteFault)
      returns (ghost victims: set<string>)
      requires Valid()
      modifies primary, fallback, fallback.stats
      ensures View() == Step(config, old(View()), Op.Set(key, value, ttl, at, later, write, victims)).0
      ensures MakesRoom(old(fallback.data), |old(fallback.data)| >= config.primary.maxSize, victims)
    {
      var stored := primary.Write(primary.data[key := NewEntry(primary.config, value, ttl, at)], write);
      victims := fallback.Set(key, value, config.fallbackTTL, later);
      SetStep(config, old(primary.data), old(fallback.data), key, value, ttl, at, later, write, victims);
    }

    method SetMultiple(items: map<string, Value>, ttl: int, at: int, later: int, write: WriteFault)
      returns (ghost victims: set<string>)
      requires Valid()
      modifies primary, fallback, fallback.stats
      ensures View() == Step(config, old(View()), Op.SetMultiple(items, ttl, at, later, write, victims)).0
      ensures MakesRoom(old(fallback.data), items != map[] && |old(fallback.data)| + |items| >= config.primary.maxSize, victims)
    {
      var stored := primary.Write(PutAll(primary.data, {}, items, ttl, at), write);
      victims := fallback.SetMultiple(items, config.fallbackTTL, later);
      SetMultipleStep(config, old(primary.data), old(fallback.data), items, ttl, at, later, write, victims);
    }

    method SetWithMetadata(key: string, entry: Entry, write: WriteFault) returns (ghost victims: set<string>)
      requires Valid()
      modifies primary, fallback, fallback.stats
      ensures View() == Step(config, old(View()), Op.SetWithMetadata(key, entry, write, victims)).0
      ensures MakesRoom(old(fallback.data), |old(fallback.data)| >= config.primary.maxSize, victims)
    {
      var stored := primary.Write(primary.data[key := entry], write);
      victims := fallback.SetWithMetadata(key, entry);
    }

    method Delete(key: string, write: WriteFault)
      requires Valid()
      modifies primary, fallback
      ensures View() == Step(config, old(View()), Op.Delete(key, write)).0
    {
      var deleted := primary.Write(primary.data - {key}, write);
      fallback.Delete(key);
    }

    method Clear(write: WriteFault)
      requires Valid()
      modifies primary, fallback
      ensures View() == Step(config, old(View()), Op.Clear(write)).0
    {
      var cleared := primary.Write(map[], write);
      fallback.Clear();
    }

    method EvictExpired(at: int, later: int, read: ReadFault) returns (count: nat)
      requires Valid()
      modifies primary, fallback, fallback.stats
      ensures View() == Step(config, old(View()), Op.EvictExpired(at, later, read)).0
      ensures count == |old(primary.data)| - |primary.data| + |old(fallback.data)| - |fallback.data|
    {
      var primaryCount := primary.EvictExpired(at, read);
      var fallbackCount := fallback.EvictExpired(later);
      count := if primaryCount.Err? then fallbackCount else primaryCount.value + fallbackCount;
    }
  }

  lemma {:induction false} NothingFound(keys: seq<string>)
    ensures Missing(keys, map[]) == keys
  {
    if keys != [] {
      NothingFound(keys[..|keys| - 1]);
    }
  }
}
