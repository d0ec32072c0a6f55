/** What a client of the layered cache can rely on over a whole run of operations, however the
    primary misbehaves: how old a value can be, and when it is the value written last. */
module FallbackRuns {
  import opened Prelude
  import opened MemoryCaches
  import opened FallbackCaches

  /** The layers and the answers after running `ops` from `start`. */
  function RunFrom(config: LayerConfig, start: Layers, ops: seq<Op>): (r: (Layers, seq<Answer>))
    ensures |r.1| == |ops|
    decreases ops
  {
    if ops == [] then (start, [])
    else
      var (s, answers) := RunFrom(config, start, ops[..|ops| - 1]);
      var (e, answer) := Step(config, s, ops[|ops| - 1]);
      (e, answers + [answer])
  }

  /** A run on empty layers. */
  function Run(config: LayerConfig, ops: seq<Op>): (r: (Layers, seq<Answer>))
    ensures |r.1| == |ops|
  {
    RunFrom(config, Layers(map[], map[]), ops)
  }

  /** The answer to `op` hands `value` to the client as the value of `key`. */
  predicate Returns(op: Op, answer: Answer, key: string, value: Value) {
    match answer
    case One(v) => op.Get? && op.key == key && v == Some(value)
    case Meta(e) => op.GetWithMetadata? && op.key == key && e.Some? && e.value.value == value
    case Many(vs) => op.GetMultiple? && key in vs && vs[key] == value
    case Nothing => false
  }

  predicate Writes(op: Op, key: string, value: Value) {
    match op
    case Set(k, v, _, _, _, _, _) => k == key && v == value
    case SetMultiple(items, _, _, _, _, _) => key in items && items[key] == value
    case _ => false
  }

  // ---------------------------------------------------------------- how old a value can be

  /** Bounds a run may respect: effective TTLs of the primary up to `p`, of the fallback up to `f`,
      and at most `delay` between an operation's two clock readings. */
  datatype Bounds = Bounds(p: nat, f: nat, delay: nat)

  predicate Within(config: LayerConfig, op: Op, b: Bounds) {
    match op
    case Set(_, _, ttl, at, later, _, _) =>
      EffectiveTTL(config.primary, ttl) <= b.p && later <= at + b.delay
      && EffectiveTTL(config.Fallback(), config.fallbackTTL) <= b.f
    case SetMultiple(_, ttl, at, later, _, _) =>
      ttl <= b.p && config.fallbackTTL <= b.f && later <= at + b.delay
    case Get(_, at, later, _, _) =>
      later <= at + b.delay && EffectiveTTL(config.Fallback(), config.fallbackTTL) <= b.f
    case GetWithMetadata(_, at, later, _, _) => later <= at + b.delay
    case GetMultiple(_, at, later, _) => later <= at + b.delay
    case SetWithMetadata(_, _, _, _) => false
    case _ => true
  }

  /** A `Set` copies to the fallback for exactly the smaller of the fallback TTL and `MaxTTL`. */
  lemma FallbackTTLIsClamped(config: LayerConfig)
    ensures EffectiveTTL(config.Fallback(), config.fallbackTTL) == Min(config.fallbackTTL, config.primary.maxTTL)
  {
  }

  /** Some write of `ops` put this value under `key`, no more than `life` before the entry expires. */
  ghost predicate WrittenBy(ops: seq<Op>, key: string, entry: Entry, life: int) {
    exists i :: 0 <= i < |ops| && Writes(ops[i], key, entry.value) && entry.expiresAt <= ops[i].at + life
  }

  ghost predicate Traced(ops: seq<Op>, data: Data, life: int) {
    forall k | k in data :: WrittenBy(ops, k, data[k], life)
  }

  lemma WrittenByLater(ops: seq<Op>, op: Op, key: string, entry: Entry, copy: Entry, life: int, more: nat)
    requires WrittenBy(ops, key, entry, life)
    requires copy.value == entry.value && copy.expiresAt <= entry.expiresAt + more
    ensures WrittenBy(ops + [op], key, copy, life + more)
  {
    var i :| 0 <= i < |ops| && Writes(ops[i], key, entry.value) && entry.expiresAt <= ops[i].at + life;
    assert (ops + [op])[i] == ops[i];
  }

  /** Entries that were there before stay traced; the others come from the last operation. */
  lemma TracedLater(ops: seq<Op>, op: Op, data: Data, after: Data, life: int)
    requires Traced(ops, data, life)
    requires forall k | k in after && !(k in data && after[k] == data[k]) ::
               Writes(op, k, after[k].value) && after[k].expiresAt <= op.at + life
    ensures Traced(ops + [op], after, life)
  {
    var all := ops + [op];
    forall k | k in after
      ensures WrittenBy(all, k, after[k], life)
    {
      if k in data && after[k] == data[k] {
        WrittenByLater(ops, op, k, data[k], data[k], life, 0);
      } else {
        assert all[|ops|] == op;
      }
    }
  }

  function Life(b: Bounds): nat {
    b.p + b.f + b.delay
  }

  ghost predicate LayersTraced(ops: seq<Op>, s: Layers, b: Bounds) {
    Traced(ops, s.primary, b.p) && Traced(ops, s.fallback, Life(b))
  }

  lemma WrittenAt(before: Data, after: Data, write: WriteFault, key: string)
    requires key in Written(before, after, write)
    ensures (key in before && Written(before, after, write)[key] == before[key])
            || (key in after && Written(before, after, write)[key] == after[key])
  {
  }

  /** An entry that is new to the primary is one the operation wrote. */
  lemma PrimaryChange(config: LayerConfig, s: Layers, op: Op, b: Bounds, key: string)
    requires Within(config, op, b) && key in Step(config, s, op).0.primary
    requires !(key in s.primary && Step(config, s, op).0.primary[key] == s.primary[key])
    ensures var e := Step(config, s, op).0.primary[key];
            Writes(op, key, e.value) && e.expiresAt <= op.at + b.p
  {
    match op {
      case Set(k, value, ttl, at, _, write, _) =>
        WrittenAt(s.primary, s.primary[k := NewEntry(config.primary, value, ttl, at)], write, key);
      case SetMultiple(items, ttl, at, _, write, _) =>
        WrittenAt(s.primary, PutAll(s.primary, {}, items, ttl, at), write, key);
      case Delete(k, write) =>
        WrittenAt(s.primary, s.primary - {k}, write, key);
      case Clear(write) =>
        WrittenAt(s.primary, map[], write, key);
      case _ =>
    }
  }

  lemma PrimaryTraced(config: LayerConfig, ops: seq<Op>, s: Layers, op: Op, b: Bounds)
    requires LayersTraced(ops, s, b) && Within(config, op, b)
    ensures Traced(ops + [op], Step(config, s, op).0.primary, b.p)
  {
    var after := Step(config, s, op).0.primary;
    forall k | k in after && !(k in s.primary && after[k] == s.primary[k])
      ensures Writes(op, k, after[k].value) && after[k].expiresAt <= op.at + b.p
    {
      PrimaryChange(config, s, op, b, k);
    }
    TracedLater(ops, op, s.primary, after, b.p);
  }

  /** A primary hit copied into the fallback lives on for at most the fallback's share. */
  lemma CopyTraced(config: LayerConfig, ops: seq<Op>, s: Layers, op: Op, b: Bounds)
    requires LayersTraced(ops, s, b) && Within(config, op, b) && (op.Get? || op.GetWithMetadata?)
    requires PrimaryLookup(s.primary, op.key, op.at, op.read).Some?
    ensures Traced(ops + [op], Step(config, s, op).0.fallback, Life(b))
  {
    var after := Step(config, s, op).0.fallback;
    var entry := s.primary[op.key];
    forall k | k in after
      ensures WrittenBy(ops + [op], k, after[k], Life(b))
    {
      if k == op.key {
        WrittenByLater(ops, op, k, entry, after[k], b.p, b.f + b.delay);
      } else {
        WrittenByLater(ops, op, k, s.fallback[k], s.fallback[k], Life(b), 0);
      }
    }
  }

  lemma FallbackTraced(config: LayerConfig, ops: seq<Op>, s: Layers, op: Op, b: Bounds)
    requires LayersTraced(ops, s, b) && Within(config, op, b)
    ensures Traced(ops + [op], Step(config, s, op).0.fallback, Life(b))
  {
    if (op.Get? || op.GetWithMetadata?) && PrimaryLookup(s.primary, op.key, op.at, op.read).Some? {
      CopyTraced(config, ops, s, op, b);
    } else {
      TracedLater(ops, op, s.fallback, Step(config, s, op).0.fallback, Life(b));
    }
  }

  lemma {:induction false} RunTraced(config: LayerConfig, ops: seq<Op>, b: Bounds)
    requires forall op | op in ops :: Within(config, op, b)
    ensures LayersTraced(ops, Run(config, ops).0, b)
    decreases ops
  {
    if ops != [] {
      var before, op := ops[..|ops| - 1], ops[|ops| - 1];
      RunTraced(config, before, b);
      assert ops == before + [op];
      PrimaryTraced(config, before, Run(config, before).0, op, b);
      FallbackTraced(config, before, Run(config, before).0, op, b);
    }
  }

  /** A value served by one step is traced to a write within the life of the layers. */
  lemma StepServesTraced(config: LayerConfig, ops: seq<Op>, s: Layers, op: Op, b: Bounds, key: string, value: Value)
    requires LayersTraced(ops, s, b) && Within(config, op, b)
    requires Returns(op, Step(config, s, op).1, key, value)
    ensures exists i :: 0 <= i < |ops| && Writes(ops[i], key, value) && op.later - ops[i].at <= Life(b)
  {
    var direct := Present(s.primary, key, op.at) && s.primary[key].value == value;
    var e := if direct then s.primary[key] else s.fallback[key];
    var life := if direct then b.p else Life(b);
    assert e.value == value && WrittenBy(ops, key, e, life);
    var i :| 0 <= i < |ops| && Writes(ops[i], key, e.value) && e.expiresAt <= ops[i].at + life;
  }

  /** The staleness bound. Whatever calls of the primary fail, hide or lose, every value read at some
      moment was written by a `Set` (or a batch) at most P + F earlier, plus the time one operation
      takes between its two layers; P and F bound the effective TTLs of the two layers. */
  lemma {:induction false} StalenessBound(config: LayerConfig, ops: seq<Op>, b: Bounds, i: nat, key: string, value: Value)
    requires forall op | op in ops :: Within(config, op, b)
    requires i < |ops| && Returns(ops[i], Run(config, ops).1[i], key, value)
    ensures exists w :: 0 <= w < i && Writes(ops[w], key, value) && ops[i].later - ops[w].at <= b.p + b.f + b.delay
    decreases ops
  {
    var before, op := ops[..|ops| - 1], ops[|ops| - 1];
    RunSnoc(config, before, op);
    assert ops == before + [op];
    if i < |before| {
      assert Run(config, ops).1[i] == Run(config, before).1[i];
      StalenessBound(config, before, b, i, key, value);
      var w :| 0 <= w < i && Writes(before[w], key, value) && before[i].later - before[w].at <= b.p + b.f + b.delay;
      assert ops[w] == before[w];
    } else {
      RunTraced(config, before, b);
      StepServesTraced(config, before, Run(config, before).0, op, b, key, value);
      var w :| 0 <= w < |before| && Writes(before[w], key, value) && op.later - before[w].at <= Life(b);
      assert ops[w] == before[w];
    }
  }

  /** The victims named by the operation are ones the eviction of the fallback may pick. */
  predicate Legal(config: LayerConfig, s: Layers, op: Op) {
    var size, full := |s.fallback|, |s.fallback| >= config.primary.maxSize;
    match op
    case Get(key, at, _, read, victims) =>
      MakesRoom(s.fallback, PrimaryLookup(s.primary, key, at, read).Some? && full, victims)
    case GetWithMetadata(key, at, _, read, victims) =>
      MakesRoom(s.fallback, PrimaryLookup(s.primary, key, at, read).Some? && full, victims)
    case Set(_, _, _, _, _, _, victims) => MakesRoom(s.fallback, full, victims)
    case SetWithMetadata(_, _, _, victims) => MakesRoom(s.fallback, full, victims)
    case SetMultiple(items, _, _, _, _, victims) =>
      MakesRoom(s.fallback, items != map[] && size + |items| >= config.primary.maxSize, victims)
    case _ => true
  }

  ghost predicate LegalRun(config: LayerConfig, ops: seq<Op>) {
    forall i | 0 <= i < |ops| :: Legal(config, Run(config, ops[..i]).0, ops[i])
  }

  /** The value that operation `i` hands out under `key` was written at most `age` before. */
  ghost predicate FreshAt(ops: seq<Op>, i: nat, at: int, key: string, value: Value, age: int)
    requires i < |ops|
  {
    exists w :: 0 <= w < i && Writes(ops[w], key, value) && at - ops[w].at <= age
  }

  /** No run within the bounds ever serves a value written more than `age` before. */
  ghost predicate StaysFresh(config: LayerConfig, b: Bounds, age: int) {
    forall ops: seq<Op>, i: nat, key: string, value: Value
      | (forall op | op in ops :: Within(config, op, b)) && LegalRun(config, ops)
        && i < |ops| && Returns(ops[i], Run(config, ops).1[i], key, value) ::
      FreshAt(ops, i, ops[i].later, key, value, age)
  }

  /** The worst schedule: a value is read from the primary in its last moment, copied to the fallback
      as late as the delay allows, and read from there in the copy's last moment, the primary down. */
  lemma WorstRun(config: LayerConfig, ttl: int, b: Bounds, value: Value) returns (ops: seq<Op>)
    requires b.p == EffectiveTTL(config.primary, ttl)
    requires b.f == Min(config.fallbackTTL, config.primary.maxTTL)
    ensures |ops| == 3 && (forall op | op in ops :: Within(config, op, b)) && LegalRun(config, ops)
    ensures ops[0].Set? && ops[0].at == 0 && ops[1].Get? && ops[2].Get?
    ensures Returns(ops[2], Run(config, ops).1[2], "k", value) && ops[2].later == b.p + b.f + b.delay
  {
    FallbackTTLIsClamped(config);
    var room := if config.primary.maxSize <= 1 then {"k"} else {};
    var x := Set("k", value, ttl, 0, 0, Done, {});
    var y := Get("k", b.p, b.p + b.delay, Serves({}), room);
    var z := Get("k", b.p + b.f + b.delay, b.p + b.f + b.delay, ReadFails, {});
    ops := [x, y, z];
    ThreeSteps(config, x, y, z);
    var s0 := Layers(map[], map[]);
    WorstCopy(config, ttl, b, value, room);
    assert [] + [x] == [x] && [x] + [y] == [x, y];
    RunSnoc(config, [], x);
    RunSnoc(config, [x], y);
    assert ops[..0] == [] && ops[..1] == [x] && ops[..2] == [x, y];
  }

  lemma WorstCopy(config: LayerConfig, ttl: int, b: Bounds, value: Value, room: set<string>)
    requires b.p == EffectiveTTL(config.primary, ttl)
    requires b.f == EffectiveTTL(config.Fallback(), config.fallbackTTL)
    requires room == if config.primary.maxSize <= 1 then {"k"} else {}
    ensures var x := Set("k", value, ttl, 0, 0, Done, {});
            var y := Get("k", b.p, b.p + b.delay, Serves({}), room);
            var s1 := Step(config, Layers(map[], map[]), x).0;
            var s2 := Step(config, s1, y).0;
            && Legal(config, Layers(map[], map[]), x) && Legal(config, s1, y)
            && s2.fallback == map["k" := Entry(value, b.p + b.delay + b.f, b.p + b.delay)]
  {
    var s1 := Step(config, Layers(map[], map[]), Set("k", value, ttl, 0, 0, Done, {})).0;
    assert s1.primary == map["k" := Entry(value, b.p, 0)] && s1.fallback.Keys == {"k"};
  }

  /** How fresh the layers keep what they serve: a promised age is kept by every run, whatever the
      primary does, if and only if it covers both TTLs and the time between the layers. */
  lemma FreshnessExactly(config: LayerConfig, ttl: int, b: Bounds, age: int)
    requires b.p == EffectiveTTL(config.primary, ttl)
    requires b.f == Min(config.fallbackTTL, config.primary.maxTTL)
    ensures StaysFresh(config, b, age) <==> b.p + b.f + b.delay <= age
  {
    if b.p + b.f + b.delay <= age {
      forall ops: seq<Op>, i: nat, key: string, value: Value
        | (forall op | op in ops :: Within(config, op, b)) && LegalRun(config, ops)
          && i < |ops| && Returns(ops[i], Run(config, ops).1[i], key, value)
        ensures FreshAt(ops, i, ops[i].later, key, value, age)
      {
        StalenessBound(config, ops, b, i, key, value);
      }
    }
    if StaysFresh(config, b, age) {
      var value := Number(0.0);
      var ops := WorstRun(config, ttl, b, value);
      assert FreshAt(ops, 2, ops[2].later, "k", value, age);
    }
  }

  /** The bound is reached by the default configuration: a price stored for one minute is still served
      six minutes later, when the primary handed it to the fallback at its last moment and then failed. */
  lemma StalenessBoundIsReached(value: Value, minute: int)
    requires minute == 60_000_000_000
    ensures var config := LayerConfig(CacheConfig(minute, 1440 * minute, 10000), 5 * minute);
            var ops := [Set("k", value, minute, 0, 0, Done, {}),
                        Get("k", minute, minute, Serves({}), {}),
                        Get("k", 6 * minute, 6 * minute, ReadFails, {})];
            Run(config, ops).1[2] == One(Some(value))
  {
    var config := LayerConfig(CacheConfig(minute, 1440 * minute, 10000), 5 * minute);
    ThreeSteps(config, Set("k", value, minute, 0, 0, Done, {}), Get("k", minute, minute, Serves({}), {}),
               Get("k", 6 * minute, 6 * minute, ReadFails, {}));
    var s1 := Step(config, Layers(map[], map[]), Set("k", value, minute, 0, 0, Done, {})).0;
    assert s1.primary["k"] == Entry(value, minute, 0);
    var s2 := Step(config, s1, Get("k", minute, minute, Serves({}), {})).0;
    assert s2.fallback["k"] == Entry(value, 6 * minute, minute);
  }

  lemma ThreeSteps(config: LayerConfig, x: Op, y: Op, z: Op)
    ensures var a := Step(config, Layers(map[], map[]), x);
            var b := Step(config, a.0, y);
            var c := Step(config, b.0, z);
            Run(config, [x, y, z]) == (c.0, [a.1, b.1, c.1])
  {
    var a := Step(config, Layers(map[], map[]), x);
    var b := Step(config, a.0, y);
    assert [] + [x] == [x] && [x] + [y] == [x, y] && [x, y] + [z] == [x, y, z];
    var c := Step(config, b.0, z);
    assert [] + [a.1] == [a.1] && [a.1] + [b.1] == [a.1, b.1] && [a.1, b.1] + [c.1] == [a.1, b.1, c.1];
    RunSnoc(config, [], x);
    RunSnoc(config, [x], y);
    RunSnoc(config, [x, y], z);
  }

  lemma RunSnoc(config: LayerConfig, ops: seq<Op>, op: Op)
    ensures var (s, answers) := Run(config, ops);
            var (e, answer) := Step(config, s, op);
            Run(config, ops + [op]) == (e, answers + [answer])
  {
    assert (ops + [op])[..|ops|] == ops;
  }

  // ---------------------------------------------------------------- what single operations serve

  lemma {:induction false} MissingMeaning(keys: seq<string>, found: map<string, Value>)
    ensures forall k :: k in Missing(keys, found) <==> k in keys && k !in found
  {
    if keys != [] {
      MissingMeaning(keys[..|keys| - 1], found);
      assert keys == keys[..|keys| - 1] + [keys[|keys| - 1]];
    }
  }

  /** A batch read answers for every key what a single read of it at the same moments would. */
  lemma BatchIsEachRead(config: LayerConfig, s: Layers, keys: seq<string>, at: int, later: int, read: ReadFault,
                        key: string, victims: set<string>)
    ensures var many := Step(config, s, GetMultiple(keys, at, later, read)).1;
            && many.Many?
            && (if key in many.values
                then key in keys && Step(config, s, Get(key, at, later, read, victims)).1 == One(Some(many.values[key]))
                else key in keys ==> Step(config, s, Get(key, at, later, read, victims)).1 == One(None))
  {
    MissingMeaning(keys, PrimaryAll(s.primary, keys, at, read));
  }

  /** The primary answers this read if it holds the key. */
  predicate Reports(read: ReadFault, key: string) {
    !read.ReadFails? && key !in read.hidden
  }

  /** What a `Set` that reached the primary makes the layers serve, and how long: the value, from the primary
      for the requested TTL (the default one if none is requested), else from the fallback for the fallback
      TTL, neither longer than the largest one and each from its own clock reading on. */
  lemma SetServedExactly(config: LayerConfig, s: Layers, key: string, value: Value, ttl: int, at: int, later: int,
                         write: WriteFault, victims: set<string>, t: int, u: int, read: ReadFault, room: set<string>)
    requires write.Fails? ==> key in write.applied
    ensures var e := Step(config, s, Set(key, value, ttl, at, later, write, victims)).0;
            var maxTTL := config.primary.maxTTL;
            Step(config, e, Get(key, t, u, read, room)).1
            == One(if (Reports(read, key) && t <= at + Min(if ttl <= 0 then config.primary.defaultTTL else ttl, maxTTL))
                      || u <= later + Min(config.fallbackTTL, maxTTL)
                   then Some(value) else None)
  {
  }

  /** A batch that reached the primary is served for its TTL and the fallback TTL as they are. */
  lemma BatchServedExactly(config: LayerConfig, s: Layers, items: map<string, Value>, ttl: int, at: int, later: int,
                           write: WriteFault, victims: set<string>, key: string, t: int, u: int, read: ReadFault,
                           room: set<string>)
    requires key in items && (write.Fails? ==> key in write.applied)
    ensures var e := Step(config, s, SetMultiple(items, ttl, at, later, write, victims)).0;
            Step(config, e, Get(key, t, u, read, room)).1
            == One(if (Reports(read, key) && t <= at + ttl) || u <= later + config.fallbackTTL then Some(items[key]) else None)
  {
    SetMultipleStep(config, s.primary, s.fallback, items, ttl, at, later, write, victims);
    BatchInLayers(config, s, items, ttl, at, later, write, victims, key);
  }

  lemma BatchInLayers(config: LayerConfig, s: Layers, items: map<string, Value>, ttl: int, at: int, later: int,
                      write: WriteFault, victims: set<string>, key: string)
    requires key in items && (write.Fails? ==> key in write.applied)
    ensures var p, f := Written(s.primary, PutAll(s.primary, {}, items, ttl, at), write),
                        PutAll(s.fallback, victims, items, config.fallbackTTL, later);
            && key in p && p[key] == Entry(items[key], at + ttl, at)
            && key in f && f[key] == Entry(items[key], later + config.fallbackTTL, later)
  {
  }

  /** An entry stored whole is served until its own expiry, by either layer. */
  lemma EntryServedExactly(config: LayerConfig, s: Layers, key: string, entry: Entry, write: WriteFault,
                           victims: set<string>, t: int, u: int, read: ReadFault, room: set<string>)
    requires write.Fails? ==> key in write.applied
    ensures var e := Step(config, s, SetWithMetadata(key, entry, write, victims)).0;
            Step(config, e, GetWithMetadata(key, t, u, read, room)).1
            == Meta(if (Reports(read, key) && t <= entry.expiresAt) || u <= entry.expiresAt then Some(entry) else None)
  {
  }

  /** A hit of the primary is copied to the fallback: for the fallback TTL by a plain read, with its own
      expiry by a read with metadata. What the fallback holds otherwise stays, but for the victims. */
  lemma HitIsCopied(config: LayerConfig, s: Layers, key: string, at: int, later: int, read: ReadFault,
                    victims: set<string>, k: string, t: int)
    requires Reports(read, key) && key in s.primary && at <= s.primary[key].expiresAt
    ensures var hit, plain, whole := s.primary[key], Step(config, s, Get(key, at, later, read, victims)),
                                     Step(config, s, GetWithMetadata(key, at, later, read, victims));
            var until := later + Min(config.fallbackTTL, config.primary.maxTTL);
            && plain.0.primary == whole.0.primary == s.primary
            && plain.1 == One(Some(hit.value)) && whole.1 == Meta(Some(hit))
            && LookupEntry(plain.0.fallback, k, t)
               == (if k == key then (if t <= until then Some(Entry(hit.value, until, later)) else None)
                   else if k in victims then None else LookupEntry(s.fallback, k, t))
            && LookupEntry(whole.0.fallback, k, t)
               == (if k == key then (if t <= hit.expiresAt then Some(hit) else None)
                   else if k in victims then None else LookupEntry(s.fallback, k, t))
  {
  }

  /** A read that the primary does not answer drops what it finds expired, in the primary if that was asked
      and in the fallback, and changes nothing else; a read with metadata does the same. */
  lemma MissDropsExpired(config: LayerConfig, s: Layers, key: string, at: int, later: int, read: ReadFault,
                         victims: set<string>, k: string)
    requires !(Reports(read, key) && key in s.primary && at <= s.primary[key].expiresAt)
    ensures var e := Step(config, s, Get(key, at, later, read, victims)).0;
            && (k in e.primary <==> k in s.primary && !(k == key && Reports(read, key)))
            && (k in e.primary ==> e.primary[k] == s.primary[k])
            && (k in e.fallback <==> k in s.fallback && (k == key ==> later <= s.fallback[k].expiresAt))
            && (k in e.fallback ==> e.fallback[k] == s.fallback[k])
            && Step(config, s, GetWithMetadata(key, at, later, read, victims)).0 == e
  {
  }

  /** A sweep takes out of each layer what has expired by that layer's clock, out of the primary only if the
      call goes through, and nothing else. */
  lemma SweepBothExactly(config: LayerConfig, s: Layers, at: int, later: int, read: ReadFault, k: string)
    ensures var e := Step(config, s, EvictExpired(at, later, read)).0;
            && (k in e.primary <==> k in s.primary && (read.ReadFails? || at <= s.primary[k].expiresAt))
            && (k in e.primary ==> e.primary[k] == s.primary[k])
            && (k in e.fallback <==> k in s.fallback && later <= s.fallback[k].expiresAt)
            && (k in e.fallback ==> e.fallback[k] == s.fallback[k])
  {
  }

  // ---------------------------------------------------------------- the value written last

  /** The operation overwrites or removes `key`. */
  predicate Touches(op: Op, key: string) {
    match op
    case Set(k, _, _, _, _, _, _) => k == key
    case SetMultiple(items, _, _, _, _, _) => key in items
    case SetWithMetadata(k, _, _, _) => k == key
    case Delete(k, _) => k == key
    case Clear(_) => true
    case _ => false
  }

  /** What it leaves a single reliable map with under `key`. */
  function Wrote(op: Op, key: string): Option<Value>
    requires Touches(op, key)
  {
    match op
    case Set(_, v, _, _, _, _, _) => Some(v)
    case SetMultiple(items, _, _, _, _, _) => Some(items[key])
    case SetWithMetadata(_, e, _, _) => Some(e.value)
    case _ => None
  }

  /** The reference: what a single reliable map holds for `key` after `ops`. */
  function LastWrite(ops: seq<Op>, key: string): Option<Value>
    decreases ops
  {
    if ops == [] then None
    else if Touches(ops[|ops| - 1], key) then Wrote(ops[|ops| - 1], key)
    else LastWrite(ops[..|ops| - 1], key)
  }

  predicate WriteSucceeds(op: Op) {
    (op.Set? || op.SetMultiple? || op.SetWithMetadata? || op.Delete? || op.Clear?) ==> op.write.Done?
  }

  /** What `data` holds under `key`, if anything, is `last`. */
  predicate Agrees(data: Data, key: string, last: Option<Value>) {
    key in data ==> Some(data[key].value) == last
  }

  lemma StepAgrees(config: LayerConfig, s: Layers, op: Op, key: string, last: Option<Value>)
    requires Agrees(s.primary, key, last) && Agrees(s.fallback, key, last)
    requires Touches(op, key) ==> WriteSucceeds(op)
    ensures var e, now := Step(config, s, op).0, if Touches(op, key) then Wrote(op, key) else last;
            Agrees(e.primary, key, now) && Agrees(e.fallback, key, now)
  {
    match op {
      case Get(_, _, _, _, _) =>
      case GetWithMetadata(_, _, _, _, _) =>
      case Set(_, _, _, _, _, _, _) =>
      case SetMultiple(_, _, _, _, _, _) =>
      case SetWithMetadata(_, _, _, _) =>
      case _ =>
    }
  }

  lemma {:induction false} RunAgrees(config: LayerConfig, ops: seq<Op>, key: string)
    requires forall op | op in ops && Touches(op, key) :: WriteSucceeds(op)
    ensures Agrees(Run(config, ops).0.primary, key, LastWrite(ops, key))
    ensures Agrees(Run(config, ops).0.fallback, key, LastWrite(ops, key))
    decreases ops
  {
    if ops != [] {
      var before, op := ops[..|ops| - 1], ops[|ops| - 1];
      RunAgrees(config, before, key);
      assert ops == before + [op];
      RunSnoc(config, before, op);
      StepAgrees(config, Run(config, before).0, op, key, LastWrite(before, key));
    }
  }

  /** Last-write coherence. A read returns the value written last for its key, never an overwritten or
      deleted one, provided the earlier writes, deletes and clears that concern this key went through:
      whichever reads of the primary and whichever other writes fail, and whatever either layer drops. */
  lemma {:induction false} LastWriteCoherence(config: LayerConfig, ops: seq<Op>, i: nat, key: string, value: Value)
    requires i < |ops| && Returns(ops[i], Run(config, ops).1[i], key, value)
    requires forall j | 0 <= j < i && Touches(ops[j], key) :: WriteSucceeds(ops[j])
    ensures LastWrite(ops[..i], key) == Some(value)
    decreases ops
  {
    var before, op := ops[..|ops| - 1], ops[|ops| - 1];
    RunSnoc(config, before, op);
    assert ops == before + [op];
    if i < |before| {
      assert Run(config, ops).1[i] == Run(config, before).1[i];
      LastWriteCoherence(config, before, i, key, value);
      assert before[..i] == ops[..i];
    } else {
      forall o | o in before && Touches(o, key)
        ensures WriteSucceeds(o)
      {
        var j :| 0 <= j < |before| && before[j] == o;
        assert ops[j] == o;
      }
      RunAgrees(config, before, key);
      ReadAgrees(config, Run(config, before).0, op, key, value, LastWrite(before, key));
    }
  }

  lemma ReadAgrees(config: LayerConfig, s: Layers, op: Op, key: string, value: Value, last: Option<Value>)
    requires Agrees(s.primary, key, last) && Agrees(s.fallback, key, last)
    requires Returns(op, Step(config, s, op).1, key, value)
    ensures last == Some(value)
  {
  }

  predicate IsWrite(op: Op) {
    op.Set? || op.SetMultiple? || op.SetWithMetadata? || op.Delete? || op.Clear?
  }

  function VictimsOf(op: Op): set<string> {
    match op
    case Set(_, _, _, _, _, _, victims) => victims
    case SetMultiple(_, _, _, _, _, victims) => victims
    case SetWithMetadata(_, _, _, victims) => victims
    case _ => {}
  }

  /** What a write does to the keys it does not name: nothing in the primary, however the call goes, and
      in the fallback nothing but the eviction it may cause. */
  lemma WriteLeavesOthers(config: LayerConfig, s: Layers, op: Op, k: string, t: int)
    requires IsWrite(op) && !Touches(op, k)
    ensures var e := Step(config, s, op).0;
            && LookupEntry(e.primary, k, t) == LookupEntry(s.primary, k, t)
            && LookupEntry(e.fallback, k, t) == if k in VictimsOf(op) then None else LookupEntry(s.fallback, k, t)
  {
    match op {
      case Set(_, _, _, _, _, _, _) =>
      case SetMultiple(_, _, _, _, _, _) =>
      case SetWithMetadata(_, _, _, _) =>
      case Delete(_, _) =>
      case _ =>
    }
  }

  // ---------------------------------------------------------------- when a failed write can be noticed

  /** The operation writes nothing and reads both layers' clocks no earlier than `t`. */
  predicate ReadsFrom(op: Op, t: int) {
    match op
    case Get(_, at, later, _, _) => t <= at && t <= later
    case GetWithMetadata(_, at, later, _, _) => t <= at && t <= later
    case GetMultiple(_, at, later, _) => t <= at && t <= later
    case EvictExpired(_, _, _) => true
    case Lose(_) => true
    case _ => false
  }

  /** Whatever is read from `t` on until the next write, `key` is answered with `last` or not at all. */
  ghost predicate CoherentFrom(config: LayerConfig, s: Layers, key: string, last: Option<Value>, t: int) {
    forall more: seq<Op>, i: nat, value: Value
      | (forall op | op in more :: ReadsFrom(op, t)) && i < |more|
        && Returns(more[i], RunFrom(config, s, more).1[i], key, value) ::
      last == Some(value)
  }

  /** An entry of `key` that is unexpired at `t` has the value `last`. */
  predicate AgreesAt(data: Data, key: string, last: Option<Value>, t: int) {
    Present(data, key, t) ==> Some(data[key].value) == last
  }

  lemma ReadsKeepAgreement(config: LayerConfig, s: Layers, op: Op, key: string, last: Option<Value>, t: int)
    requires AgreesAt(s.primary, key, last, t) && AgreesAt(s.fallback, key, last, t) && ReadsFrom(op, t)
    ensures var e := Step(config, s, op).0;
            AgreesAt(e.primary, key, last, t) && AgreesAt(e.fallback, key, last, t)
    ensures forall value | Returns(op, Step(config, s, op).1, key, value) :: last == Some(value)
  {
    match op {
      case Get(_, _, _, _, _) =>
      case GetWithMetadata(_, _, _, _, _) =>
      case GetMultiple(_, _, _, _) =>
      case _ =>
    }
  }

  lemma {:induction false} RunKeepsAgreement(config: LayerConfig, s: Layers, more: seq<Op>, key: string,
                                             last: Option<Value>, t: int)
    requires AgreesAt(s.primary, key, last, t) && AgreesAt(s.fallback, key, last, t)
    requires forall op | op in more :: ReadsFrom(op, t)
    ensures var (e, answers) := RunFrom(config, s, more);
            && AgreesAt(e.primary, key, last, t) && AgreesAt(e.fallback, key, last, t)
            && forall i: nat, value | i < |more| && Returns(more[i], answers[i], key, value) :: last == Some(value)
    decreases more
  {
    if more != [] {
      var before := more[..|more| - 1];
      RunKeepsAgreement(config, s, before, key, last, t);
      ReadsKeepAgreement(config, RunFrom(config, s, before).0, more[|more| - 1], key, last, t);
    }
  }

  lemma OneRead(config: LayerConfig, s: Layers, key: string, t: int, read: ReadFault)
    ensures var op := GetMultiple([key], t, t, read);
            RunFrom(config, s, [op]).1 == [Step(config, s, op).1]
  {
    var op := GetMultiple([key], t, t, read);
    assert [op][..0] == [] && RunFrom(config, s, []) == (s, []);
  }

  lemma FallbackAnswers(config: LayerConfig, s: Layers, key: string, t: int)
    requires Present(s.fallback, key, t)
    ensures var op := GetMultiple([key], t, t, ReadFails);
            Returns(op, Step(config, s, op).1, key, s.fallback[key].value)
  {
    assert Missing([key], map[]) == [key] by {
      NothingFound([key]);
    }
  }

  lemma PrimaryAnswers(config: LayerConfig, s: Layers, key: string, t: int)
    requires Present(s.primary, key, t)
    ensures var op := GetMultiple([key], t, t, Serves({}));
            Returns(op, Step(config, s, op).1, key, s.primary[key].value)
  {
    var found := PrimaryAll(s.primary, [key], t, Serves({}));
    assert key in found && found[key] == s.primary[key].value;
    assert Missing([key], found) == [] by {
      assert [key][..0] == [] && Missing([], found) == [];
    }
  }

  lemma DisagreementShows(config: LayerConfig, s: Layers, key: string, last: Option<Value>, t: int)
    requires CoherentFrom(config, s, key, last, t)
    ensures AgreesAt(s.primary, key, last, t) && AgreesAt(s.fallback, key, last, t)
  {
    if Present(s.primary, key, t) {
      var op := GetMultiple([key], t, t, Serves({}));
      OneRead(config, s, key, t, Serves({}));
      PrimaryAnswers(config, s, key, t);
      assert Returns([op][0], RunFrom(config, s, [op]).1[0], key, s.primary[key].value);
    }
    if Present(s.fallback, key, t) {
      var op := GetMultiple([key], t, t, ReadFails);
      OneRead(config, s, key, t, ReadFails);
      FallbackAnswers(config, s, key, t);
      assert Returns([op][0], RunFrom(config, s, [op]).1[0], key, s.fallback[key].value);
    }
  }

  /** Coherence, exactly: after any run, with any failures, everything read from `t` on until the next write
      is the value written last if and only if neither layer holds an entry of the key, unexpired at `t`,
      that disagrees with it. */
  lemma CoherenceExactly(config: LayerConfig, ops: seq<Op>, key: string, t: int)
    ensures var s := Run(config, ops).0;
            CoherentFrom(config, s, key, LastWrite(ops, key), t)
            <==> AgreesAt(s.primary, key, LastWrite(ops, key), t) && AgreesAt(s.fallback, key, LastWrite(ops, key), t)
  {
    LayersCoherentExactly(config, Run(config, ops).0, key, LastWrite(ops, key), t);
  }

  lemma LayersCoherentExactly(config: LayerConfig, s: Layers, key: string, last: Option<Value>, t: int)
    ensures CoherentFrom(config, s, key, last, t) <==> AgreesAt(s.primary, key, last, t) && AgreesAt(s.fallback, key, last, t)
  {
    if AgreesAt(s.primary, key, last, t) && AgreesAt(s.fallback, key, last, t) {
      forall more: seq<Op>, i: nat, value: Value
        | (forall op | op in more :: ReadsFrom(op, t)) && i < |more|
          && Returns(more[i], RunFrom(config, s, more).1[i], key, value)
        ensures last == Some(value)
      {
        RunKeepsAgreement(config, s, more, key, last, t);
      }
    }
    if CoherentFrom(config, s, key, last, t) {
      DisagreementShows(config, s, key, last, t);
    }
  }

  /** Exactly when a write, overwrite, delete or clear of a key can be missed by later reads, from any state
      of the layers: it failed without effect on the key, and the primary holds an unexpired entry that disagrees. */
  lemma FailedWriteNoticedExactly(config: LayerConfig, s: Layers, op: Op, key: string, t: int)
    requires Touches(op, key)
    ensures CoherentFrom(config, Step(config, s, op).0, key, Wrote(op, key), t)
            <==> !(op.write.Fails? && key !in op.write.applied
                   && Present(s.primary, key, t) && Some(s.primary[key].value) != Wrote(op, key))
  {
    var e := Step(config, s, op).0;
    LayersCoherentExactly(config, e, key, Wrote(op, key), t);
    match op {
      case Set(_, _, _, _, _, _, _) =>
      case SetMultiple(_, _, _, _, _, _) =>
      case SetWithMetadata(_, _, _, _) =>
      case Delete(_, _) =>
      case Clear(_) =>
    }
  }

  /** The premise of coherence is needed: after a failed overwrite the next hit of the primary returns the
      older value, and puts it back into the fallback over the newer one. */
  lemma FailedOverwriteResurfaces(first: Value, second: Value)
    requires first != second
    ensures var config := LayerConfig(CacheConfig(10, 100, 1000), 50);
            var ops := [Set("k", first, 10, 0, 0, Done, {}),
                        Set("k", second, 10, 1, 1, Fails({}), {}),
                        Get("k", 2, 2, Serves({}), {})];
            && Run(config, ops).1[2] == One(Some(first))
            && LastWrite(ops[..2], "k") == Some(second)
            && Run(config, ops).0.fallback["k"].value == first
  {
    var config := LayerConfig(CacheConfig(10, 100, 1000), 50);
    var x, y, z := Set("k", first, 10, 0, 0, Done, {}), Set("k", second, 10, 1, 1, Fails({}), {}),
                   Get("k", 2, 2, Serves({}), {});
    ThreeSteps(config, x, y, z);
    var s1 := Step(config, Layers(map[], map[]), x).0;
    assert s1.primary["k"] == Entry(first, 10, 0);
    assert [x, y, z][..2] == [x, y];
  }
}
