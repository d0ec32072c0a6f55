/** Laws of the in-memory cache over whole runs of operations: how large it can grow, and that
    removing expired entries cannot be noticed by a reader. */
module MemoryCacheRuns {
  import opened Prelude
  import opened MemoryCaches

  // ---------------------------------------------------------------- how large the store can grow

  datatype Op =
    | Set(key: string, value: Value, ttl: int, now: int, victims: set<string>)
    | SetWithMetadata(key: string, entry: Entry, victims: set<string>)
    | SetMultiple(items: map<string, Value>, ttl: int, now: int, victims: set<string>)
    | Delete(key: string)
    | Clear
    | Expire(key: string, ttl: int, now: int)
    | Get(key: string, now: int)
    | EvictExpired(now: int)

  /** The victims named by the operation are ones the eviction may pick. */
  predicate Legal(config: CacheConfig, data: Data, op: Op) {
    match op
    case Set(_, _, _, _, victims) => MakesRoom(data, |data| >= config.maxSize, victims)
    case SetWithMetadata(_, _, victims) => MakesRoom(data, |data| >= config.maxSize, victims)
    case SetMultiple(items, _, _, victims) =>
      MakesRoom(data, items != map[] && |data| + |items| >= config.maxSize, victims)
    case _ => true
  }

  function Apply(config: CacheConfig, data: Data, op: Op): Data {
    match op
    case Set(key, value, ttl, now, victims) => Put(data, victims, key, NewEntry(config, value, ttl, now))
    case SetWithMetadata(key, entry, victims) => Put(data, victims, key, entry)
    case SetMultiple(items, ttl, now, victims) => PutAll(data, victims, items, ttl, now)
    case Delete(key) => data - {key}
    case Clear => map[]
    case Expire(key, ttl, now) => Touch(data, key, ttl, now)
    case Get(key, now) => AfterRead(data, key, now)
    case EvictExpired(now) => Live(data, now)
  }

  predicate LegalRun(config: CacheConfig, data: Data, ops: seq<Op>)
    decreases ops
  {
    ops == [] || (Legal(config, data, ops[0]) && LegalRun(config, Apply(config, data, ops[0]), ops[1..]))
  }

  function Run(config: CacheConfig, data: Data, ops: seq<Op>): Data
    decreases ops
  {
    if ops == [] then data else Run(config, Apply(config, data, ops[0]), ops[1..])
  }

  /** The largest size the store can reach when no batch holds more than `batch` keys. */
  function SizeLimit(config: CacheConfig, batch: nat): nat {
    var floor := if batch <= 1 then 1 else 10 * batch;
    if config.maxSize > floor then config.maxSize else floor
  }

  predicate BatchesUpTo(ops: seq<Op>, batch: nat) {
    forall op | op in ops && op.SetMultiple? :: |op.items| <= batch
  }

  lemma SubmapIsSmaller(small: set<string>, large: set<string>)
    requires small <= large
    ensures |small| <= |large|
  {
    if small != large {
      var rest := large - small;
      assert small + rest == large && small !! rest;
    }
  }

  lemma PutGrowsByOne(data: Data, victims: set<string>, key: string, entry: Entry)
    ensures |Put(data, victims, key, entry)| <= |data - victims| + 1
  {
    assert Put(data, victims, key, entry).Keys == (data - victims).Keys + {key};
  }

  lemma PutAllGrowsByBatch(data: Data, victims: set<string>, items: map<string, Value>, ttl: int, now: int)
    ensures |PutAll(data, victims, items, ttl, now)| <= |data - victims| + |items|
    ensures items.Keys !! (data - victims).Keys ==>
              |PutAll(data, victims, items, ttl, now)| == |data - victims| + |items|
  {
    var r := PutAll(data, victims, items, ttl, now);
    assert r.Keys == (data - victims).Keys + items.Keys;
    UnionSize((data - victims).Keys, items.Keys);
  }

  lemma UnionSize(a: set<string>, b: set<string>)
    ensures |a + b| <= |a| + |b|
    ensures a !! b ==> |a + b| == |a| + |b|
  {
    assert a + b == a + (b - a);
    SubmapIsSmaller(b - a, b);
  }

  lemma PutWithinLimit(config: CacheConfig, data: Data, victims: set<string>, key: string, entry: Entry, limit: nat)
    requires MakesRoom(data, |data| >= config.maxSize, victims)
    requires |data| <= limit && SizeLimit(config, 0) <= limit
    ensures |Put(data, victims, key, entry)| <= limit
  {
    RemovalCounts(data, victims);
    PutGrowsByOne(data, victims, key, entry);
  }

  /** Ten batches are enough room: a store at that size loses a whole batch before it gains one. */
  lemma PutAllWithinLimit(config: CacheConfig, data: Data, victims: set<string>,
                          items: map<string, Value>, ttl: int, now: int, batch: nat, limit: nat)
    requires MakesRoom(data, items != map[] && |data| + |items| >= config.maxSize, victims)
    requires |items| <= batch && |data| <= limit && SizeLimit(config, batch) <= limit
    ensures |PutAll(data, victims, items, ttl, now)| <= limit
  {
    RemovalCounts(data, victims);
    PutAllGrowsByBatch(data, victims, items, ttl, now);
    if items == map[] {
      assert |items| == 0;
    }
  }

  lemma RemovalWithinLimit(config: CacheConfig, data: Data, op: Op, limit: nat)
    requires op.Delete? || op.Expire? || op.Get? || op.EvictExpired?
    requires |data| <= limit
    ensures |Apply(config, data, op)| <= limit
  {
    SubmapIsSmaller(Apply(config, data, op).Keys, data.Keys);
  }

  lemma ApplyWithinLimit(config: CacheConfig, data: Data, op: Op, batch: nat, limit: nat)
    requires Legal(config, data, op) && (op.SetMultiple? ==> |op.items| <= batch)
    requires |data| <= limit && SizeLimit(config, batch) <= limit
    ensures |Apply(config, data, op)| <= limit
  {
    match op
    case Set(key, value, ttl, now, victims) =>
      PutWithinLimit(config, data, victims, key, NewEntry(config, value, ttl, now), limit);
    case SetWithMetadata(key, entry, victims) => PutWithinLimit(config, data, victims, key, entry, limit);
    case SetMultiple(items, ttl, now, victims) =>
      PutAllWithinLimit(config, data, victims, items, ttl, now, batch, limit);
    case Clear =>
    case _ => RemovalWithinLimit(config, data, op, limit);
  }

  /** The store stabilises: from any contents, runs whose batches hold at most `batch` keys never take
      it above the larger of where it was, `MaxSize`, and ten batches (or one entry without batches). */
  lemma {:induction false} SizeBound(config: CacheConfig, data: Data, ops: seq<Op>, batch: nat)
    requires LegalRun(config, data, ops) && BatchesUpTo(ops, batch)
    ensures |Run(config, data, ops)| <= if |data| > SizeLimit(config, batch) then |data| else SizeLimit(config, batch)
  {
    SizeBoundUnder(config, data, ops, batch, if |data| > SizeLimit(config, batch) then |data| else SizeLimit(config, batch));
  }

  lemma {:induction false} SizeBoundUnder(config: CacheConfig, data: Data, ops: seq<Op>, batch: nat, limit: nat)
    requires LegalRun(config, data, ops) && BatchesUpTo(ops, batch)
    requires |data| <= limit && SizeLimit(config, batch) <= limit
    ensures |Run(config, data, ops)| <= limit
    decreases ops
  {
    if ops != [] {
      ApplyWithinLimit(config, data, ops[0], batch, limit);
      SizeBoundUnder(config, Apply(config, data, ops[0]), ops[1..], batch, limit);
    }
  }

  // ---------------------------------------------------------------- which sizes are reached

  function Name(n: nat): string {
    seq(n, _ => 'k')
  }

  function Names(n: nat, count: nat): set<string> {
    set i | n <= i < n + count :: Name(i)
  }

  lemma {:induction false} NamesCount(n: nat, count: nat)
    ensures |Names(n, count)| == count
  {
    if count == 0 {
      assert Names(n, 0) == {};
    } else {
      NamesCount(n, count - 1);
      assert Names(n, count) == Names(n, count - 1) + {Name(n + count - 1)};
      assert forall i | n <= i < n + count - 1 :: |Name(i)| != |Name(n + count - 1)|;
    }
  }

  lemma {:induction false} LongerThanAll(used: set<string>) returns (n: nat)
    ensures forall s | s in used :: |s| < n
    decreases |used|
  {
    n := 0;
    if used != {} {
      var x :| x in used;
      n := LongerThanAll(used - {x});
      if n <= |x| {
        n := |x| + 1;
      }
    }
  }

  /** As many new keys as wanted. */
  lemma FreshKeys(used: set<string>, count: nat) returns (keys: set<string>)
    ensures |keys| == count && keys !! used
  {
    var n := LongerThanAll(used);
    keys := Names(n, count);
    NamesCount(n, count);
    forall k | k in keys
      ensures k !in used
    {
      var i :| n <= i < n + count && k == Name(i);
    }
  }

  lemma {:induction false} SomeOf(all: set<string>, count: nat) returns (some: set<string>)
    requires count <= |all|
    ensures some <= all && |some| == count
    decreases count
  {
    some := {};
    if count > 0 {
      some := SomeOf(all, count - 1);
      assert |all| == |some| + |all - some| by {
        assert all == some + (all - some);
      }
      var x :| x in all - some;
      some := some + {x};
    }
  }

  /** All entries are equally old, so an eviction may pick any of them. */
  predicate SameAge(data: Data) {
    forall k | k in data :: data[k].createdAt == 0
  }

  lemma PutNothingOut(data: Data, key: string, entry: Entry)
    ensures Put(data, {}, key, entry) == data[key := entry]
  {
    assert data - {} == data;
  }

  lemma NewKeyGrows(data: Data, key: string, entry: Entry)
    requires key !in data
    ensures |data[key := entry]| == |data| + 1
  {
    assert data[key := entry].Keys == data.Keys + {key};
  }

  lemma GrowBySet(config: CacheConfig, data: Data, batch: nat) returns (op: Op)
    requires SameAge(data) && |data| < SizeLimit(config, batch)
    requires |data| < config.maxSize || data == map[]
    ensures Legal(config, data, op) && !op.SetMultiple? && SameAge(Apply(config, data, op))
    ensures |Apply(config, data, op)| == |data| + 1
  {
    var keys := FreshKeys(data.Keys, 1);
    var key :| key in keys;
    op := Set(key, Number(0.0), 0, 0, {});
    var entry := NewEntry(config, Number(0.0), 0, 0);
    PutNothingOut(data, key, entry);
    NewKeyGrows(data, key, entry);
  }

  lemma GrowByBatch(config: CacheConfig, data: Data, batch: nat) returns (op: Op)
    requires SameAge(data) && |data| < SizeLimit(config, batch)
    requires config.maxSize <= |data| && data != map[]
    ensures Legal(config, data, op) && op.SetMultiple? && |op.items| <= batch && SameAge(Apply(config, data, op))
    ensures |Apply(config, data, op)| == |data| + 1
  {
    assert |data| > 0 && 2 <= batch;
    var victims := SomeOf(data.Keys, EvictionSize(|data|));
    var keys := FreshKeys(data.Keys, EvictionSize(|data|) + 1);
    var items := map k | k in keys :: Number(0.0);
    assert items.Keys == keys && |items| == |keys|;
    op := SetMultiple(items, 0, 0, victims);
    RemovalCounts(data, victims);
    PutAllGrowsByBatch(data, victims, items, 0, 0);
  }

  /** Below the limit one more entry can always be brought in. */
  lemma GrowByOne(config: CacheConfig, data: Data, batch: nat) returns (op: Op)
    requires SameAge(data) && |data| < SizeLimit(config, batch)
    ensures Legal(config, data, op) && (op.SetMultiple? ==> |op.items| <= batch) && SameAge(Apply(config, data, op))
    ensures |Apply(config, data, op)| == |data| + 1
  {
    if |data| < config.maxSize || data == map[] {
      op := GrowBySet(config, data, batch);
    } else {
      op := GrowByBatch(config, data, batch);
    }
  }

  lemma {:induction false} RunSnoc(config: CacheConfig, data: Data, ops: seq<Op>, op: Op)
    requires LegalRun(config, data, ops) && Legal(config, Run(config, data, ops), op)
    ensures LegalRun(config, data, ops + [op])
    ensures Run(config, data, ops + [op]) == Apply(config, Run(config, data, ops), op)
    decreases ops
  {
    if ops == [] {
      assert ops + [op] == [op];
      assert [op][1..] == [] && Run(config, Apply(config, data, op), []) == Apply(config, data, op);
    } else {
      assert (ops + [op])[1..] == ops[1..] + [op];
      RunSnoc(config, Apply(config, data, ops[0]), ops[1..], op);
    }
  }

  lemma {:induction false} GrowTo(config: CacheConfig, batch: nat, n: nat) returns (ops: seq<Op>)
    requires n <= SizeLimit(config, batch)
    ensures LegalRun(config, map[], ops) && BatchesUpTo(ops, batch)
    ensures |Run(config, map[], ops)| == n && SameAge(Run(config, map[], ops))
  {
    ops := [];
    if n > 0 {
      ops := GrowTo(config, batch, n - 1);
      var op := GrowByOne(config, Run(config, map[], ops), batch);
      RunSnoc(config, map[], ops, op);
      ops := ops + [op];
    }
  }

  /** Some legal run on an empty store, with batches of at most `batch` keys, ends with `n` entries. */
  ghost predicate ReachesSize(config: CacheConfig, batch: nat, n: nat) {
    exists ops :: LegalRun(config, map[], ops) && BatchesUpTo(ops, batch) && |Run(config, map[], ops)| == n
  }

  /** The bound is exact: from the empty store precisely the sizes up to the limit are reached. */
  lemma ReachableSizesExactly(config: CacheConfig, batch: nat, n: nat)
    ensures ReachesSize(config, batch, n) <==> n <= SizeLimit(config, batch)
  {
    if n <= SizeLimit(config, batch) {
      var ops := GrowTo(config, batch, n);
    }
    if ReachesSize(config, batch, n) {
      var ops :| LegalRun(config, map[], ops) && BatchesUpTo(ops, batch) && |Run(config, map[], ops)| == n;
      SizeBound(config, map[], ops, batch);
    }
  }

  /** `MaxSize` itself is kept by every run exactly when it is positive and batches are of at most one key
      or at most a tenth of it. */
  lemma MaxSizeKeptExactly(config: CacheConfig, batch: nat)
    ensures (forall n: nat | ReachesSize(config, batch, n) :: n <= config.maxSize)
            <==> 1 <= config.maxSize && (batch <= 1 || 10 * batch <= config.maxSize)
  {
    ReachableSizesExactly(config, batch, SizeLimit(config, batch));
    forall n: nat | ReachesSize(config, batch, n)
      ensures n <= SizeLimit(config, batch)
    {
      ReachableSizesExactly(config, batch, n);
    }
  }

  // ---------------------------------------------------------------- what one step shows and leaves

  /** A read shows the entry up to and including its last moment, and removes it exactly when that moment has
      passed; no other entry is touched. */
  lemma ReadExactly(data: Data, key: string, at: int)
    ensures LookupEntry(data, key, at) == if key in data && at <= data[key].expiresAt then Some(data[key]) else None
    ensures Lookup(data, key, at) == if key in data && at <= data[key].expiresAt then Some(data[key].value) else None
    ensures forall k :: k in AfterRead(data, key, at) <==> k in data && (k == key ==> at <= data[k].expiresAt)
    ensures forall k | k in AfterRead(data, key, at) :: AfterRead(data, key, at)[k] == data[k]
  {
  }

  /** A batch read is the single reads of its keys, each key once; those not found are left out. */
  lemma BatchReadExactly(data: Data, keys: seq<string>, at: int, k: string)
    ensures k in LookupAll(data, keys, at) <==> k in keys && k in data && at <= data[k].expiresAt
    ensures k in LookupAll(data, keys, at) ==> Some(LookupAll(data, keys, at)[k]) == Lookup(data, k, at)
  {
  }

  /** A sweep keeps every entry whose last moment has not passed, as it is, and no other. */
  lemma SweepExactly(data: Data, at: int, k: string)
    ensures k in Live(data, at) <==> k in data && at <= data[k].expiresAt
    ensures k in Live(data, at) ==> Live(data, at)[k] == data[k]
  {
  }

  /** What a `Set` makes readable, and how long: its own key, with the value and the time of the call, for the
      requested TTL, or the default one if none is requested, but never longer than the largest one; and
      every other key as before unless it was evicted. */
  lemma SetLifetimeExactly(config: CacheConfig, data: Data, victims: set<string>, key: string, value: Value,
                           ttl: int, now: int, k: string, t: int)
    ensures var after := Put(data, victims, key, NewEntry(config, value, ttl, now));
            var until := now + Min(if ttl <= 0 then config.defaultTTL else ttl, config.maxTTL);
            LookupEntry(after, k, t) == if k == key then (if t <= until then Some(Entry(value, until, now)) else None)
                                        else if k in victims then None else LookupEntry(data, k, t)
  {
  }

  /** A batch differs in that its TTL is taken as given, however long or short. */
  lemma BatchLifetimeExactly(data: Data, victims: set<string>, items: map<string, Value>, ttl: int, now: int,
                             k: string, t: int)
    ensures LookupEntry(PutAll(data, victims, items, ttl, now), k, t)
         == if k in items then (if t <= now + ttl then Some(Entry(items[k], now + ttl, now)) else None)
            else if k in victims then None else LookupEntry(data, k, t)
  {
  }

  predicate IsWrite(op: Op) {
    op.Set? || op.SetWithMetadata? || op.SetMultiple?
  }

  /** The entries after a write; what it found gone from them was evicted. */
  predicate Evicts(config: CacheConfig, data: Data, op: Op, v: string) {
    v in data && v !in Apply(config, data, op)
  }

  /** A write costs another entry only when the store is full with it, and then never one that was created after
      an entry it spares. */
  lemma WritesEvictOldest(config: CacheConfig, data: Data, op: Op, v: string, k: string)
    requires IsWrite(op) && Legal(config, data, op) && Evicts(config, data, op, v)
    ensures |data| + (if op.SetMultiple? then |op.items| else 0) >= config.maxSize
    ensures k in data && k in Apply(config, data, op) && Apply(config, data, op)[k] == data[k]
              && (op.SetMultiple? ==> k !in op.items) && (!op.SetMultiple? ==> k != op.key)
            ==> data[v].createdAt <= data[k].createdAt
  {
  }

  // ---------------------------------------------------------------- expired entries can come back

  /** Moving the expiry of a key decides, from then on, how long it can be read, and nothing else: an entry
      that was already expired at `t` can be read again at `t` if and only if it had not been removed and
      the new expiry covers `t`. */
  lemma ExpireRevivesExactly(data: Data, key: string, ttl: int, now: int, t: int)
    ensures var after := Touch(data, key, ttl, now);
            && (forall k | k != key :: LookupEntry(after, k, t) == LookupEntry(data, k, t))
            && (!Present(data, key, t) && Present(after, key, t)
                <==> key in data && data[key].expiresAt < t <= now + ttl)
            && (Present(after, key, t) ==> after[key].value == data[key].value && after[key].createdAt == data[key].createdAt)
  {
  }

  // ---------------------------------------------------------------- expiry is unobservable

  datatype Read =
    | ReadOne(key: string, at: int)
    | ReadEntry(key: string, at: int)
    | ReadMany(keys: seq<string>, at: int)
    | Sweep(at: int)

  datatype Answer = One(value: Option<Value>) | Meta(entry: Option<Entry>) | Many(values: map<string, Value>) | Swept(count: int)

  /** A read against the physical store, which it may shrink. */
  function Perform(data: Data, r: Read): (Data, Answer) {
    match r
    case ReadOne(key, at) => (AfterRead(data, key, at), One(Lookup(data, key, at)))
    case ReadEntry(key, at) => (AfterRead(data, key, at), Meta(LookupEntry(data, key, at)))
    case ReadMany(keys, at) => (data, Many(LookupAll(data, keys, at)))
    case Sweep(at) => (Live(data, at), Swept(|data| - |Live(data, at)|))
  }

  function PerformAll(data: Data, queries: seq<Read>): (r: (Data, seq<Answer>))
    ensures |r.1| == |queries|
    decreases queries
  {
    if queries == [] then (data, [])
    else
      var (next, answer) := Perform(data, queries[0]);
      var (last, answers) := PerformAll(next, queries[1..]);
      (last, [answer] + answers)
  }

  predicate Ascending(clock: int, queries: seq<Read>)
    decreases queries
  {
    queries == [] || (clock <= queries[0].at && Ascending(queries[0].at, queries[1..]))
  }

  /** `data` is `full` without some entries that have expired by `clock`. */
  predicate Faded(full: Data, data: Data, clock: int) {
    && data.Keys <= full.Keys
    && (forall k | k in data :: data[k] == full[k])
    && (forall k | k in full && k !in data :: full[k].IsExpired(clock))
  }

  lemma OneFaded(full: Data, data: Data, key: string, at: int, clock: int)
    requires Faded(full, data, clock) && clock <= at
    ensures LookupEntry(data, key, at) == LookupEntry(full, key, at) && Lookup(data, key, at) == Lookup(full, key, at)
    ensures Faded(full, AfterRead(data, key, at), at)
  {
  }

  lemma ManyFaded(full: Data, data: Data, keys: seq<string>, at: int, clock: int)
    requires Faded(full, data, clock) && clock <= at
    ensures LookupAll(data, keys, at) == LookupAll(full, keys, at) && Faded(full, data, at)
  {
  }

  lemma PerformFaded(full: Data, data: Data, r: Read, clock: int)
    requires Faded(full, data, clock) && clock <= r.at
    ensures Faded(full, Perform(data, r).0, r.at)
    ensures !r.Sweep? ==> Perform(data, r).1 == Perform(full, r).1
  {
    match r {
      case ReadMany(keys, at) => ManyFaded(full, data, keys, at, clock);
      case ReadOne(key, at) => OneFaded(full, data, key, at, clock);
      case ReadEntry(key, at) => OneFaded(full, data, key, at, clock);
      case Sweep(_) =>
    }
  }

  /** In any run of reads and sweeps with an advancing clock every read answers as if nothing had ever
      been removed: each answer is the one the untouched initial store gives at that moment. */
  lemma {:induction false} RemovalIsUnobservable(full: Data, data: Data, queries: seq<Read>, clock: int)
    requires Faded(full, data, clock) && Ascending(clock, queries)
    ensures forall i | 0 <= i < |queries| && !queries[i].Sweep? ::
              PerformAll(data, queries).1[i] == Perform(full, queries[i]).1
    ensures queries != [] ==> Faded(full, PerformAll(data, queries).0, queries[|queries| - 1].at)
    decreases queries
  {
    if queries != [] {
      PerformFaded(full, data, queries[0], clock);
      var (next, answer) := Perform(data, queries[0]);
      RemovalIsUnobservable(full, next, queries[1..], queries[0].at);
      var answers := PerformAll(next, queries[1..]).1;
      assert PerformAll(data, queries).1 == [answer] + answers;
      forall i | 0 <= i < |queries| && !queries[i].Sweep?
        ensures PerformAll(data, queries).1[i] == Perform(full, queries[i]).1
      {
        if i > 0 {
          assert queries[1..][i - 1] == queries[i] && ([answer] + answers)[i] == answers[i - 1];
        }
      }
    }
  }

  /** Each kind of read, against its meaning. */
  lemma PerformExactly(data: Data, key: string, at: int)
    ensures var found := if key in data && at <= data[key].expiresAt then Some(data[key]) else None;
            && Perform(data, ReadEntry(key, at)) == (Perform(data, ReadOne(key, at)).0, Meta(found))
            && Perform(data, ReadOne(key, at)).1 == One(if found.Some? then Some(found.value.value) else None)
    ensures var (after, answer) := Perform(data, Sweep(at));
            && answer == Swept(|data| - |after|)
            && forall k :: k in after <==> k in data && at <= data[k].expiresAt
  {
  }

  /** A `Set` followed by any reads and sweeps in the order of the clock: each read of the key finds the
      value exactly up to its last moment, whatever the reads and sweeps in between removed. */
  lemma SetIsReadUntil(config: CacheConfig, data: Data, victims: set<string>, key: string, value: Value,
                       ttl: int, now: int, queries: seq<Read>, clock: int, i: nat)
    requires Ascending(clock, queries) && i < |queries| && queries[i].ReadOne? && queries[i].key == key
    ensures var after := Put(data, victims, key, NewEntry(config, value, ttl, now));
            PerformAll(after, queries).1[i]
            == One(if queries[i].at <= now + Min(if ttl <= 0 then config.defaultTTL else ttl, config.maxTTL)
                   then Some(value) else None)
  {
    var after := Put(data, victims, key, NewEntry(config, value, ttl, now));
    RemovalIsUnobservable(after, after, queries, clock);
    SetLifetimeExactly(config, data, victims, key, value, ttl, now, key, queries[i].at);
    ReadExactly(after, key, queries[i].at);
  }
}
