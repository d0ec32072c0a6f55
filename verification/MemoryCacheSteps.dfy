/** The in-memory cache used by any number of goroutines at once. `Get` takes its lock twice and
    looks at the clock in between; `Set` builds its entry before it takes the lock. Each label is
    one locked (or lock-free) step, and every step leaves an event in the history. */
module MemoryCacheSteps {
  import opened Prelude
  import opened MemoryCaches
  import Runs = MemoryCacheRuns

  datatype Phase =
    | Holding(key: string, entry: Entry)                  // read under the lock, not yet checked
    | Hitting(key: string, entry: Entry, checkedAt: int)  // found unexpired, hit not yet counted
    | Dropping(key: string, entry: Entry, checkedAt: int) // found expired, not yet deleted
    | Missing                                             // miss not yet counted
    | Storing(key: string, entry: Entry)                  // entry built, not yet stored

  datatype Cache = Cache(data: Data, hits: nat, misses: nat, calls: map<nat, Phase>)

  datatype Label =
    | Read(call: nat, key: string)
    | Check(call: nat, now: int)
    | Drop(call: nat)
    | Count(call: nat)
    | Build(call: nat, key: string, value: Value, ttl: int, now: int)
    | Store(call: nat, victims: set<string>)
    | StoreEntry(key: string, entry: Entry, victims: set<string>)
    | StoreBatch(items: map<string, Value>, ttl: int, now: int, victims: set<string>)
    | Delete(key: string)
    | Clear
    | Sweep(now: int)

  datatype Event =
    | Internal
    | ReadBy(call: nat, key: string)
    | Hit(call: nat, key: string, entry: Entry, checkedAt: int)
    | Miss(call: nat)
    | Stored(entries: Data)
    | Deleted(key: string)
    | Cleared

  const EMPTY := Cache(map[], 0, 0, map[])

  /** One step; a label that does not fit the state of its call, or names victims the eviction
      cannot pick, does nothing. */
  function Step(config: CacheConfig, s: Cache, l: Label): (Cache, Event) {
    match l
    case Read(c, key) =>
      if c in s.calls then (s, Internal)
      else (s.(calls := s.calls[c := if key in s.data then Holding(key, s.data[key]) else Missing]), ReadBy(c, key))
    case Check(c, now) =>
      if c !in s.calls || !s.calls[c].Holding? then (s, Internal)
      else
        var p := s.calls[c];
        var found := if p.entry.IsExpired(now) then Dropping(p.key, p.entry, now) else Hitting(p.key, p.entry, now);
        (s.(calls := s.calls[c := found]), Internal)
    case Drop(c) =>
      if c !in s.calls || !s.calls[c].Dropping? then (s, Internal)
      else (s.(data := s.data - {s.calls[c].key}, calls := s.calls[c := Missing]), Internal)
    case Count(c) =>
      if c in s.calls && s.calls[c].Missing? then
        (s.(misses := s.misses + 1, calls := s.calls - {c}), Miss(c))
      else if c in s.calls && s.calls[c].Hitting? then
        var p := s.calls[c];
        (s.(hits := s.hits + 1, calls := s.calls - {c}), Hit(c, p.key, p.entry, p.checkedAt))
      else (s, Internal)
    case Build(c, key, value, ttl, now) =>
      if c in s.calls then (s, Internal)
      else (s.(calls := s.calls[c := Storing(key, NewEntry(config, value, ttl, now))]), Internal)
    case Store(c, victims) =>
      if c !in s.calls || !s.calls[c].Storing? || !MakesRoom(s.data, |s.data| >= config.maxSize, victims) then (s, Internal)
      else
        var p := s.calls[c];
        (s.(data := Put(s.data, victims, p.key, p.entry), calls := s.calls - {c}), Stored(map[p.key := p.entry]))
    case StoreEntry(key, entry, victims) =>
      if !MakesRoom(s.data, |s.data| >= config.maxSize, victims) then (s, Internal)
      else (s.(data := Put(s.data, victims, key, entry)), Stored(map[key := entry]))
    case StoreBatch(items, ttl, now, victims) =>
      if !MakesRoom(s.data, items != map[] && |s.data| + |items| >= config.maxSize, victims) then (s, Internal)
      else (s.(data := PutAll(s.data, victims, items, ttl, now)), Stored(Batch(items, ttl, now)))
    case Delete(key) => (s.(data := s.data - {key}), Deleted(key))
    case Clear => (s.(data := map[]), Cleared)
    case Sweep(now) => (s.(data := Live(s.data, now)), Internal)
  }

  /** The state and the history after running `labels` from an empty cache. */
  function Run(config: CacheConfig, labels: seq<Label>): (r: (Cache, seq<Event>))
    ensures |r.1| == |labels|
    decreases labels
  {
    if labels == [] then (EMPTY, [])
    else
      var (s, history) := Run(config, labels[..|labels| - 1]);
      var (e, event) := Step(config, s, labels[|labels| - 1]);
      (e, history + [event])
  }

  lemma RunSnoc(config: CacheConfig, labels: seq<Label>, l: Label)
    ensures var (s, history) := Run(config, labels);
            var (e, event) := Step(config, s, l);
            Run(config, labels + [l]) == (e, history + [event])
  {
    assert (labels + [l])[..|labels|] == labels;
  }

  /** What one event does to the value a reliable map would hold for `key`. */
  function Update(held: Option<Entry>, event: Event, key: string): Option<Entry> {
    if event.Stored? && key in event.entries then Some(event.entries[key])
    else if event.Cleared? || (event.Deleted? && event.key == key) then None
    else held
  }

  /** The reference: what a map that never loses anything holds for `key` after `history`. */
  function Latest(history: seq<Event>, key: string): Option<Entry>
    decreases history
  {
    if history == [] then None
    else Update(Latest(history[..|history| - 1], key), history[|history| - 1], key)
  }

  /** `history[j]` is the read step of the call that is at `history[..n]`, and it saw `entry`. */
  ghost predicate ReadAt(history: seq<Event>, n: nat, j: nat, c: nat, key: string, entry: Entry) {
    && j < n <= |history|
    && history[j] == ReadBy(c, key)
    && (forall m | j < m < n :: !(history[m].ReadBy? && history[m].call == c))
    && Latest(history[..j], key) == Some(entry)
  }

  ghost predicate PhaseExplained(history: seq<Event>, c: nat, p: Phase) {
    match p
    case Holding(key, entry) => exists j: nat :: ReadAt(history, |history|, j, c, key, entry)
    case Hitting(key, entry, at) =>
      !entry.IsExpired(at) && exists j: nat :: ReadAt(history, |history|, j, c, key, entry)
    case Dropping(key, entry, at) =>
      entry.IsExpired(at) && exists j: nat :: ReadAt(history, |history|, j, c, key, entry)
    case _ => true
  }

  ghost predicate Explained(s: Cache, history: seq<Event>) {
    && (forall k | k in s.data :: Latest(history, k) == Some(s.data[k]))
    && (forall c | c in s.calls :: PhaseExplained(history, c, s.calls[c]))
  }

  lemma LatestAfter(history: seq<Event>, event: Event, key: string)
    ensures Latest(history + [event], key) == Update(Latest(history, key), event, key)
  {
    assert (history + [event])[..|history|] == history;
  }

  /** The write goes through: its victims are ones the eviction may pick. */
  predicate Stores(config: CacheConfig, s: Cache, l: Label) {
    match l
    case Store(c, victims) => c in s.calls && s.calls[c].Storing? && MakesRoom(s.data, |s.data| >= config.maxSize, victims)
    case StoreEntry(_, _, victims) => MakesRoom(s.data, |s.data| >= config.maxSize, victims)
    case StoreBatch(items, _, _, victims) =>
      MakesRoom(s.data, items != map[] && |s.data| + |items| >= config.maxSize, victims)
    case _ => false
  }

  // What each step does to the reference: a store replaces what its keys held, a delete and a clear empty
  // it, and nothing else touches it.

  lemma StoreShows(config: CacheConfig, s: Cache, c: nat, victims: set<string>, history: seq<Event>, key: string)
    requires Stores(config, s, Store(c, victims))
    ensures Latest(history + [Step(config, s, Store(c, victims)).1], key)
         == if s.calls[c].key == key then Some(s.calls[c].entry) else Latest(history, key)
  {
    LatestAfter(history, Step(config, s, Store(c, victims)).1, key);
  }

  lemma StoreEntryShows(config: CacheConfig, s: Cache, k: string, entry: Entry, victims: set<string>,
                        history: seq<Event>, key: string)
    requires Stores(config, s, StoreEntry(k, entry, victims))
    ensures Latest(history + [Step(config, s, StoreEntry(k, entry, victims)).1], key)
         == if k == key then Some(entry) else Latest(history, key)
  {
    LatestAfter(history, Step(config, s, StoreEntry(k, entry, victims)).1, key);
  }

  lemma StoreBatchShows(config: CacheConfig, s: Cache, items: map<string, Value>, ttl: int, now: int, victims: set<string>,
                        history: seq<Event>, key: string)
    requires Stores(config, s, StoreBatch(items, ttl, now, victims))
    ensures Latest(history + [Step(config, s, StoreBatch(items, ttl, now, victims)).1], key)
         == if key in items then Some(Entry(items[key], now + ttl, now)) else Latest(history, key)
  {
    LatestAfter(history, Step(config, s, StoreBatch(items, ttl, now, victims)).1, key);
  }

  lemma OtherShows(config: CacheConfig, s: Cache, l: Label, history: seq<Event>, key: string)
    requires !l.Store? && !l.StoreEntry? && !l.StoreBatch?
    ensures Latest(history + [Step(config, s, l).1], key)
         == if l.Clear? || (l.Delete? && l.key == key) then None else Latest(history, key)
  {
    LatestAfter(history, Step(config, s, l).1, key);
  }

  lemma ReadAtLater(history: seq<Event>, event: Event, j: nat, c: nat, key: string, entry: Entry)
    requires ReadAt(history, |history|, j, c, key, entry)
    requires !(event.ReadBy? && event.call == c)
    ensures ReadAt(history + [event], |history| + 1, j, c, key, entry)
  {
    assert (history + [event])[..j] == history[..j];
  }

  lemma PhaseStaysExplained(history: seq<Event>, event: Event, c: nat, p: Phase)
    requires PhaseExplained(history, c, p) && !(event.ReadBy? && event.call == c)
    ensures PhaseExplained(history + [event], c, p)
  {
    if p.Holding? || p.Hitting? || p.Dropping? {
      var j: nat :| ReadAt(history, |history|, j, c, p.key, p.entry);
      ReadAtLater(history, event, j, c, p.key, p.entry);
    }
  }

  lemma StoredBatch(data: Data, victims: set<string>, items: map<string, Value>, ttl: int, now: int, key: string)
    requires key in PutAll(data, victims, items, ttl, now)
    ensures var e := PutAll(data, victims, items, ttl, now)[key];
            if key in Batch(items, ttl, now)
            then e == Batch(items, ttl, now)[key] && e == Entry(items[key], now + ttl, now)
            else key in data && e == data[key]
  {
  }

  /** Where an entry found after a step comes from: the step's own event stored it, or it was there before
      and the step did not delete it. */
  lemma StepOrigin(config: CacheConfig, s: Cache, l: Label, key: string)
    requires key in Step(config, s, l).0.data
    ensures var (e, event) := Step(config, s, l);
            if event.Stored? && key in event.entries then e.data[key] == event.entries[key]
            else key in s.data && e.data[key] == s.data[key]
                 && !event.Cleared? && !(event.Deleted? && event.key == key)
  {
    match l {
      case StoreBatch(items, ttl, now, victims) => StoreBatchOrigin(config, s, items, ttl, now, victims, key);
      case Sweep(now) => SweepOrigin(config, s, now, key);
      case Store(c, victims) => StoreOrigin(config, s, c, victims, key);
      case StoreEntry(k, entry, victims) => StoreEntryOrigin(config, s, k, entry, victims, key);
      case Delete(_) =>
      case Clear =>
      case _ => CallOrigin(config, s, l);
    }
  }

  /** The remaining steps work on calls: of the store they can only drop a key. */
  lemma CallOrigin(config: CacheConfig, s: Cache, l: Label)
    requires l.Read? || l.Check? || l.Drop? || l.Count? || l.Build?
    ensures var (e, event) := Step(config, s, l);
            && !event.Stored? && !event.Cleared? && !event.Deleted?
            && forall k | k in e.data :: k in s.data && e.data[k] == s.data[k]
  {
  }

  lemma StoreOrigin(config: CacheConfig, s: Cache, c: nat, victims: set<string>, key: string)
    requires key in Step(config, s, Store(c, victims)).0.data
    ensures var (e, event) := Step(config, s, Store(c, victims));
            && (event.Internal? || event.Stored?)
            && if event.Stored? && key in event.entries then e.data[key] == event.entries[key]
               else key in s.data && e.data[key] == s.data[key]
  {
  }

  lemma StoreEntryOrigin(config: CacheConfig, s: Cache, k: string, entry: Entry, victims: set<string>, key: string)
    requires key in Step(config, s, StoreEntry(k, entry, victims)).0.data
    ensures var (e, event) := Step(config, s, StoreEntry(k, entry, victims));
            && (event.Internal? || event.Stored?)
            && if event.Stored? && key in event.entries then e.data[key] == event.entries[key]
               else key in s.data && e.data[key] == s.data[key]
  {
  }

  lemma SweepOrigin(config: CacheConfig, s: Cache, now: int, key: string)
    requires key in Step(config, s, Sweep(now)).0.data
    ensures key in s.data && Step(config, s, Sweep(now)).0.data[key] == s.data[key]
    ensures Step(config, s, Sweep(now)).1 == Internal
  {
  }

  lemma StoreBatchOrigin(config: CacheConfig, s: Cache, items: map<string, Value>, ttl: int, now: int,
                         victims: set<string>, key: string)
    requires key in Step(config, s, StoreBatch(items, ttl, now, victims)).0.data
    ensures var (e, event) := Step(config, s, StoreBatch(items, ttl, now, victims));
            && (event == Internal || event == Stored(Batch(items, ttl, now)))
            && if event.Stored? && key in event.entries then e.data[key] == event.entries[key]
               else key in s.data && e.data[key] == s.data[key]
  {
    if Step(config, s, StoreBatch(items, ttl, now, victims)).1.Stored? {
      StoredBatch(s.data, victims, items, ttl, now, key);
    }
  }

  /** What a step leaves in the store is what a reliable map holds after its event. */
  lemma StepFollowsReference(config: CacheConfig, s: Cache, l: Label, key: string, held: Option<Entry>)
    requires key in s.data ==> held == Some(s.data[key])
    ensures var (e, event) := Step(config, s, l);
            key in e.data ==> Update(held, event, key) == Some(e.data[key])
  {
    if key in Step(config, s, l).0.data {
      StepOrigin(config, s, l, key);
    }
  }

  lemma DataStaysExplained(config: CacheConfig, s: Cache, l: Label, history: seq<Event>)
    requires Explained(s, history)
    ensures var (e, event) := Step(config, s, l);
            forall k | k in e.data :: Latest(history + [event], k) == Some(e.data[k])
  {
    var (e, event) := Step(config, s, l);
    forall k | k in e.data
      ensures Latest(history + [event], k) == Some(e.data[k])
    {
      LatestAfter(history, event, k);
      StepFollowsReference(config, s, l, k, Latest(history, k));
    }
  }

  lemma CallsStayExplained(config: CacheConfig, s: Cache, l: Label, history: seq<Event>)
    requires Explained(s, history)
    ensures var (e, event) := Step(config, s, l);
            forall c | c in e.calls :: PhaseExplained(history + [event], c, e.calls[c])
  {
    var (e, event) := Step(config, s, l);
    forall c | c in e.calls
      ensures PhaseExplained(history + [event], c, e.calls[c])
    {
      if l.Read? && l.call == c && c !in s.calls {
        if e.calls[c].Holding? {
          var h := history + [event];
          assert h[..|history|] == history;
          assert ReadAt(h, |h|, |history|, c, l.key, s.data[l.key]);
        }
      } else if c in s.calls {
        PhaseStaysExplained(history, event, c, s.calls[c]);
      }
    }
  }

  lemma {:induction false} RunExplained(config: CacheConfig, labels: seq<Label>)
    ensures Explained(Run(config, labels).0, Run(config, labels).1)
    decreases labels
  {
    if labels != [] {
      var before, l := labels[..|labels| - 1], labels[|labels| - 1];
      RunExplained(config, before);
      DataStaysExplained(config, Run(config, before).0, l, Run(config, before).1);
      CallsStayExplained(config, Run(config, before).0, l, Run(config, before).1);
    }
  }

  lemma ReadAtPrefix(past: seq<Event>, history: seq<Event>, n: nat, j: nat, c: nat, key: string, entry: Entry)
    requires past <= history && n <= |past| && ReadAt(past, n, j, c, key, entry)
    ensures ReadAt(history, n, j, c, key, entry)
  {
    assert history[..j] == past[..j];
  }

  ghost predicate HitIsLatest(history: seq<Event>, i: nat) {
    i < |history| && history[i].Hit?
    && !history[i].entry.IsExpired(history[i].checkedAt)
    && exists j: nat :: ReadAt(history, i, j, history[i].call, history[i].key, history[i].entry)
  }

  lemma HitStaysLatest(past: seq<Event>, event: Event, i: nat)
    requires HitIsLatest(past, i)
    ensures HitIsLatest(past + [event], i)
  {
    var hit := past[i];
    var j: nat :| ReadAt(past, i, j, hit.call, hit.key, hit.entry);
    ReadAtPrefix(past, past + [event], i, j, hit.call, hit.key, hit.entry);
  }

  lemma HitExplained(config: CacheConfig, s: Cache, past: seq<Event>, l: Label)
    requires Explained(s, past) && Step(config, s, l).1.Hit?
    ensures HitIsLatest(past + [Step(config, s, l).1], |past|)
  {
    var hit := Step(config, s, l).1;
    assert PhaseExplained(past, l.call, s.calls[l.call]);
    var j: nat :| ReadAt(past, |past|, j, hit.call, hit.key, hit.entry);
    ReadAtPrefix(past, past + [hit], |past|, j, hit.call, hit.key, hit.entry);
  }

  /** The cache refines a lossy map under every interleaving: whatever is evicted, swept, or deleted
      through the gap between the two locks of a reader, a hit returns the entry stored last for its
      key before its own read step, and that entry was unexpired when it was checked. */
  lemma {:induction false} HitsAreLatest(config: CacheConfig, labels: seq<Label>, i: nat)
    requires i < |labels| && Run(config, labels).1[i].Hit?
    ensures var history := Run(config, labels).1;
            var hit := history[i];
            && !hit.entry.IsExpired(hit.checkedAt)
            && exists j: nat :: ReadAt(history, i, j, hit.call, hit.key, hit.entry)
    decreases labels
  {
    var before, l := labels[..|labels| - 1], labels[|labels| - 1];
    RunSnoc(config, before, l);
    assert labels == before + [l];
    var (s, past) := Run(config, before);
    if i < |before| {
      HitsAreLatest(config, before, i);
      HitStaysLatest(past, Step(config, s, l).1, i);
    } else {
      RunExplained(config, before);
      HitExplained(config, s, past, l);
    }
    assert HitIsLatest(Run(config, labels).1, i);
  }

  function CountHits(history: seq<Event>): nat {
    if history == [] then 0
    else CountHits(history[..|history| - 1]) + (if history[|history| - 1].Hit? then 1 else 0)
  }

  function CountMisses(history: seq<Event>): nat {
    if history == [] then 0
    else CountMisses(history[..|history| - 1]) + (if history[|history| - 1].Miss? then 1 else 0)
  }

  function CountReads(history: seq<Event>): nat {
    if history == [] then 0
    else CountReads(history[..|history| - 1]) + (if history[|history| - 1].ReadBy? then 1 else 0)
  }

  /** The calls that have read and not yet been counted. */
  function Readers(calls: map<nat, Phase>): set<nat> {
    set c | c in calls && !calls[c].Storing?
  }

  lemma ReadersUpdate(calls: map<nat, Phase>, c: nat, p: Phase)
    ensures Readers(calls[c := p]) == if p.Storing? then Readers(calls) - {c} else Readers(calls) + {c}
    ensures Readers(calls - {c}) == Readers(calls) - {c}
  {
  }

  /** Reads counted or still under way. */
  function Ledger(s: Cache): nat {
    s.hits + s.misses + |Readers(s.calls)|
  }

  lemma ReadKeepsLedger(config: CacheConfig, s: Cache, c: nat, key: string)
    ensures var (e, event) := Step(config, s, Read(c, key));
            Ledger(e) == Ledger(s) + (if event.ReadBy? then 1 else 0)
  {
    if c !in s.calls {
      ReadersUpdate(s.calls, c, if key in s.data then Holding(key, s.data[key]) else Missing);
      assert c !in Readers(s.calls);
    }
  }

  lemma CountKeepsLedger(config: CacheConfig, s: Cache, c: nat)
    ensures var (e, event) := Step(config, s, Count(c));
            Ledger(e) == Ledger(s) && !event.ReadBy?
  {
    if c in s.calls && (s.calls[c].Missing? || s.calls[c].Hitting?) {
      ReadersUpdate(s.calls, c, Missing);
      assert c in Readers(s.calls);
    }
  }

  lemma CheckKeepsLedger(config: CacheConfig, s: Cache, l: Label)
    requires l.Check? || l.Drop?
    ensures var (e, event) := Step(config, s, l);
            Ledger(e) == Ledger(s) && !event.ReadBy?
  {
    var e := Step(config, s, l).0;
    if l.call in s.calls && (s.calls[l.call].Holding? || s.calls[l.call].Dropping?) {
      ReadersUpdate(s.calls, l.call, e.calls[l.call]);
      assert l.call in Readers(s.calls) && Readers(e.calls) == Readers(s.calls);
    }
  }

  lemma BuildKeepsLedger(config: CacheConfig, s: Cache, c: nat, key: string, value: Value, ttl: int, now: int)
    ensures var (e, event) := Step(config, s, Build(c, key, value, ttl, now));
            Ledger(e) == Ledger(s) && !event.ReadBy?
  {
    ReadersUpdate(s.calls, c, Storing(key, NewEntry(config, value, ttl, now)));
    if c !in s.calls {
      assert c !in Readers(s.calls);
    }
  }

  lemma StoreKeepsLedger(config: CacheConfig, s: Cache, c: nat, victims: set<string>)
    ensures var (e, event) := Step(config, s, Store(c, victims));
            Ledger(e) == Ledger(s) && !event.ReadBy?
  {
    ReadersUpdate(s.calls, c, Missing);
    if c in s.calls && s.calls[c].Storing? {
      assert c !in Readers(s.calls);
    }
  }

  lemma WriterKeepsLedger(config: CacheConfig, s: Cache, l: Label)
    requires !(l.Read? || l.Check? || l.Drop? || l.Count? || l.Build? || l.Store?)
    ensures var (e, event) := Step(config, s, l);
            Ledger(e) == Ledger(s) && !event.ReadBy?
  {
    assert Step(config, s, l).0.calls == s.calls;
  }

  /** Only a read step adds to the ledger, and no other step takes from it. */
  lemma StepKeepsLedger(config: CacheConfig, s: Cache, l: Label)
    ensures var (e, event) := Step(config, s, l);
            Ledger(e) == Ledger(s) + (if event.ReadBy? then 1 else 0)
  {
    match l {
      case Read(c, key) => ReadKeepsLedger(config, s, c, key);
      case Count(c) => CountKeepsLedger(config, s, c);
      case Check(_, _) => CheckKeepsLedger(config, s, l);
      case Drop(_) => CheckKeepsLedger(config, s, l);
      case Build(c, key, value, ttl, now) => BuildKeepsLedger(config, s, c, key, value, ttl, now);
      case Store(c, victims) => StoreKeepsLedger(config, s, c, victims);
      case _ => WriterKeepsLedger(config, s, l);
    }
  }

  /** The counters move with the events. */
  lemma CountedByEvent(config: CacheConfig, s: Cache, l: Label)
    ensures var (e, event) := Step(config, s, l);
            e.hits - s.hits == (if event.Hit? then 1 else 0) && e.misses - s.misses == (if event.Miss? then 1 else 0)
  {
  }

  lemma CountingOne(config: CacheConfig, s: Cache, l: Label, history: seq<Event>)
    ensures var (e, event) := Step(config, s, l);
            && e.hits - s.hits == CountHits(history + [event]) - CountHits(history)
            && e.misses - s.misses == CountMisses(history + [event]) - CountMisses(history)
  {
    var (e, event) := Step(config, s, l);
    CountedByEvent(config, s, l);
    assert (history + [event])[..|history|] == history;
  }

  /** Every read that was begun is counted exactly once or still under way: hits, misses and the readers
      in flight add up to the read steps so far, and what is counted as a hit returned an entry. */
  lemma {:induction false} EveryReadIsCounted(config: CacheConfig, labels: seq<Label>)
    ensures var (s, history) := Run(config, labels);
            && s.hits + s.misses + |Readers(s.calls)| == CountReads(history)
            && s.hits == CountHits(history) && s.misses == CountMisses(history)
    decreases labels
  {
    if labels != [] {
      var l := labels[|labels| - 1];
      EveryReadIsCounted(config, labels[..|labels| - 1]);
      var (s, history) := Run(config, labels[..|labels| - 1]);
      var (e, event) := Step(config, s, l);
      CountingOne(config, s, l, history);
      StepKeepsLedger(config, s, l);
      assert Run(config, labels) == (e, history + [event]);
      assert (history + [event])[..|history|] == history;
    }
  }

  // ---------------------------------------------------------------- operations nobody interferes with

  /** The state after running `labels` from `s`. */
  function After(config: CacheConfig, s: Cache, labels: seq<Label>): Cache
    decreases labels
  {
    if labels == [] then s else After(config, Step(config, s, labels[0]).0, labels[1..])
  }

  lemma AfterOne(config: CacheConfig, s: Cache, l: Label)
    ensures After(config, s, [l]) == Step(config, s, l).0
  {
    assert [l][1..] == [] && After(config, Step(config, s, l).0, []) == Step(config, s, l).0;
  }

  lemma AfterTwo(config: CacheConfig, s: Cache, a: Label, b: Label)
    ensures After(config, s, [a, b]) == Step(config, Step(config, s, a).0, b).0
  {
    assert [a, b][1..] == [b];
    AfterOne(config, Step(config, s, a).0, b);
  }

  lemma AfterFour(config: CacheConfig, s: Cache, a: Label, b: Label, c: Label, d: Label)
    ensures After(config, s, [a, b, c, d])
         == Step(config, Step(config, Step(config, Step(config, s, a).0, b).0, c).0, d).0
  {
    assert [a, b, c, d][1..] == [b, c, d] && [b, c, d][1..] == [c, d];
    AfterTwo(config, Step(config, Step(config, s, a).0, b).0, c, d);
  }

  /** The steps of an operation done by call `c`. */
  function StepsOf(c: nat, op: Runs.Op): seq<Label> {
    match op
    case Set(key, value, ttl, now, victims) => [Build(c, key, value, ttl, now), Store(c, victims)]
    case SetWithMetadata(key, entry, victims) => [StoreEntry(key, entry, victims)]
    case SetMultiple(items, ttl, now, victims) => [StoreBatch(items, ttl, now, victims)]
    case Delete(key) => [Delete(key)]
    case Clear => [Clear]
    case Get(key, now) => [Read(c, key), Check(c, now), Drop(c), Count(c)]
    case EvictExpired(now) => [Sweep(now)]
    case Expire(_, _, _) => []
  }

  /** The first two steps of a `Get`: the entry is seen and judged by the clock. */
  lemma ReadAndCheck(config: CacheConfig, s: Cache, c: nat, key: string, now: int)
    requires c !in s.calls
    ensures var e := Step(config, Step(config, s, Read(c, key)).0, Check(c, now)).0;
            e == s.(calls := s.calls[c := if key !in s.data then Missing
                                          else if s.data[key].IsExpired(now) then Dropping(key, s.data[key], now)
                                          else Hitting(key, s.data[key], now)])
  {
    if key in s.data {
      assert Step(config, s, Read(c, key)).0 == s.(calls := s.calls[c := Holding(key, s.data[key])]);
    }
  }

  /** The last two: an expired entry is deleted, and a hit or a miss is counted. */
  lemma DropAndCount(config: CacheConfig, s: Cache, c: nat, p: Phase)
    requires c in s.calls && s.calls[c] == p && (p.Missing? || p.Dropping? || p.Hitting?)
    ensures Step(config, Step(config, s, Drop(c)).0, Count(c)).0
         == Cache(if p.Dropping? then s.data - {p.key} else s.data, s.hits + (if p.Hitting? then 1 else 0),
                  s.misses + (if p.Hitting? then 0 else 1), s.calls - {c})
  {
    var e := Step(config, s, Drop(c)).0;
    assert e.calls - {c} == s.calls - {c};
  }

  lemma GetOutcome(s: Cache, c: nat, key: string, now: int, m: Cache, e: Cache)
    requires c !in s.calls && c in m.calls
    requires m == s.(calls := s.calls[c := if key !in s.data then Missing
                                           else if s.data[key].IsExpired(now) then Dropping(key, s.data[key], now)
                                           else Hitting(key, s.data[key], now)])
    requires var p := m.calls[c];
             e == Cache(if p.Dropping? then m.data - {p.key} else m.data, m.hits + (if p.Hitting? then 1 else 0),
                        m.misses + (if p.Hitting? then 0 else 1), m.calls - {c})
    ensures var found := LookupEntry(s.data, key, now);
            e == Cache(AfterRead(s.data, key, now), s.hits + (if found.Some? then 1 else 0),
                       s.misses + (if found.Some? then 0 else 1), s.calls)
  {
    assert m.calls - {c} == s.calls;
  }

  /** A `Get` that nothing interferes with drops the entry it found expired and counts one hit or one miss. */
  lemma UndisturbedGet(config: CacheConfig, s: Cache, c: nat, key: string, now: int)
    requires c !in s.calls
    ensures var found := LookupEntry(s.data, key, now);
            After(config, s, [Read(c, key), Check(c, now), Drop(c), Count(c)])
            == Cache(AfterRead(s.data, key, now), s.hits + (if found.Some? then 1 else 0),
                     s.misses + (if found.Some? then 0 else 1), s.calls)
  {
    AfterFour(config, s, Read(c, key), Check(c, now), Drop(c), Count(c));
    ReadAndCheck(config, s, c, key, now);
    var m := Step(config, Step(config, s, Read(c, key)).0, Check(c, now)).0;
    DropAndCount(config, m, c, m.calls[c]);
    GetOutcome(s, c, key, now, m, Step(config, Step(config, m, Drop(c)).0, Count(c)).0);
  }

  lemma UndisturbedSet(config: CacheConfig, s: Cache, c: nat, key: string, value: Value, ttl: int, now: int, victims: set<string>)
    requires c !in s.calls && MakesRoom(s.data, |s.data| >= config.maxSize, victims)
    ensures After(config, s, [Build(c, key, value, ttl, now), Store(c, victims)])
         == s.(data := Put(s.data, victims, key, NewEntry(config, value, ttl, now)))
  {
    AfterTwo(config, s, Build(c, key, value, ttl, now), Store(c, victims));
    assert Step(config, s, Build(c, key, value, ttl, now)).0.calls - {c} == s.calls;
  }

  lemma EntryInOneStep(config: CacheConfig, s: Cache, key: string, entry: Entry, victims: set<string>)
    requires MakesRoom(s.data, |s.data| >= config.maxSize, victims)
    ensures After(config, s, [StoreEntry(key, entry, victims)]) == s.(data := Put(s.data, victims, key, entry))
  {
    AfterOne(config, s, StoreEntry(key, entry, victims));
  }

  lemma BatchInOneStep(config: CacheConfig, s: Cache, items: map<string, Value>, ttl: int, now: int, victims: set<string>)
    requires MakesRoom(s.data, items != map[] && |s.data| + |items| >= config.maxSize, victims)
    ensures After(config, s, [StoreBatch(items, ttl, now, victims)]) == s.(data := PutAll(s.data, victims, items, ttl, now))
  {
    AfterOne(config, s, StoreBatch(items, ttl, now, victims));
  }

  lemma RemovalsInOneStep(config: CacheConfig, s: Cache, key: string, now: int)
    ensures After(config, s, [Delete(key)]) == s.(data := s.data - {key})
    ensures After(config, s, [Clear]) == s.(data := map[])
    ensures After(config, s, [Sweep(now)]) == s.(data := Live(s.data, now))
  {
    AfterOne(config, s, Delete(key));
    AfterOne(config, s, Clear);
    AfterOne(config, s, Sweep(now));
  }

  /** The steps of an operation that nothing interferes with do to the store what the operation does. */
  lemma UndisturbedOperation(config: CacheConfig, s: Cache, c: nat, op: Runs.Op)
    requires c !in s.calls && !op.Expire? && Runs.Legal(config, s.data, op)
    ensures var e := After(config, s, StepsOf(c, op));
            e.data == Runs.Apply(config, s.data, op) && e.calls == s.calls
  {
    match op {
      case Set(key, value, ttl, now, victims) => UndisturbedSet(config, s, c, key, value, ttl, now, victims);
      case Get(key, now) => UndisturbedGet(config, s, c, key, now);
      case SetWithMetadata(key, entry, victims) => EntryInOneStep(config, s, key, entry, victims);
      case SetMultiple(items, ttl, now, victims) => BatchInOneStep(config, s, items, ttl, now, victims);
      case Delete(key) => RemovalsInOneStep(config, s, key, 0);
      case Clear => RemovalsInOneStep(config, s, "", 0);
      case EvictExpired(now) => RemovalsInOneStep(config, s, "", now);
    }
  }

  // ---------------------------------------------------------------- how old a hit can be

  predicate Young(entry: Entry, life: int) {
    entry.expiresAt <= entry.createdAt + life
  }

  /** The label brings in no entry that lives longer than `life`. */
  predicate TTLWithin(config: CacheConfig, l: Label, life: int) {
    match l
    case Build(_, _, _, ttl, _) => EffectiveTTL(config, ttl) <= life
    case StoreEntry(_, entry, _) => Young(entry, life)
    case StoreBatch(_, ttl, _, _) => ttl <= life
    case _ => true
  }

  ghost predicate AllYoung(s: Cache, life: int) {
    && (forall k | k in s.data :: Young(s.data[k], life))
    && (forall c | c in s.calls && (s.calls[c].Storing? || s.calls[c].Holding? || s.calls[c].Hitting?) ::
          Young(s.calls[c].entry, life))
  }

  /** What a step stores is young. */
  lemma StoredIsYoung(config: CacheConfig, s: Cache, l: Label, life: int, key: string)
    requires TTLWithin(config, l, life)
    requires l.Store? && l.call in s.calls && s.calls[l.call].Storing? ==> Young(s.calls[l.call].entry, life)
    ensures var event := Step(config, s, l).1;
            event.Stored? && key in event.entries ==> Young(event.entries[key], life)
  {
    match l {
      case Store(_, _) =>
      case StoreEntry(_, _, _) =>
      case StoreBatch(items, ttl, now, victims) => BatchIsYoung(items, ttl, now, life, key);
      case _ =>
    }
  }

  lemma BatchIsYoung(items: map<string, Value>, ttl: int, now: int, life: int, key: string)
    requires ttl <= life
    ensures key in Batch(items, ttl, now) ==> Young(Batch(items, ttl, now)[key], life)
  {
  }

  lemma StepYoung(config: CacheConfig, s: Cache, l: Label, life: int)
    requires AllYoung(s, life) && TTLWithin(config, l, life)
    ensures AllYoung(Step(config, s, l).0, life)
  {
    var e := Step(config, s, l).0;
    forall k | k in e.data
      ensures Young(e.data[k], life)
    {
      StepOrigin(config, s, l, k);
      StoredIsYoung(config, s, l, life, k);
    }
    forall c | c in e.calls && (e.calls[c].Storing? || e.calls[c].Holding? || e.calls[c].Hitting?)
      ensures Young(e.calls[c].entry, life)
    {
      if c in s.calls && e.calls[c] == s.calls[c] {
      } else {
        assert (l.Read? || l.Build? || l.Check?) && l.call == c;
      }
    }
  }

  lemma {:induction false} RunYoung(config: CacheConfig, labels: seq<Label>, life: int)
    requires forall l | l in labels :: TTLWithin(config, l, life)
    ensures AllYoung(Run(config, labels).0, life)
    decreases labels
  {
    if labels != [] {
      RunYoung(config, labels[..|labels| - 1], life);
      StepYoung(config, Run(config, labels[..|labels| - 1]).0, labels[|labels| - 1], life);
    }
  }

  /** Without a layer below, no hit is older than the largest effective TTL in use. */
  lemma {:induction false} HitsAreYoung(config: CacheConfig, labels: seq<Label>, life: int, i: nat)
    requires forall l | l in labels :: TTLWithin(config, l, life)
    requires i < |labels| && Run(config, labels).1[i].Hit?
    ensures var hit := Run(config, labels).1[i];
            hit.checkedAt - hit.entry.createdAt <= life
    decreases labels
  {
    var before := labels[..|labels| - 1];
    if i < |before| {
      HitsAreYoung(config, before, life, i);
    } else {
      RunYoung(config, before, life);
      HitsAreLatest(config, labels, i);
    }
  }

  lemma ThreeSteps(config: CacheConfig, a: Label, b: Label, c: Label)
    ensures var s1 := Step(config, EMPTY, a);
            var s2 := Step(config, s1.0, b);
            var s3 := Step(config, s2.0, c);
            Run(config, [a, b, c]) == (s3.0, [s1.1, s2.1, s3.1])
  {
    var s1 := Step(config, EMPTY, a);
    var s2 := Step(config, s1.0, b);
    assert Run(config, [a]) == (s1.0, [s1.1]) by {
      RunSnoc(config, [], a);
      assert [] + [a] == [a] && [] + [s1.1] == [s1.1];
    }
    assert Run(config, [a, b]) == (s2.0, [s1.1, s2.1]) by {
      RunSnoc(config, [a], b);
      assert [a] + [b] == [a, b] && [s1.1] + [s2.1] == [s1.1, s2.1];
    }
    RunSnoc(config, [a, b], c);
    var s3 := Step(config, s2.0, c);
    assert [a, b] + [c] == [a, b, c] && [s1.1, s2.1] + [s3.1] == [s1.1, s2.1, s3.1];
  }

  lemma FiveSteps(config: CacheConfig, a: Label, b: Label, c: Label, d: Label, e: Label)
    ensures var (s3, history) := Run(config, [a, b, c]);
            var s4 := Step(config, s3, d);
            var s5 := Step(config, s4.0, e);
            && Run(config, [a, b, c, d]) == (s4.0, history + [s4.1])
            && Run(config, [a, b, c, d, e]) == (s5.0, history + [s4.1] + [s5.1])
  {
    assert [a, b, c] + [d] == [a, b, c, d] && [a, b, c, d] + [e] == [a, b, c, d, e];
    RunSnoc(config, [a, b, c], d);
    RunSnoc(config, [a, b, c, d], e);
  }

  ghost predicate StaysYoung(config: CacheConfig, life: int, age: int) {
    forall labels: seq<Label>, i: nat
      | (forall l | l in labels :: TTLWithin(config, l, life)) && i < |labels| && Run(config, labels).1[i].Hit? ::
      AgeAt(Run(config, labels).1, i) <= age
  }

  /** How old the entry of the hit at `i` is when it is checked. */
  function AgeAt(history: seq<Event>, i: nat): int
    requires i < |history| && history[i].Hit?
  {
    history[i].checkedAt - history[i].entry.createdAt
  }

  /** A promised age is kept by every interleaving if and only if it covers the largest TTL in use. */
  lemma AgeExactly(config: CacheConfig, ttl: int, life: int, age: int)
    requires life == EffectiveTTL(config, ttl)
    ensures StaysYoung(config, life, age) <==> life <= age
  {
    if life <= age {
      forall labels: seq<Label>, i: nat
        | (forall l | l in labels :: TTLWithin(config, l, life)) && i < |labels| && Run(config, labels).1[i].Hit?
        ensures AgeAt(Run(config, labels).1, i) <= age
      {
        HitsAreYoung(config, labels, life, i);
      }
    }
    if StaysYoung(config, life, age) {
      var labels := OldestHit(config, ttl, life);
      assert AgeAt(Run(config, labels).1, 4) <= age;
    }
  }

  lemma BuildThenStore(config: CacheConfig, value: Value, ttl: int)
    ensures var entry := NewEntry(config, value, ttl, 0);
            var s1 := Step(config, EMPTY, Build(0, "k", value, ttl, 0)).0;
            Step(config, s1, Store(0, {})).0 == EMPTY.(data := map["k" := entry])
  {
    var entry := NewEntry(config, value, ttl, 0);
    var s1 := Step(config, EMPTY, Build(0, "k", value, ttl, 0)).0;
    assert s1.calls - {0} == map[] && s1.data == map[];
    assert Put(s1.data, {}, "k", entry) == map["k" := entry];
  }

  /** A value read in the last moment of its life. */
  lemma OldestHit(config: CacheConfig, ttl: int, life: int) returns (labels: seq<Label>)
    requires life == EffectiveTTL(config, ttl)
    ensures |labels| == 5 && (forall l | l in labels :: TTLWithin(config, l, life))
    ensures Run(config, labels).1[4].Hit? && AgeAt(Run(config, labels).1, 4) == life
  {
    var value := Number(0.0);
    var a, b, c, d, e := Build(0, "k", value, ttl, 0), Store(0, {}), Read(1, "k"), Check(1, life), Count(1);
    labels := [a, b, c, d, e];
    ThreeSteps(config, a, b, c);
    FiveSteps(config, a, b, c, d, e);
    var entry := Entry(value, life, 0);
    BuildThenStore(config, value, ttl);
    var s2 := Step(config, Step(config, EMPTY, a).0, b).0;
    var s3 := Step(config, s2, c).0;
    assert s3.calls == map[1 := Holding("k", entry)];
    var s4 := Step(config, s3, d).0;
    assert s4.calls[1] == Hitting("k", entry, life);
  }

  // ---------------------------------------------------------------- the gap between the two locks

  ghost predicate StoredAt(history: seq<Event>, m: nat, key: string, entry: Entry) {
    m < |history| && history[m].Stored? && key in history[m].entries && history[m].entries[key] == entry
  }

  /** A reliable map that holds another entry than it did at `j` was given it since. */
  lemma {:induction false} StoredSince(history: seq<Event>, j: nat, key: string, entry: Entry) returns (m: nat)
    requires j <= |history| && Latest(history, key) == Some(entry) && Latest(history[..j], key) != Some(entry)
    ensures j <= m && StoredAt(history, m, key, entry)
    decreases history
  {
    assert history[..|history|] == history;
    m := |history| - 1;
    if !StoredAt(history, m, key, entry) {
      var before := history[..m];
      assert before[..j] == history[..j];
      m := StoredSince(before, j, key, entry);
    }
  }

  /** What a reader of an expired entry is about to delete, in every reachable state: the very entry it
      read, or one that was stored after its read step. */
  lemma DropsWhatItReadOrNewer(config: CacheConfig, labels: seq<Label>, c: nat) returns (j: nat)
    requires c in Run(config, labels).0.calls && Run(config, labels).0.calls[c].Dropping?
    ensures var (s, history) := Run(config, labels);
            var p := s.calls[c];
            && p.entry.IsExpired(p.checkedAt) && ReadAt(history, |history|, j, c, p.key, p.entry)
            && (p.key in s.data && s.data[p.key] != p.entry ==>
                  exists m :: j < m && StoredAt(history, m, p.key, s.data[p.key]))
  {
    RunExplained(config, labels);
    var (s, history) := Run(config, labels);
    var p := s.calls[c];
    assert PhaseExplained(history, c, p);
    j :| ReadAt(history, |history|, j, c, p.key, p.entry);
    if p.key in s.data && s.data[p.key] != p.entry {
      var m := StoredSince(history, j, p.key, s.data[p.key]);
      assert history[j].ReadBy?;
    }
  }

  /** Some entry stored after the read step of call `c` is held, unexpired at `t`. */
  ghost predicate HoldsNewer(s: Cache, history: seq<Event>, c: nat, t: int)
    requires c in s.calls && s.calls[c].Dropping?
  {
    var p := s.calls[c];
    Present(s.data, p.key, t) && exists j: nat, m: nat ::
      ReadAt(history, |history|, j, c, p.key, p.entry) && j < m && StoredAt(history, m, p.key, s.data[p.key])
  }

  /** Exactly when the gap between the two locks costs an entry: a read at some later moment answers
      differently because of the delete if and only if the store holds, unexpired at that moment, an
      entry stored since the reader's first step. */
  lemma DropNoticedExactly(config: CacheConfig, labels: seq<Label>, c: nat, t: int)
    requires c in Run(config, labels).0.calls && Run(config, labels).0.calls[c].Dropping?
    requires Run(config, labels).0.calls[c].checkedAt <= t
    ensures var (s, history) := Run(config, labels);
            (exists k :: LookupEntry(Step(config, s, Drop(c)).0.data, k, t) != LookupEntry(s.data, k, t))
            <==> HoldsNewer(s, history, c, t)
  {
    var (s, history) := Run(config, labels);
    var p, after := s.calls[c], Step(config, s, Drop(c)).0.data;
    var j := DropsWhatItReadOrNewer(config, labels, c);
    forall k
      ensures LookupEntry(after, k, t) == if k == p.key then None else LookupEntry(s.data, k, t)
    {
    }
    if Present(s.data, p.key, t) {
      assert s.data[p.key] != p.entry;
      assert LookupEntry(after, p.key, t) != LookupEntry(s.data, p.key, t);
    }
  }

  lemma ExpiredRead(config: CacheConfig, expired: Entry)
    requires 1 < config.maxSize && expired.expiresAt == 0
    ensures var s1 := Step(config, EMPTY, StoreEntry("k", expired, {})).0;
            var s2 := Step(config, s1, Read(0, "k")).0;
            Step(config, s2, Check(0, 1)).0 == Cache(map["k" := expired], 0, 0, map[0 := Dropping("k", expired, 1)])
  {
    var s1 := Step(config, EMPTY, StoreEntry("k", expired, {})).0;
    assert s1 == EMPTY.(data := map["k" := expired]) by {
      assert Put(map[], {}, "k", expired) == map["k" := expired];
    }
  }

  lemma StoreThenDrop(config: CacheConfig, s: Cache, expired: Entry, renewed: Entry)
    requires 1 < config.maxSize && s == Cache(map["k" := expired], 0, 0, map[0 := Dropping("k", expired, 1)])
    ensures var (e, event) := Step(config, s, StoreEntry("k", renewed, {}));
            && e.data == map["k" := renewed] && event == Stored(map["k" := renewed])
            && Step(config, e, Drop(0)).0.data == map[] && Step(config, e, Drop(0)).1 == Internal
  {
    assert Put(s.data, {}, "k", renewed) == map["k" := renewed];
    assert map["k" := renewed] - {"k"} == map[];
  }

  /** The gap is real: a run in which a reader that found an expired entry deletes the fresh entry stored
      meanwhile, so the next reader misses a value that nobody deleted, evicted or let expire. */
  lemma ReaderDropsANewerEntry(config: CacheConfig, expired: Entry, renewed: Entry)
    requires 1 < config.maxSize && expired.expiresAt == 0 && renewed.expiresAt == 100
    ensures var labels := [StoreEntry("k", expired, {}), Read(0, "k"), Check(0, 1), StoreEntry("k", renewed, {})];
            var s := Run(config, labels).0;
            var e := Run(config, labels + [Drop(0)]).0;
            && LookupEntry(s.data, "k", 1) == Some(renewed) && "k" !in e.data
            && Latest(Run(config, labels + [Drop(0)]).1, "k") == Some(renewed)
  {
    var a, b, c, d, e := StoreEntry("k", expired, {}), Read(0, "k"), Check(0, 1), StoreEntry("k", renewed, {}), Drop(0);
    ThreeSteps(config, a, b, c);
    FiveSteps(config, a, b, c, d, e);
    assert [a, b, c, d] + [e] == [a, b, c, d, e];
    ExpiredRead(config, expired);
    var (s3, history) := Run(config, [a, b, c]);
    StoreThenDrop(config, s3, expired, renewed);
    var (s4, stored) := Step(config, s3, d);
    LatestAfter(history, stored, "k");
    LatestAfter(history + [stored], Internal, "k");
  }
}
