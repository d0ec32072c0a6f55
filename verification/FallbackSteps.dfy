/** The layered cache of internal/cache/fallback.go used by any number of goroutines at once. An
    operation reaches the primary and the fallback in two steps, and between them other operations
    run. Each label is one access to one layer, and every step leaves an event in the history. */
module FallbackSteps {
  import opened Prelude
  import opened MemoryCaches
  import opened FallbackCaches

  /** What a write does to a layer. */
  datatype Change =
    | PutOne(key: string, value: Value, ttl: int)
    | PutMany(items: map<string, Value>, ttl: int)
    | PutEntry(key: string, entry: Entry)
    | Remove(key: string)
    | RemoveAll

  predicate Touches(change: Change, key: string) {
    match change
    case PutOne(k, _, _) => k == key
    case PutMany(items, _) => key in items
    case PutEntry(k, _) => k == key
    case Remove(k) => k == key
    case RemoveAll => true
  }

  /** What it leaves a reliable map with under `key`. */
  function Left(change: Change, key: string): Option<Value>
    requires Touches(change, key)
  {
    match change
    case PutOne(_, v, _) => Some(v)
    case PutMany(items, _) => Some(items[key])
    case PutEntry(_, e) => Some(e.value)
    case _ => None
  }

  function OnPrimary(config: LayerConfig, data: Data, change: Change, at: int): Data {
    match change
    case PutOne(key, value, ttl) => data[key := NewEntry(config.primary, value, ttl, at)]
    case PutMany(items, ttl) => PutAll(data, {}, items, ttl, at)
    case PutEntry(key, entry) => data[key := entry]
    case Remove(key) => data - {key}
    case RemoveAll => map[]
  }

  function OnFallback(config: LayerConfig, data: Data, change: Change, victims: set<string>, later: int): Data {
    match change
    case PutOne(key, value, _) => Put(data, victims, key, NewEntry(config.Fallback(), value, config.fallbackTTL, later))
    case PutMany(items, _) => PutAll(data, victims, items, config.fallbackTTL, later)
    case PutEntry(key, entry) => Put(data, victims, key, entry)
    case Remove(key) => data - {key}
    case RemoveAll => map[]
  }

  /** The victims are ones the fallback's eviction may pick for this change. */
  predicate Room(config: LayerConfig, data: Data, change: Change, victims: set<string>) {
    match change
    case PutMany(items, _) => MakesRoom(data, items != map[] && |data| + |items| >= config.primary.maxSize, victims)
    case Remove(_) => victims == {}
    case RemoveAll => victims == {}
    case _ => MakesRoom(data, |data| >= config.primary.maxSize, victims)
  }

  /** Where an operation stands between its layers; `began` is the number of its step on the primary. */
  datatype Pending =
    | Copying(key: string, entry: Entry, whole: bool, at: int, began: nat) // read from the primary, to be copied
    | Asking(key: string)                                                  // not found in the primary
    | AskingMany(keys: seq<string>)
    | Writing(change: Change, at: int, began: nat)                         // primary written, fallback to follow

  datatype System = System(layers: Layers, calls: map<nat, Pending>, steps: nat)

  datatype Label =
    | Read(call: nat, key: string, whole: bool, at: int, read: ReadFault)
    | CopyBack(call: nat, later: int, victims: set<string>)
    | Ask(call: nat, later: int)
    | ReadMany(call: nat, keys: seq<string>, at: int, read: ReadFault)
    | AskMany(call: nat, later: int)
    | Write(call: nat, change: Change, at: int, write: WriteFault)
    | Finish(call: nat, later: int, victims: set<string>)
    | SweepPrimary(at: int)
    | SweepFallback(later: int)
    | Lose(lost: set<string>)

  datatype Event =
    | Internal
    | Served(values: map<string, Value>, at: int) // values an operation will return
    | Wrote(change: Change, at: int)              // a write reached the primary
    | Landed(change: Change, began: nat)          // a write or a copy reached the fallback

  const EMPTY := System(Layers(map[], map[]), map[], 0)

  /** The entry a copy puts into the fallback: `Get` makes a new one, `GetWithMetadata` keeps it whole. */
  function Copy(config: LayerConfig, p: Pending, later: int): Entry
    requires p.Copying?
  {
    if p.whole then p.entry else NewEntry(config.Fallback(), p.entry.value, config.fallbackTTL, later)
  }

  /** The layers, the operations under way and the event after a label; one that does not fit does nothing. */
  function Act(config: LayerConfig, s: System, l: Label): (Layers, map<nat, Pending>, Event) {
    var f := s.layers.fallback;
    var idle := (s.layers, s.calls, Internal);
    match l
    case Read(c, key, whole, at, read) =>
      if c in s.calls then idle
      else
        var layers := s.layers.(primary := PrimaryAfterRead(s.layers.primary, key, at, read));
        (match PrimaryLookup(s.layers.primary, key, at, read)
         case Some(e) => (layers, s.calls[c := Copying(key, e, whole, at, s.steps)], Served(map[key := e.value], at))
         case None => (layers, s.calls[c := Asking(key)], Internal))
    case CopyBack(c, later, victims) =>
      if c !in s.calls || !s.calls[c].Copying? || !MakesRoom(f, |f| >= config.primary.maxSize, victims) then idle
      else
        var p := s.calls[c];
        var e := Copy(config, p, later);
        (s.layers.(fallback := Put(f, victims, p.key, e)), s.calls - {c}, Landed(PutEntry(p.key, e), p.began))
    case Ask(c, later) =>
      if c !in s.calls || !s.calls[c].Asking? then idle
      else
        var key := s.calls[c].key;
        (s.layers.(fallback := AfterRead(f, key, later)), s.calls - {c},
         match Lookup(f, key, later)
         case Some(v) => Served(map[key := v], later)
         case None => Internal)
    case ReadMany(c, keys, at, read) =>
      if c in s.calls then idle
      else
        var found := PrimaryAll(s.layers.primary, keys, at, read);
        (s.layers, s.calls[c := AskingMany(Missing(keys, found))], Served(found, at))
    case AskMany(c, later) =>
      if c !in s.calls || !s.calls[c].AskingMany? then idle
      else (s.layers, s.calls - {c}, Served(LookupAll(f, s.calls[c].keys, later), later))
    case Write(c, change, at, write) =>
      if c in s.calls then idle
      else
        (s.layers.(primary := Written(s.layers.primary, OnPrimary(config, s.layers.primary, change, at), write)),
         s.calls[c := Writing(change, at, s.steps)], Wrote(change, at))
    case Finish(c, later, victims) =>
      if c !in s.calls || !s.calls[c].Writing? || !Room(config, f, s.calls[c].change, victims) then idle
      else
        var p := s.calls[c];
        (s.layers.(fallback := OnFallback(config, f, p.change, victims, later)), s.calls - {c}, Landed(p.change, p.began))
    case SweepPrimary(at) => (s.layers.(primary := Live(s.layers.primary, at)), s.calls, Internal)
    case SweepFallback(later) => (s.layers.(fallback := Live(f, later)), s.calls, Internal)
    case Lose(lost) => (s.layers.(primary := s.layers.primary - lost), s.calls, Internal)
  }

  function Step(config: LayerConfig, s: System, l: Label): (System, Event) {
    var (layers, calls, event) := Act(config, s, l);
    (System(layers, calls, s.steps + 1), event)
  }

  function RunFrom(config: LayerConfig, start: System, labels: seq<Label>): (r: (System, seq<Event>))
    ensures |r.1| == |labels| && r.0.steps == start.steps + |labels|
    decreases labels
  {
    if labels == [] then (start, [])
    else
      var (s, history) := RunFrom(config, start, labels[..|labels| - 1]);
      var (e, event) := Step(config, s, labels[|labels| - 1]);
      (e, history + [event])
  }

  /** A run on empty layers. */
  function Run(config: LayerConfig, labels: seq<Label>): (r: (System, seq<Event>))
    ensures |r.1| == |labels| == r.0.steps
  {
    RunFrom(config, EMPTY, labels)
  }

  lemma RunSnoc(config: LayerConfig, start: System, labels: seq<Label>, l: Label)
    ensures var (s, history) := RunFrom(config, start, labels);
            var (e, event) := Step(config, s, l);
            RunFrom(config, start, labels + [l]) == (e, history + [event])
  {
    assert (labels + [l])[..|labels|] == labels;
  }

  lemma Append<T>(x: seq<T>, y: seq<T>, z: T)
    ensures (x + y) + [z] == x + (y + [z])
  {
  }

  lemma ConcatOneMore(config: LayerConfig, start: System, x: seq<Label>, z: seq<Label>, l: Label,
                      s: System, past: seq<Event>, m: System, next: seq<Event>)
    requires RunFrom(config, s, z) == (m, next) && RunFrom(config, start, x + z) == (m, past + next)
    ensures var (e, event) := Step(config, m, l);
            && RunFrom(config, s, z + [l]) == (e, next + [event])
            && RunFrom(config, start, x + (z + [l])) == (e, past + (next + [event]))
  {
    RunSnoc(config, s, z, l);
    Append(x, z, l);
    RunSnoc(config, start, x + z, l);
    Append(past, next, Step(config, m, l).1);
  }

  lemma ConcatNothing<T>(x: seq<T>)
    ensures x + [] == x
  {
  }

  lemma {:induction false} RunConcat(config: LayerConfig, start: System, x: seq<Label>, y: seq<Label>)
    ensures var (s, past) := RunFrom(config, start, x);
            var (e, next) := RunFrom(config, s, y);
            RunFrom(config, start, x + y) == (e, past + next)
    decreases y
  {
    var (s, past) := RunFrom(config, start, x);
    if y == [] {
      ConcatNothing(x);
      ConcatNothing(past);
    } else {
      var z, l := y[..|y| - 1], y[|y| - 1];
      RunConcat(config, start, x, z);
      var (m, next) := RunFrom(config, s, z);
      ConcatOneMore(config, start, x, z, l, s, past, m, next);
      SplitLast(y);
    }
  }

  // ---------------------------------------------------------------- operations nobody interferes with

  lemma ReadHits(config: LayerConfig, s: System, c: nat, key: string, whole: bool, at: int, later: int,
                 read: ReadFault, victims: set<string>)
    requires c !in s.calls && PrimaryLookup(s.layers.primary, key, at, read).Some?
    requires MakesRoom(s.layers.fallback, |s.layers.fallback| >= config.primary.maxSize, victims)
    ensures var s1 := Step(config, s, Read(c, key, whole, at, read)).0;
            var s2 := Step(config, s1, CopyBack(c, later, victims)).0;
            var entry := s.layers.primary[key];
            var copy := if whole then entry else NewEntry(config.Fallback(), entry.value, config.fallbackTTL, later);
            && s2.layers == Layers(s.layers.primary, Put(s.layers.fallback, victims, key, copy))
            && s2.calls == s.calls && Step(config, s2, Ask(c, later)).0 == s2.(steps := s2.steps + 1)
  {
    var s1 := Step(config, s, Read(c, key, whole, at, read)).0;
    assert s1.calls - {c} == s.calls;
  }

  lemma ReadMisses(config: LayerConfig, s: System, c: nat, key: string, whole: bool, at: int, later: int,
                   read: ReadFault, victims: set<string>)
    requires c !in s.calls && PrimaryLookup(s.layers.primary, key, at, read).None?
    ensures var s1 := Step(config, s, Read(c, key, whole, at, read)).0;
            var s2 := Step(config, s1, CopyBack(c, later, victims)).0;
            var s3 := Step(config, s2, Ask(c, later)).0;
            && s3.layers == Layers(PrimaryAfterRead(s.layers.primary, key, at, read), AfterRead(s.layers.fallback, key, later))
            && s3.calls == s.calls
  {
    var s1 := Step(config, s, Read(c, key, whole, at, read)).0;
    assert s1.calls - {c} == s.calls;
  }

  /** A read that nothing interferes with leaves the layers as the sequential operation does. */
  lemma UndisturbedRead(config: LayerConfig, s: System, c: nat, key: string, whole: bool, at: int, later: int,
                        read: ReadFault, victims: set<string>)
    requires c !in s.calls
    requires PrimaryLookup(s.layers.primary, key, at, read).Some? ==>
               MakesRoom(s.layers.fallback, |s.layers.fallback| >= config.primary.maxSize, victims)
    ensures var s1 := Step(config, s, Read(c, key, whole, at, read)).0;
            var s2 := Step(config, s1, CopyBack(c, later, victims)).0;
            var s3 := Step(config, s2, Ask(c, later)).0;
            var op := if whole then Op.GetWithMetadata(key, at, later, read, victims)
                      else Op.Get(key, at, later, read, victims);
            s3.layers == FallbackCaches.Step(config, s.layers, op).0 && s3.calls == s.calls
  {
    if PrimaryLookup(s.layers.primary, key, at, read).Some? {
      ReadHits(config, s, c, key, whole, at, later, read, victims);
    } else {
      ReadMisses(config, s, c, key, whole, at, later, read, victims);
    }
  }

  /** What an event lets its operation return. */
  function Shown(event: Event): map<string, Value> {
    if event.Served? then event.values else map[]
  }

  /** Such a read returns what the sequential operation answers: what one of its steps serves, if any does. */
  lemma UndisturbedAnswer(config: LayerConfig, s: System, c: nat, key: string, at: int, later: int, read: ReadFault,
                          victims: set<string>)
    requires c !in s.calls
    ensures var (s1, first) := Step(config, s, Read(c, key, false, at, read));
            var second := Step(config, s1, Ask(c, later)).1;
            FallbackCaches.Step(config, s.layers, Op.Get(key, at, later, read, victims)).1
            == One(if key in Shown(first) then Some(Shown(first)[key])
                   else if key in Shown(second) then Some(Shown(second)[key]) else None)
  {
  }

  /** So does a batch read, and it changes nothing. */
  lemma UndisturbedBatchRead(config: LayerConfig, s: System, c: nat, keys: seq<string>, at: int, later: int, read: ReadFault)
    requires c !in s.calls
    ensures var (s1, first) := Step(config, s, ReadMany(c, keys, at, read));
            var (s2, second) := Step(config, s1, AskMany(c, later));
            && s2 == s.(steps := s.steps + 2)
            && FallbackCaches.Step(config, s.layers, Op.GetMultiple(keys, at, later, read))
               == (s2.layers, Many(Shown(first) + Shown(second)))
  {
    GetMultipleStep(config, s.layers, keys, at, later, read);
    AddThenDrop(s.calls, c, AskingMany(Missing(keys, PrimaryAll(s.layers.primary, keys, at, read))));
  }

  /** The two steps of a sweep are the sequential one. */
  lemma UndisturbedSweep(config: LayerConfig, s: System, at: int, later: int)
    ensures var e := Step(config, Step(config, s, SweepPrimary(at)).0, SweepFallback(later)).0;
            e.calls == s.calls
            && e.layers == FallbackCaches.Step(config, s.layers, Op.EvictExpired(at, later, ReadFault.Serves({}))).0
  {
  }

  /** The write the sequential operation makes of a change. */
  function WriteOp(change: Change, at: int, later: int, write: WriteFault, victims: set<string>): Op {
    match change
    case PutOne(key, value, ttl) => Op.Set(key, value, ttl, at, later, write, victims)
    case PutMany(items, ttl) => Op.SetMultiple(items, ttl, at, later, write, victims)
    case PutEntry(key, entry) => Op.SetWithMetadata(key, entry, write, victims)
    case Remove(key) => Op.Delete(key, write)
    case RemoveAll => Op.Clear(write)
  }

  lemma WriteAlone(config: LayerConfig, s: System, c: nat, change: Change, at: int, write: WriteFault)
    requires c !in s.calls
    ensures var after := Written(s.layers.primary, OnPrimary(config, s.layers.primary, change, at), write);
            Step(config, s, Write(c, change, at, write)).0
            == System(Layers(after, s.layers.fallback), s.calls[c := Writing(change, at, s.steps)], s.steps + 1)
  {
  }

  lemma FinishAlone(config: LayerConfig, s: System, c: nat, later: int, victims: set<string>)
    requires c in s.calls && s.calls[c].Writing? && Room(config, s.layers.fallback, s.calls[c].change, victims)
    ensures var after := OnFallback(config, s.layers.fallback, s.calls[c].change, victims, later);
            Step(config, s, Finish(c, later, victims)).0
            == System(Layers(s.layers.primary, after), s.calls - {c}, s.steps + 1)
  {
  }

  lemma SequentialWrite(config: LayerConfig, layers: Layers, change: Change, at: int, later: int,
                        write: WriteFault, victims: set<string>)
    ensures FallbackCaches.Step(config, layers, WriteOp(change, at, later, write, victims)).0
         == Layers(Written(layers.primary, OnPrimary(config, layers.primary, change, at), write),
                   OnFallback(config, layers.fallback, change, victims, later))
  {
    match change {
      case PutOne(_, _, _) =>
      case PutMany(items, ttl) =>
        SetMultipleStep(config, layers.primary, layers.fallback, items, ttl, at, later, write, victims);
      case PutEntry(_, _) =>
      case Remove(_) =>
      case RemoveAll =>
    }
  }

  lemma AddThenDrop(calls: map<nat, Pending>, c: nat, p: Pending)
    requires c !in calls
    ensures calls[c := p] - {c} == calls
  {
  }

  lemma WriteThenFinish(config: LayerConfig, s: System, c: nat, change: Change, at: int, later: int,
                        write: WriteFault, victims: set<string>)
    requires c !in s.calls && Room(config, s.layers.fallback, change, victims)
    ensures var s1 := Step(config, s, Write(c, change, at, write)).0;
            Step(config, s1, Finish(c, later, victims)).0
            == System(Layers(Written(s.layers.primary, OnPrimary(config, s.layers.primary, change, at), write),
                             OnFallback(config, s.layers.fallback, change, victims, later)),
                      s.calls, s.steps + 2)
  {
    WriteAlone(config, s, c, change, at, write);
    var s1 := Step(config, s, Write(c, change, at, write)).0;
    FinishAlone(config, s1, c, later, victims);
    AddThenDrop(s.calls, c, Writing(change, at, s.steps));
  }

  /** So does a write. */
  lemma UndisturbedWrite(config: LayerConfig, s: System, c: nat, change: Change, at: int, later: int,
                         write: WriteFault, victims: set<string>)
    requires c !in s.calls && Room(config, s.layers.fallback, change, victims)
    ensures var s1 := Step(config, s, Write(c, change, at, write)).0;
            var s2 := Step(config, s1, Finish(c, later, victims)).0;
            s2.layers == FallbackCaches.Step(config, s.layers, WriteOp(change, at, later, write, victims)).0
            && s2.calls == s.calls
  {
    WriteThenFinish(config, s, c, change, at, later, write, victims);
    SequentialWrite(config, s.layers, change, at, later, write, victims);
  }

  // ---------------------------------------------------------------- where entries come from

  /** The reference: what a single reliable map holds for `key` if it is written whenever the primary is. */
  function Reference(history: seq<Event>, key: string): Option<Value>
    decreases history
  {
    if history == [] then None
    else
      var event := history[|history| - 1];
      if event.Wrote? && Touches(event.change, key) then Left(event.change, key)
      else Reference(history[..|history| - 1], key)
  }

  predicate Lands(event: Event, key: string) {
    event.Landed? && Touches(event.change, key)
  }

  lemma ReferenceSnoc(history: seq<Event>, event: Event, key: string)
    ensures Reference(history + [event], key)
         == if event.Wrote? && Touches(event.change, key) then Left(event.change, key) else Reference(history, key)
  {
    assert (history + [event])[..|history|] == history;
  }

  /** An entry of the fallback after a step was brought in by that step or was there before. */
  lemma FallbackOrigin(config: LayerConfig, s: System, l: Label, key: string)
    requires key in Step(config, s, l).0.layers.fallback
    ensures var (e, event) := Step(config, s, l);
            if Lands(event, key) then Left(event.change, key) == Some(e.layers.fallback[key].value)
            else key in s.layers.fallback && e.layers.fallback[key] == s.layers.fallback[key]
  {
    match l {
      case Finish(c, later, victims) => FinishOrigin(config, s, c, later, victims, key);
      case CopyBack(_, _, _) =>
      case Ask(_, _) =>
      case SweepFallback(_) =>
      case _ =>
    }
  }

  lemma FinishOrigin(config: LayerConfig, s: System, c: nat, later: int, victims: set<string>, key: string)
    requires key in Step(config, s, Finish(c, later, victims)).0.layers.fallback
    ensures var (e, event) := Step(config, s, Finish(c, later, victims));
            if Lands(event, key) then Left(event.change, key) == Some(e.layers.fallback[key].value)
            else key in s.layers.fallback && e.layers.fallback[key] == s.layers.fallback[key]
  {
    if c in s.calls && s.calls[c].Writing? {
      match s.calls[c].change {
        case PutOne(_, _, _) =>
        case PutMany(_, _) =>
        case _ =>
      }
    }
  }

  lemma WrittenElsewhere(config: LayerConfig, data: Data, change: Change, at: int, write: WriteFault, key: string)
    requires key in Written(data, OnPrimary(config, data, change, at), write)
    ensures !Touches(change, key) ==>
              key in data && Written(data, OnPrimary(config, data, change, at), write)[key] == data[key]
    ensures Touches(change, key) && write.Done? ==>
              Left(change, key) == Some(Written(data, OnPrimary(config, data, change, at), write)[key].value)
  {
  }

  predicate WriteOf(l: Label, key: string) {
    l.Write? && Touches(l.change, key)
  }

  /** An entry of the primary after a step was written by that step or was there before. */
  lemma PrimaryOrigin(config: LayerConfig, s: System, l: Label, key: string)
    requires key in Step(config, s, l).0.layers.primary && (WriteOf(l, key) ==> l.write.Done?)
    ensures var (e, event) := Step(config, s, l);
            if event.Wrote? && Touches(event.change, key) then Left(event.change, key) == Some(e.layers.primary[key].value)
            else key in s.layers.primary && e.layers.primary[key] == s.layers.primary[key]
  {
    match l {
      case Write(_, change, at, write) =>
        if l.call !in s.calls {
          WrittenElsewhere(config, s.layers.primary, change, at, write, key);
        }
      case Read(_, _, _, _, _) =>
      case SweepPrimary(_) =>
      case _ =>
    }
  }

  /** What is under way after a step was under way before or begins with it. */
  lemma CallOrigin(config: LayerConfig, s: System, l: Label, c: nat)
    requires c in Step(config, s, l).0.calls
    requires !(c in s.calls && Step(config, s, l).0.calls[c] == s.calls[c])
    ensures var (e, event) := Step(config, s, l);
            match e.calls[c]
            case Copying(key, entry, _, at, began) =>
              Present(s.layers.primary, key, at) && entry == s.layers.primary[key] && began == s.steps && !event.Wrote?
            case Writing(change, at, began) => event == Wrote(change, at) && began == s.steps
            case _ => true
  {
    match l {
      case Read(_, _, _, _, _) =>
      case ReadMany(_, _, _, _) =>
      case Write(_, _, _, _) =>
      case _ =>
    }
  }

  // ---------------------------------------------------------------- what every state keeps

  /** What is under way carries what the reference held when it began. */
  predicate CallFollows(history: seq<Event>, p: Pending, key: string) {
    match p
    case Copying(k, e, _, _, began) =>
      k == key ==> began < |history| && Reference(history[..began + 1], key) == Some(e.value)
    case Writing(change, _, began) =>
      Touches(change, key) ==> began < |history| && history[began].Wrote? && history[began].change == change
    case _ => true
  }

  /** The last write or copy of the key that reached the fallback did so at `m`. */
  ghost predicate LastLanding(history: seq<Event>, m: nat, key: string) {
    && m < |history| && Lands(history[m], key) && history[m].began < m
    && forall n | m < n < |history| :: !Lands(history[n], key)
  }

  /** What the reference held when the operation that landed at `m` was at the primary. */
  function HeldAtStart(history: seq<Event>, m: nat, key: string): Option<Value>
    requires m < |history| && history[m].Landed? && history[m].began < m
  {
    Reference(history[..history[m].began + 1], key)
  }

  ghost predicate FallbackFollows(data: Data, history: seq<Event>, key: string) {
    key in data ==> exists m: nat :: LastLanding(history, m, key) && HeldAtStart(history, m, key) == Some(data[key].value)
  }

  ghost predicate Follows(s: System, history: seq<Event>, key: string) {
    && s.steps == |history|
    && (key in s.layers.primary ==> Reference(history, key) == Some(s.layers.primary[key].value))
    && (forall c | c in s.calls :: CallFollows(history, s.calls[c], key))
    && FallbackFollows(s.layers.fallback, history, key)
  }

  lemma CallStillFollows(history: seq<Event>, event: Event, p: Pending, key: string)
    requires CallFollows(history, p, key)
    ensures CallFollows(history + [event], p, key)
  {
    if p.Copying? && p.key == key {
      assert (history + [event])[..p.began + 1] == history[..p.began + 1];
    }
  }

  lemma FallbackStillFollows(data: Data, history: seq<Event>, event: Event, key: string)
    requires FallbackFollows(data, history, key) && !Lands(event, key)
    ensures FallbackFollows(data, history + [event], key)
  {
    if key in data {
      var m: nat :| LastLanding(history, m, key) && HeldAtStart(history, m, key) == Some(data[key].value);
      var longer := history + [event];
      assert longer[m] == history[m] && longer[..history[m].began + 1] == history[..history[m].began + 1];
      assert LastLanding(longer, m, key);
    }
  }

  lemma WriteHeld(history: seq<Event>, p: Pending, key: string)
    requires p.Writing? && CallFollows(history, p, key) && Touches(p.change, key)
    ensures p.began < |history| && Reference(history[..p.began + 1], key) == Left(p.change, key)
  {
    assert history[..p.began + 1] == history[..p.began] + [history[p.began]];
    ReferenceSnoc(history[..p.began], history[p.began], key);
  }

  /** The landing of the operation `p`. */
  predicate LandingOf(event: Event, p: Pending) {
    match p
    case Writing(change, _, began) => event == Landed(change, began)
    case Copying(key, entry, _, _, began) =>
      event.Landed? && event.began == began && event.change.PutEntry? && event.change.key == key
      && event.change.entry.value == entry.value
    case _ => false
  }

  /** Only an operation under way lands, and with what it carries. */
  lemma LandingOrigin(config: LayerConfig, s: System, l: Label) returns (c: nat)
    requires Step(config, s, l).1.Landed?
    ensures c in s.calls && LandingOf(Step(config, s, l).1, s.calls[c])
  {
    match l {
      case Finish(call, _, _) => c := call;
      case CopyBack(call, _, _) => c := call;
      case _ =>
    }
  }

  /** What lands carries what the reference held when it began. */
  lemma LandingFollows(history: seq<Event>, p: Pending, event: Event, key: string)
    requires CallFollows(history, p, key) && Lands(event, key) && LandingOf(event, p)
    ensures event.began < |history| && Reference(history[..event.began + 1], key) == Left(event.change, key)
  {
    if p.Writing? {
      WriteHeld(history, p, key);
    }
  }

  lemma CallStepFollows(config: LayerConfig, s: System, l: Label, history: seq<Event>, key: string, c: nat)
    requires Follows(s, history, key) && c in Step(config, s, l).0.calls
    ensures CallFollows(history + [Step(config, s, l).1], Step(config, s, l).0.calls[c], key)
  {
    var (e, event) := Step(config, s, l);
    if c in s.calls && e.calls[c] == s.calls[c] {
      CallStillFollows(history, event, e.calls[c], key);
    } else {
      CallOrigin(config, s, l, c);
      NewCallFollows(s, history, event, e.calls[c], key);
    }
  }

  lemma NewCallFollows(s: System, history: seq<Event>, event: Event, p: Pending, key: string)
    requires s.steps == |history|
    requires key in s.layers.primary ==> Reference(history, key) == Some(s.layers.primary[key].value)
    requires p.Copying? ==> p.key in s.layers.primary && p.entry == s.layers.primary[p.key] && p.began == s.steps && !event.Wrote?
    requires p.Writing? ==> event == Wrote(p.change, p.at) && p.began == s.steps
    ensures CallFollows(history + [event], p, key)
  {
    ReferenceSnoc(history, event, key);
    assert (history + [event])[..|history| + 1] == history + [event];
  }

  lemma CallsFollow(config: LayerConfig, s: System, l: Label, history: seq<Event>, key: string)
    requires Follows(s, history, key)
    ensures var (e, event) := Step(config, s, l);
            forall c | c in e.calls :: CallFollows(history + [event], e.calls[c], key)
  {
    forall c | c in Step(config, s, l).0.calls
      ensures CallFollows(history + [Step(config, s, l).1], Step(config, s, l).0.calls[c], key)
    {
      CallStepFollows(config, s, l, history, key, c);
    }
  }

  lemma PrimaryStillFollows(config: LayerConfig, s: System, l: Label, history: seq<Event>, key: string)
    requires Follows(s, history, key) && (WriteOf(l, key) ==> l.write.Done?)
    ensures var (e, event) := Step(config, s, l);
            key in e.layers.primary ==> Reference(history + [event], key) == Some(e.layers.primary[key].value)
  {
    if key in Step(config, s, l).0.layers.primary {
      PrimaryOrigin(config, s, l, key);
      ReferenceSnoc(history, Step(config, s, l).1, key);
    }
  }

  lemma LandedFollows(data: Data, history: seq<Event>, event: Event, key: string)
    requires Lands(event, key) && event.began < |history|
    requires Reference(history[..event.began + 1], key) == Left(event.change, key)
    requires key in data ==> Left(event.change, key) == Some(data[key].value)
    ensures FallbackFollows(data, history + [event], key)
  {
    var longer := history + [event];
    assert longer[..event.began + 1] == history[..event.began + 1];
    assert LastLanding(longer, |history|, key);
  }

  lemma FallbackStepFollows(config: LayerConfig, s: System, l: Label, history: seq<Event>, key: string)
    requires Follows(s, history, key)
    ensures FallbackFollows(Step(config, s, l).0.layers.fallback, history + [Step(config, s, l).1], key)
  {
    var (e, event) := Step(config, s, l);
    if key in e.layers.fallback {
      FallbackOrigin(config, s, l, key);
    }
    if Lands(event, key) {
      var c := LandingOrigin(config, s, l);
      LandingFollows(history, s.calls[c], event, key);
      LandedFollows(e.layers.fallback, history, event, key);
    } else if key in e.layers.fallback {
      FallbackStillFollows(s.layers.fallback, history, event, key);
    }
  }

  lemma StepFollows(config: LayerConfig, s: System, l: Label, history: seq<Event>, key: string)
    requires Follows(s, history, key) && (WriteOf(l, key) ==> l.write.Done?)
    ensures var (e, event) := Step(config, s, l);
            Follows(e, history + [event], key)
  {
    PrimaryStillFollows(config, s, l, history, key);
    CallsFollow(config, s, l, history, key);
    FallbackStepFollows(config, s, l, history, key);
  }

  /** In every reachable state, provided the writes of the key went through: the primary holds nothing but
      the last write, and what the fallback holds is what the reference held when the operation that put it
      there was at the primary. */
  lemma {:induction false} RunFollows(config: LayerConfig, labels: seq<Label>, key: string)
    requires forall l | l in labels && WriteOf(l, key) :: l.write.Done?
    ensures Follows(Run(config, labels).0, Run(config, labels).1, key)
    decreases labels
  {
    if labels != [] {
      var before, l := labels[..|labels| - 1], labels[|labels| - 1];
      RunFollows(config, before, key);
      SplitLast(labels);
      RunSnoc(config, EMPTY, before, l);
      StepFollows(config, Run(config, before).0, l, Run(config, before).1, key);
    }
  }

  // ---------------------------------------------------------------- coherence, exactly

  /** A step of a read or of upkeep that looks at the clock no earlier than `t`. */
  predicate ReadsFrom(l: Label, t: int) {
    match l
    case Read(_, _, _, at, _) => t <= at
    case CopyBack(_, later, _) => t <= later
    case Ask(_, later) => t <= later
    case ReadMany(_, _, at, _) => t <= at
    case AskMany(_, later) => t <= later
    case Write(_, _, _, _) => false
    case Finish(_, _, _) => false
    case _ => true
  }

  /** Whatever reads run from `t` on, in any interleaving and with any failures of the primary, until the
      next step of a write: `key` is served as `last` or not at all. */
  ghost predicate CoherentFrom(config: LayerConfig, s: System, key: string, last: Option<Value>, t: int) {
    forall more: seq<Label>, i: nat
      | (forall l | l in more :: ReadsFrom(l, t)) && i < |more| && Serves(RunFrom(config, s, more).1[i], key) ::
      last == Some(RunFrom(config, s, more).1[i].values[key])
  }

  predicate Serves(event: Event, key: string) {
    event.Served? && key in event.values
  }

  predicate AgreesAt(data: Data, key: string, last: Option<Value>, t: int) {
    Present(data, key, t) ==> last == Some(data[key].value)
  }

  /** The pending copy can still be read after `t`. */
  predicate CanShow(p: Pending, key: string, t: int) {
    p.Copying? && p.key == key && (p.whole ==> !p.entry.IsExpired(t))
  }

  predicate Sound(s: System, key: string, last: Option<Value>, t: int) {
    && AgreesAt(s.layers.primary, key, last, t) && AgreesAt(s.layers.fallback, key, last, t)
    && forall c | c in s.calls && CanShow(s.calls[c], key, t) :: last == Some(s.calls[c].entry.value)
  }

  lemma ReadSound(config: LayerConfig, s: System, key: string, last: Option<Value>, t: int,
                  c: nat, k: string, whole: bool, at: int, read: ReadFault)
    requires Sound(s, key, last, t) && t <= at
    ensures var (e, event) := Step(config, s, Read(c, k, whole, at, read));
            Sound(e, key, last, t) && (Serves(event, key) ==> last == Some(event.values[key]))
  {
  }

  lemma CopySound(config: LayerConfig, s: System, key: string, last: Option<Value>, t: int,
                  c: nat, later: int, victims: set<string>)
    requires Sound(s, key, last, t)
    ensures var (e, event) := Step(config, s, CopyBack(c, later, victims));
            Sound(e, key, last, t) && !Serves(event, key)
  {
  }

  lemma AskSound(config: LayerConfig, s: System, key: string, last: Option<Value>, t: int, c: nat, later: int)
    requires Sound(s, key, last, t) && t <= later
    ensures var (e, event) := Step(config, s, Ask(c, later));
            Sound(e, key, last, t) && (Serves(event, key) ==> last == Some(event.values[key]))
  {
  }

  lemma ReadManySound(config: LayerConfig, s: System, l: Label, key: string, last: Option<Value>, t: int)
    requires Sound(s, key, last, t) && ReadsFrom(l, t) && (l.ReadMany? || l.AskMany?)
    ensures var (e, event) := Step(config, s, l);
            Sound(e, key, last, t) && (Serves(event, key) ==> last == Some(event.values[key]))
  {
  }

  lemma UpkeepSound(config: LayerConfig, s: System, l: Label, key: string, last: Option<Value>, t: int)
    requires Sound(s, key, last, t) && (l.SweepPrimary? || l.SweepFallback? || l.Lose?)
    ensures var (e, event) := Step(config, s, l);
            Sound(e, key, last, t) && !Serves(event, key)
  {
  }

  lemma ReadKeepsSound(config: LayerConfig, s: System, l: Label, key: string, last: Option<Value>, t: int)
    requires Sound(s, key, last, t) && ReadsFrom(l, t)
    ensures var (e, event) := Step(config, s, l);
            Sound(e, key, last, t) && (Serves(event, key) ==> last == Some(event.values[key]))
  {
    match l {
      case Read(c, k, whole, at, read) => ReadSound(config, s, key, last, t, c, k, whole, at, read);
      case CopyBack(c, later, victims) => CopySound(config, s, key, last, t, c, later, victims);
      case Ask(c, later) => AskSound(config, s, key, last, t, c, later);
      case ReadMany(_, _, _, _) => ReadManySound(config, s, l, key, last, t);
      case AskMany(_, _) => ReadManySound(config, s, l, key, last, t);
      case _ => UpkeepSound(config, s, l, key, last, t);
    }
  }

  lemma {:induction false} ReadsKeepSound(config: LayerConfig, s: System, more: seq<Label>, key: string,
                                          last: Option<Value>, t: int)
    requires Sound(s, key, last, t) && forall l | l in more :: ReadsFrom(l, t)
    ensures var (e, history) := RunFrom(config, s, more);
            && Sound(e, key, last, t)
            && forall i: nat | i < |more| && Serves(history[i], key) :: last == Some(history[i].values[key])
    decreases more
  {
    if more != [] {
      var before, l := more[..|more| - 1], more[|more| - 1];
      ReadsKeepSound(config, s, before, key, last, t);
      ReadKeepsSound(config, RunFrom(config, s, before).0, l, key, last, t);
    }
  }

  lemma Shifted<T>(all: seq<T>, x: T, rest: seq<T>, i: nat)
    requires all == [x] + rest && i < |rest|
    ensures i + 1 < |all| && all[i + 1] == rest[i]
  {
  }

  lemma HistoryConcat(config: LayerConfig, s: System, l: Label, e: System, event: Event, more: seq<Label>)
    requires RunFrom(config, s, [l]) == (e, [event])
    ensures RunFrom(config, s, [l] + more).1 == [event] + RunFrom(config, e, more).1
  {
    RunConcat(config, s, [l], more);
  }

  lemma SuffixEvent(config: LayerConfig, s: System, l: Label, e: System, event: Event, more: seq<Label>, i: nat)
    requires RunFrom(config, s, [l]) == (e, [event]) && i < |more|
    ensures RunFrom(config, s, [l] + more).1[i + 1] == RunFrom(config, e, more).1[i]
  {
    HistoryConcat(config, s, l, e, event, more);
    Shifted(RunFrom(config, s, [l] + more).1, event, RunFrom(config, e, more).1, i);
  }

  lemma AllReadsFrom(l: Label, more: seq<Label>, t: int)
    requires ReadsFrom(l, t) && forall m | m in more :: ReadsFrom(m, t)
    ensures forall m | m in [l] + more :: ReadsFrom(m, t)
  {
  }

  lemma CoherentAt(config: LayerConfig, s: System, key: string, last: Option<Value>, t: int, all: seq<Label>, i: nat)
    requires CoherentFrom(config, s, key, last, t) && i < |all| && forall l | l in all :: ReadsFrom(l, t)
    ensures Serves(RunFrom(config, s, all).1[i], key) ==> last == Some(RunFrom(config, s, all).1[i].values[key])
  {
  }

  lemma CoherentSuffix(config: LayerConfig, s: System, l: Label, e: System, event: Event,
                       key: string, last: Option<Value>, t: int)
    requires CoherentFrom(config, s, key, last, t) && ReadsFrom(l, t) && RunFrom(config, s, [l]) == (e, [event])
    ensures CoherentFrom(config, e, key, last, t)
  {
    forall more: seq<Label>, i: nat
      | (forall m | m in more :: ReadsFrom(m, t)) && i < |more| && Serves(RunFrom(config, e, more).1[i], key)
      ensures last == Some(RunFrom(config, e, more).1[i].values[key])
    {
      AllReadsFrom(l, more, t);
      SuffixEvent(config, s, l, e, event, more, i);
      CoherentAt(config, s, key, last, t, [l] + more, i + 1);
    }
  }

  lemma CoherentFirst(config: LayerConfig, s: System, l: Label, e: System, event: Event,
                      key: string, last: Option<Value>, t: int)
    requires CoherentFrom(config, s, key, last, t) && ReadsFrom(l, t) && RunFrom(config, s, [l]) == (e, [event])
    ensures Serves(event, key) ==> last == Some(event.values[key])
  {
    assert RunFrom(config, s, [l]).1[0] == event;
  }

  /** Coherence survives a step of a read. */
  lemma CoherentAfter(config: LayerConfig, s: System, l: Label, key: string, last: Option<Value>, t: int)
    requires CoherentFrom(config, s, key, last, t) && ReadsFrom(l, t)
    ensures CoherentFrom(config, Step(config, s, l).0, key, last, t)
    ensures Serves(Step(config, s, l).1, key) ==> last == Some(Step(config, s, l).1.values[key])
  {
    OneStep(config, s, l);
    CoherentSuffix(config, s, l, Step(config, s, l).0, Step(config, s, l).1, key, last, t);
    CoherentFirst(config, s, l, Step(config, s, l).0, Step(config, s, l).1, key, last, t);
  }

  lemma OneStep(config: LayerConfig, s: System, l: Label)
    ensures RunFrom(config, s, [l]) == (Step(config, s, l).0, [Step(config, s, l).1])
  {
    RunSnoc(config, s, [], l);
    assert [] + [l] == [l] && [] + [Step(config, s, l).1] == [Step(config, s, l).1];
  }

  lemma NothingMissing(key: string, found: map<string, Value>)
    ensures Missing([key], found) == if key in found then [] else [key]
  {
    assert [key][..0] == [] && Missing([], found) == [];
  }

  lemma PrimaryShows(config: LayerConfig, s: System, key: string, last: Option<Value>, t: int)
    requires CoherentFrom(config, s, key, last, t)
    ensures AgreesAt(s.layers.primary, key, last, t)
  {
    if Present(s.layers.primary, key, t) {
      var c := UnusedNumber(s.calls.Keys);
      CoherentAfter(config, s, ReadMany(c, [key], t, ReadFault.Serves({})), key, last, t);
    }
  }

  /** A batch read that the primary refuses asks the fallback for every key. */
  lemma RefusedBatch(config: LayerConfig, s: System, c: nat, key: string, t: int)
    requires c !in s.calls
    ensures Step(config, s, ReadMany(c, [key], t, ReadFails)).0
         == System(s.layers, s.calls[c := AskingMany([key])], s.steps + 1)
  {
    NothingMissing(key, map[]);
  }

  lemma AnsweredBatch(config: LayerConfig, s: System, c: nat, key: string, t: int)
    requires c in s.calls && s.calls[c] == AskingMany([key])
    ensures Step(config, s, AskMany(c, t)).1 == Served(LookupAll(s.layers.fallback, [key], t), t)
  {
  }

  lemma FallbackShows(config: LayerConfig, s: System, key: string, last: Option<Value>, t: int)
    requires CoherentFrom(config, s, key, last, t)
    ensures AgreesAt(s.layers.fallback, key, last, t)
  {
    if Present(s.layers.fallback, key, t) {
      var c := UnusedNumber(s.calls.Keys);
      var l := ReadMany(c, [key], t, ReadFails);
      RefusedBatch(config, s, c, key, t);
      CoherentAfter(config, s, l, key, last, t);
      var e := Step(config, s, l).0;
      AnsweredBatch(config, e, c, key, t);
      CoherentAfter(config, e, AskMany(c, t), key, last, t);
    }
  }

  lemma CopyShows(config: LayerConfig, s: System, key: string, last: Option<Value>, t: int, c: nat)
    requires CoherentFrom(config, s, key, last, t) && 0 <= EffectiveTTL(config.Fallback(), config.fallbackTTL)
    requires c in s.calls && CanShow(s.calls[c], key, t)
    ensures last == Some(s.calls[c].entry.value)
  {
    var f := s.layers.fallback;
    var victims := RoomCanBeMade(f, |f| >= config.primary.maxSize);
    CoherentAfter(config, s, CopyBack(c, t, victims), key, last, t);
    FallbackShows(config, Step(config, s, CopyBack(c, t, victims)).0, key, last, t);
  }

  lemma SoundExactly(config: LayerConfig, s: System, key: string, last: Option<Value>, t: int)
    requires 0 <= EffectiveTTL(config.Fallback(), config.fallbackTTL)
    ensures CoherentFrom(config, s, key, last, t) <==> Sound(s, key, last, t)
  {
    if Sound(s, key, last, t) {
      SoundIsCoherent(config, s, key, last, t);
    }
    if CoherentFrom(config, s, key, last, t) {
      PrimaryShows(config, s, key, last, t);
      FallbackShows(config, s, key, last, t);
      forall c | c in s.calls && CanShow(s.calls[c], key, t)
        ensures last == Some(s.calls[c].entry.value)
      {
        CopyShows(config, s, key, last, t, c);
      }
    }
  }

  lemma SoundIsCoherent(config: LayerConfig, s: System, key: string, last: Option<Value>, t: int)
    requires Sound(s, key, last, t)
    ensures CoherentFrom(config, s, key, last, t)
  {
    forall more: seq<Label>, i: nat
      | (forall l | l in more :: ReadsFrom(l, t)) && i < |more| && Serves(RunFrom(config, s, more).1[i], key)
      ensures last == Some(RunFrom(config, s, more).1[i].values[key])
    {
      ReadsKeepSound(config, s, more, key, last, t);
    }
  }

  /** The operation that put the fallback's entry there began when the reference was what it is now. */
  ghost predicate FallbackIsCurrent(history: seq<Event>, key: string) {
    exists m: nat :: LastLanding(history, m, key) && HeldAtStart(history, m, key) == Reference(history, key)
  }

  /** So did every copy under way that can still be read. */
  predicate CopiesAreCurrent(s: System, history: seq<Event>, key: string, t: int)
  {
    forall c | c in s.calls && CanShow(s.calls[c], key, t) ::
      s.calls[c].began < |history| && Reference(history[..s.calls[c].began + 1], key) == Reference(history, key)
  }

  /** Coherence under every interleaving, exactly. Provided the writes of the key go through, all that is read
      from `t` on until the next step of a write is the value written last if and only if neither the entry
      the fallback holds, unexpired, nor a copy under way stems from an operation that was at the primary when
      the last written value was another one. */
  lemma InterleavedCoherenceExactly(config: LayerConfig, labels: seq<Label>, key: string, t: int)
    requires 0 <= EffectiveTTL(config.Fallback(), config.fallbackTTL)
    requires forall l | l in labels && WriteOf(l, key) :: l.write.Done?
    ensures Follows(Run(config, labels).0, Run(config, labels).1, key)
    ensures var (s, history) := Run(config, labels);
            CoherentFrom(config, s, key, Reference(history, key), t)
            <==> (Present(s.layers.fallback, key, t) ==> FallbackIsCurrent(history, key))
                 && CopiesAreCurrent(s, history, key, t)
  {
    RunFollows(config, labels, key);
    var (s, history) := Run(config, labels);
    SoundExactly(config, s, key, Reference(history, key), t);
    CurrentIsSound(s, history, key, t);
  }

  lemma OneLastLanding(history: seq<Event>, m: nat, n: nat, key: string)
    requires LastLanding(history, m, key) && LastLanding(history, n, key)
    ensures m == n
  {
  }

  lemma CurrentIsSound(s: System, history: seq<Event>, key: string, t: int)
    requires Follows(s, history, key)
    ensures Sound(s, key, Reference(history, key), t)
            <==> (Present(s.layers.fallback, key, t) ==> FallbackIsCurrent(history, key))
                 && CopiesAreCurrent(s, history, key, t)
  {
    if Present(s.layers.fallback, key, t) {
      var m: nat :| LastLanding(history, m, key) && HeldAtStart(history, m, key) == Some(s.layers.fallback[key].value);
      if FallbackIsCurrent(history, key) {
        var n: nat :| LastLanding(history, n, key) && HeldAtStart(history, n, key) == Reference(history, key);
        OneLastLanding(history, m, n, key);
      }
    }
    forall c | c in s.calls && CanShow(s.calls[c], key, t)
      ensures s.calls[c].began < |history|
      ensures Reference(history[..s.calls[c].began + 1], key) == Some(s.calls[c].entry.value)
    {
      assert CallFollows(history, s.calls[c], key);
    }
  }

  // ---------------------------------------------------------------- when nothing is overtaken

  /** No operation on the key is between its two layers. */
  predicate Quiet(s: System, key: string) {
    forall c | c in s.calls ::
      !(s.calls[c].Copying? && s.calls[c].key == key) && !(s.calls[c].Writing? && Touches(s.calls[c].change, key))
  }

  predicate WritesKey(event: Event, key: string) {
    event.Wrote? && Touches(event.change, key)
  }

  /** No write of the key reached the primary while an operation on it was between its layers. */
  predicate Undisturbed(history: seq<Event>, key: string) {
    forall m, w | 0 <= m < |history| && Lands(history[m], key) && history[m].began < w < m :: !WritesKey(history[w], key)
  }

  predicate InFlight(s: System, change: Change, w: nat) {
    exists c :: c in s.calls && s.calls[c].Writing? && s.calls[c].began == w && s.calls[c].change == change
  }

  ghost predicate LandedSince(history: seq<Event>, change: Change, w: nat) {
    exists f: nat :: w < f < |history| && history[f] == Landed(change, w)
  }

  /** Every write that reached the primary is under way or has reached the fallback. */
  ghost predicate Accounted(s: System, history: seq<Event>) {
    s.steps == |history|
    && forall w: nat | w < |history| && history[w].Wrote? ::
         InFlight(s, history[w].change, w) || LandedSince(history, history[w].change, w)
  }

  lemma FinishFate(config: LayerConfig, s: System, l: Label, c: nat)
    requires c in s.calls && s.calls[c].Writing? && l.Finish?
    ensures var (e, event) := Step(config, s, l);
            (c in e.calls && e.calls[c] == s.calls[c]) || event == Landed(s.calls[c].change, s.calls[c].began)
  {
  }

  /** A write under way stays so until it finishes. */
  lemma WriteFate(config: LayerConfig, s: System, l: Label, c: nat)
    requires c in s.calls && s.calls[c].Writing?
    ensures var (e, event) := Step(config, s, l);
            (c in e.calls && e.calls[c] == s.calls[c]) || event == Landed(s.calls[c].change, s.calls[c].began)
  {
    if l.Finish? {
      FinishFate(config, s, l, c);
    } else {
      OthersLeaveWrites(config, s, l, c);
    }
  }

  lemma OthersLeaveWrites(config: LayerConfig, s: System, l: Label, c: nat)
    requires c in s.calls && s.calls[c].Writing? && !l.Finish?
    ensures c in Step(config, s, l).0.calls && Step(config, s, l).0.calls[c] == s.calls[c]
  {
    match l {
      case Read(_, _, _, _, _) =>
      case CopyBack(_, _, _) =>
      case Ask(_, _) =>
      case ReadMany(_, _, _, _) =>
      case AskMany(_, _) =>
      case Write(_, _, _, _) =>
      case _ =>
    }
  }

  lemma WriteBegins(config: LayerConfig, s: System, l: Label)
    requires Step(config, s, l).1.Wrote?
    ensures InFlight(Step(config, s, l).0, Step(config, s, l).1.change, s.steps)
  {
    match l {
      case Write(c, change, at, write) =>
        WriteAlone(config, s, c, change, at, write);
        assert c in Step(config, s, l).0.calls;
      case _ =>
    }
  }

  lemma StaysAccounted(config: LayerConfig, s: System, l: Label, history: seq<Event>, w: nat)
    requires s.steps == |history| && w < |history| && history[w].Wrote?
    requires InFlight(s, history[w].change, w) || LandedSince(history, history[w].change, w)
    ensures var (e, event) := Step(config, s, l);
            InFlight(e, history[w].change, w) || LandedSince(history + [event], history[w].change, w)
  {
    var (e, event) := Step(config, s, l);
    var longer := history + [event];
    if LandedSince(history, history[w].change, w) {
      var f: nat :| w < f < |history| && history[f] == Landed(history[w].change, w);
      assert longer[f] == history[f];
    } else {
      var c :| c in s.calls && s.calls[c].Writing? && s.calls[c].began == w && s.calls[c].change == history[w].change;
      WriteFate(config, s, l, c);
      assert longer[|history|] == event;
    }
  }

  lemma {:induction false} RunAccounted(config: LayerConfig, labels: seq<Label>)
    ensures Accounted(Run(config, labels).0, Run(config, labels).1)
    decreases labels
  {
    if labels != [] {
      var before, l := labels[..|labels| - 1], labels[|labels| - 1];
      RunAccounted(config, before);
      SplitLast(labels);
      RunSnoc(config, EMPTY, before, l);
      var (s, history) := Run(config, before);
      StepAccounted(config, s, l, history);
    }
  }

  lemma StepAccounted(config: LayerConfig, s: System, l: Label, history: seq<Event>)
    requires Accounted(s, history)
    ensures Accounted(Step(config, s, l).0, history + [Step(config, s, l).1])
  {
    var (e, event) := Step(config, s, l);
    var longer := history + [event];
    forall w: nat | w < |longer| && longer[w].Wrote?
      ensures InFlight(e, longer[w].change, w) || LandedSince(longer, longer[w].change, w)
    {
      if w < |history| {
        assert longer[w] == history[w];
        StaysAccounted(config, s, l, history, w);
      } else {
        WriteBegins(config, s, l);
      }
    }
  }

  lemma {:induction false} UnwrittenSince(history: seq<Event>, b: nat, key: string)
    requires b < |history| && forall n | b < n < |history| :: !WritesKey(history[n], key)
    ensures Reference(history[..b + 1], key) == Reference(history, key)
    decreases history
  {
    if b + 1 == |history| {
      assert history[..b + 1] == history;
    } else {
      var before := history[..|history| - 1];
      assert before[..b + 1] == history[..b + 1];
      UnwrittenSince(before, b, key);
    }
  }

  lemma WriteLandsAtRest(s: System, history: seq<Event>, key: string, w: nat)
    requires Accounted(s, history) && Quiet(s, key) && w < |history|
    ensures WritesKey(history[w], key) ==> exists f: nat :: w < f < |history| && Lands(history[f], key)
  {
    if WritesKey(history[w], key) {
      assert !InFlight(s, history[w].change, w);
      var f: nat :| w < f < |history| && history[f] == Landed(history[w].change, w);
      assert Lands(history[f], key);
    }
  }

  /** At rest, what landed last landed after the last write. */
  lemma NothingWrittenAfter(s: System, history: seq<Event>, key: string, m: nat, w: nat)
    requires Accounted(s, history) && Quiet(s, key) && LastLanding(history, m, key) && m < w < |history|
    ensures !WritesKey(history[w], key)
  {
    WriteLandsAtRest(s, history, key, w);
  }

  lemma CurrentAtRest(s: System, history: seq<Event>, key: string)
    requires Accounted(s, history) && Quiet(s, key) && Undisturbed(history, key) && Follows(s, history, key)
    requires key in s.layers.fallback
    ensures Reference(history, key) == Some(s.layers.fallback[key].value)
  {
    var m: nat :| LastLanding(history, m, key) && HeldAtStart(history, m, key) == Some(s.layers.fallback[key].value);
    forall w | history[m].began < w < |history|
      ensures !WritesKey(history[w], key)
    {
      if w > m {
        NothingWrittenAfter(s, history, key, m, w);
      }
    }
    UnwrittenSince(history, history[m].began, key);
  }

  /** Coherence at rest: if no operation on the key was overtaken by a write of it between its two layers,
      the writes of the key went through and none is under way, then all that is read until the next write
      is the value written last. */
  lemma UndisturbedIsCoherent(config: LayerConfig, labels: seq<Label>, key: string, t: int)
    requires forall l | l in labels && WriteOf(l, key) :: l.write.Done?
    requires Quiet(Run(config, labels).0, key) && Undisturbed(Run(config, labels).1, key)
    ensures var (s, history) := Run(config, labels);
            CoherentFrom(config, s, key, Reference(history, key), t)
  {
    RunFollows(config, labels, key);
    RunAccounted(config, labels);
    var (s, history) := Run(config, labels);
    if key in s.layers.fallback {
      CurrentAtRest(s, history, key);
    }
    SoundIsCoherent(config, s, key, Reference(history, key), t);
  }

  lemma FourSteps(config: LayerConfig, s: System, a: Label, b: Label, c: Label, d: Label)
    ensures var s1 := Step(config, s, a).0;
            var s2 := Step(config, s1, b).0;
            var s3 := Step(config, s2, c).0;
            RunFrom(config, s, [a] + [b] + [c] + [d]).0 == Step(config, s3, d).0
  {
    OneStep(config, s, a);
    RunSnoc(config, s, [a], b);
    RunSnoc(config, s, [a] + [b], c);
    RunSnoc(config, s, [a] + [b] + [c], d);
  }

  lemma CopyAlone(config: LayerConfig, s: System, c: nat, later: int, victims: set<string>)
    requires c in s.calls && s.calls[c].Copying?
    requires MakesRoom(s.layers.fallback, |s.layers.fallback| >= config.primary.maxSize, victims)
    ensures var p := s.calls[c];
            Step(config, s, CopyBack(c, later, victims)).0
            == System(Layers(s.layers.primary, Put(s.layers.fallback, victims, p.key, Copy(config, p, later))),
                      s.calls - {c}, s.steps + 1)
  {
  }

  lemma ReadAlone(config: LayerConfig, s: System, c: nat, key: string, at: int)
    requires c !in s.calls && Present(s.layers.primary, key, at)
    ensures Step(config, s, Read(c, key, false, at, ReadFault.Serves({}))).0
         == System(s.layers, s.calls[c := Copying(key, s.layers.primary[key], false, at, s.steps)], s.steps + 1)
  {
  }

  /** A whole `Set` of the key, with both layers at their steps. */
  lemma SetThrough(config: LayerConfig, s: System, d: nat, key: string, value: Value, ttl: int, at: int)
    returns (write: Label, finish: Label)
    requires d !in s.calls
    ensures write == Write(d, PutOne(key, value, ttl), at, Done) && finish.Finish?
    ensures var e := Step(config, Step(config, s, write).0, finish).0;
            && e.calls == s.calls
            && key in e.layers.primary && e.layers.primary[key].value == value
  {
    var change := PutOne(key, value, ttl);
    write := Write(d, change, at, Done);
    WriteAlone(config, s, d, change, at, Done);
    var s1 := Step(config, s, write).0;
    var room := RoomCanBeMade(s1.layers.fallback, |s1.layers.fallback| >= config.primary.maxSize);
    finish := Finish(d, at, room);
    FinishAlone(config, s1, d, at, room);
    assert s1.calls - {d} == s.calls;
  }

  lemma CopyLands(config: LayerConfig, s: System, c: nat, at: int) returns (copy: Label)
    requires c in s.calls && s.calls[c].Copying? && !s.calls[c].whole
    ensures copy.CopyBack?
    ensures var e, key := Step(config, s, copy).0, s.calls[c].key;
            && e.calls == s.calls - {c} && e.layers.primary == s.layers.primary
            && key in e.layers.fallback && e.layers.fallback[key].value == s.calls[c].entry.value
  {
    var room := RoomCanBeMade(s.layers.fallback, |s.layers.fallback| >= config.primary.maxSize);
    copy := CopyBack(c, at, room);
    CopyAlone(config, s, c, at, room);
  }

  /** The condition is needed, in every state: a `Get` that has read the primary lets a whole `Set` pass and
      then puts the older value into the fallback over the newer one, though no call fails. */
  lemma ReadIsOvertaken(config: LayerConfig, s: System, key: string, value: Value, ttl: int, at: int, c: nat, d: nat)
    returns (labels: seq<Label>)
    requires Present(s.layers.primary, key, at) && c !in s.calls && d !in s.calls && c != d
    ensures forall l | l in labels && l.Write? :: l.write.Done?
    ensures var e := RunFrom(config, s, labels).0;
            && e.calls == s.calls && key in e.layers.primary && key in e.layers.fallback
            && e.layers.primary[key].value == value
            && e.layers.fallback[key].value == s.layers.primary[key].value
  {
    var read := Read(c, key, false, at, ReadFault.Serves({}));
    ReadAlone(config, s, c, key, at);
    var s1 := Step(config, s, read).0;
    var write, finish := SetThrough(config, s1, d, key, value, ttl, at);
    var s3 := Step(config, Step(config, s1, write).0, finish).0;
    var copy := CopyLands(config, s3, c, at);
    FourSteps(config, s, read, write, finish, copy);
    labels := [read] + [write] + [finish] + [copy];
    assert s1.calls - {c} == s.calls;
  }

  lemma FinishLands(config: LayerConfig, s: System, c: nat, at: int) returns (finish: Label)
    requires c in s.calls && s.calls[c].Writing? && s.calls[c].change.PutOne?
    ensures finish.Finish?
    ensures var e, change := Step(config, s, finish).0, s.calls[c].change;
            && e.calls == s.calls - {c} && e.layers.primary == s.layers.primary
            && change.key in e.layers.fallback && e.layers.fallback[change.key].value == change.value
  {
    var room := RoomCanBeMade(s.layers.fallback, |s.layers.fallback| >= config.primary.maxSize);
    finish := Finish(c, at, room);
    FinishAlone(config, s, c, at, room);
  }

  /** So do two `Set` calls that pass each other between the layers: the primary is left with the value of the
      one and the fallback with the value of the other. */
  lemma WritesCross(config: LayerConfig, s: System, key: string, first: Value, second: Value, ttl: int, at: int,
                    c: nat, d: nat)
    returns (labels: seq<Label>)
    requires c !in s.calls && d !in s.calls && c != d
    ensures forall l | l in labels && l.Write? :: l.write.Done?
    ensures var e := RunFrom(config, s, labels).0;
            && e.calls == s.calls && key in e.layers.primary && key in e.layers.fallback
            && e.layers.primary[key].value == second && e.layers.fallback[key].value == first
  {
    var x := Write(c, PutOne(key, first, ttl), at, Done);
    WriteAlone(config, s, c, PutOne(key, first, ttl), at, Done);
    var s1 := Step(config, s, x).0;
    var write, finish := SetThrough(config, s1, d, key, second, ttl, at);
    var s3 := Step(config, Step(config, s1, write).0, finish).0;
    var last := FinishLands(config, s3, c, at);
    FourSteps(config, s, x, write, finish, last);
    labels := [x] + [write] + [finish] + [last];
    assert s1.calls - {c} == s.calls;
  }

  // ---------------------------------------------------------------- how old a served value can be

  /** Bounds a run may respect: effective TTLs of the primary up to `p`, of the fallback up to `f`, and at most
      `delay` between an operation's steps on the two layers. */
  datatype Bounds = Bounds(p: nat, f: nat, delay: nat)

  predicate Within(config: LayerConfig, s: System, l: Label, b: Bounds) {
    match l
    case Write(_, change, _, _) =>
      (match change
       case PutOne(_, _, ttl) => EffectiveTTL(config.primary, ttl) <= b.p
       case PutMany(_, ttl) => ttl <= b.p
       case PutEntry(_, _) => false
       case _ => true)
    case CopyBack(c, later, _) =>
      EffectiveTTL(config.Fallback(), config.fallbackTTL) <= b.f
      && (c in s.calls && s.calls[c].Copying? ==> later <= s.calls[c].at + b.delay)
    case Finish(c, later, _) =>
      EffectiveTTL(config.Fallback(), config.fallbackTTL) <= b.f && config.fallbackTTL <= b.f
      && (c in s.calls && s.calls[c].Writing? ==> later <= s.calls[c].at + b.delay)
    case _ => true
  }

  /** Every label of the run respects the bounds in the state it meets. */
  ghost predicate AllWithin(config: LayerConfig, labels: seq<Label>, b: Bounds)
    decreases labels
  {
    labels == [] ||
    (AllWithin(config, labels[..|labels| - 1], b)
     && Within(config, Run(config, labels[..|labels| - 1]).0, labels[|labels| - 1], b))
  }

  predicate Puts(event: Event, key: string, value: Value) {
    event.Wrote? && Touches(event.change, key) && Left(event.change, key) == Some(value)
  }

  /** Some write put this value under the key at the primary, no more than `life` before the entry expires. */
  ghost predicate WrittenBy(history: seq<Event>, key: string, entry: Entry, life: int) {
    exists w: nat :: w < |history| && Puts(history[w], key, entry.value) && entry.expiresAt <= history[w].at + life
  }

  function Life(b: Bounds): nat {
    b.p + b.f + b.delay
  }

  ghost predicate PendingTraced(history: seq<Event>, p: Pending, b: Bounds) {
    match p
    case Copying(key, e, _, at, _) => WrittenBy(history, key, e, b.p) && at <= e.expiresAt
    case Writing(change, at, began) =>
      !change.PutEntry? && began < |history| && history[began] == Wrote(change, at)
    case _ => true
  }

  ghost predicate Traced(s: System, history: seq<Event>, b: Bounds) {
    && s.steps == |history|
    && (forall k | k in s.layers.primary :: WrittenBy(history, k, s.layers.primary[k], b.p))
    && (forall k | k in s.layers.fallback :: WrittenBy(history, k, s.layers.fallback[k], Life(b)))
    && (forall c | c in s.calls :: PendingTraced(history, s.calls[c], b))
  }

  lemma WrittenByLater(history: seq<Event>, event: Event, key: string, entry: Entry, copy: Entry, life: int, more: nat)
    requires WrittenBy(history, key, entry, life)
    requires copy.value == entry.value && copy.expiresAt <= entry.expiresAt + more
    ensures WrittenBy(history + [event], key, copy, life + more)
  {
    var w: nat :| w < |history| && Puts(history[w], key, entry.value) && entry.expiresAt <= history[w].at + life;
    assert (history + [event])[w] == history[w];
  }

  lemma WrittenNow(history: seq<Event>, event: Event, key: string, entry: Entry, life: int)
    requires Puts(event, key, entry.value) && entry.expiresAt <= event.at + life
    ensures WrittenBy(history + [event], key, entry, life)
  {
    assert (history + [event])[|history|] == event;
  }

  /** What a write stores in the primary, whether or not the call reports an error. */
  lemma PrimaryEntry(config: LayerConfig, data: Data, change: Change, at: int, write: WriteFault, key: string, p: nat)
    requires key in Written(data, OnPrimary(config, data, change, at), write)
    requires match change
             case PutOne(_, _, ttl) => EffectiveTTL(config.primary, ttl) <= p
             case PutMany(_, ttl) => ttl <= p
             case PutEntry(_, _) => false
             case _ => true
    ensures var e := Written(data, OnPrimary(config, data, change, at), write)[key];
            (key in data && e == data[key])
            || (Puts(Wrote(change, at), key, e.value) && e.expiresAt <= at + p)
  {
  }

  lemma PrimaryTraced(config: LayerConfig, s: System, l: Label, history: seq<Event>, b: Bounds, key: string)
    requires Traced(s, history, b) && Within(config, s, l, b) && key in Step(config, s, l).0.layers.primary
    ensures var (e, event) := Step(config, s, l);
            WrittenBy(history + [event], key, e.layers.primary[key], b.p)
  {
    var (e, event) := Step(config, s, l);
    if key in s.layers.primary && e.layers.primary[key] == s.layers.primary[key] {
      WrittenByLater(history, event, key, s.layers.primary[key], s.layers.primary[key], b.p, 0);
    } else {
      NewInPrimary(config, s, l, key);
      WriteAlone(config, s, l.call, l.change, l.at, l.write);
      PrimaryEntry(config, s.layers.primary, l.change, l.at, l.write, key, b.p);
      WrittenNow(history, event, key, e.layers.primary[key], b.p);
    }
  }

  lemma NewInPrimary(config: LayerConfig, s: System, l: Label, key: string)
    requires key in Step(config, s, l).0.layers.primary
    requires !(key in s.layers.primary && Step(config, s, l).0.layers.primary[key] == s.layers.primary[key])
    ensures l.Write? && l.call !in s.calls && Step(config, s, l).1 == Wrote(l.change, l.at)
  {
    match l {
      case Write(_, _, _, _) =>
      case Read(_, _, _, _, _) =>
      case SweepPrimary(_) =>
      case _ =>
    }
  }

  /** What a finished write stores in the fallback. */
  lemma FallbackEntry(config: LayerConfig, data: Data, change: Change, victims: set<string>, later: int, key: string, f: nat)
    requires key in OnFallback(config, data, change, victims, later) && !change.PutEntry?
    requires EffectiveTTL(config.Fallback(), config.fallbackTTL) <= f && config.fallbackTTL <= f
    ensures var e := OnFallback(config, data, change, victims, later)[key];
            (key in data && e == data[key])
            || (Touches(change, key) && Left(change, key) == Some(e.value) && e.expiresAt <= later + f)
  {
  }

  lemma FallbackTraced(config: LayerConfig, s: System, l: Label, history: seq<Event>, b: Bounds, key: string)
    requires Traced(s, history, b) && Within(config, s, l, b) && key in Step(config, s, l).0.layers.fallback
    ensures var (e, event) := Step(config, s, l);
            WrittenBy(history + [event], key, e.layers.fallback[key], Life(b))
  {
    var (e, event) := Step(config, s, l);
    if key in s.layers.fallback && e.layers.fallback[key] == s.layers.fallback[key] {
      WrittenByLater(history, event, key, s.layers.fallback[key], s.layers.fallback[key], Life(b), 0);
    } else {
      NewInFallback(config, s, l, key);
      var p := s.calls[l.call];
      assert PendingTraced(history, p, b);
      if l.CopyBack? {
        WrittenByLater(history, event, key, p.entry, e.layers.fallback[key], b.p, b.f + b.delay);
      } else {
        FinishTraced(config, s, l.call, l.later, l.victims, history, event, b, key);
      }
    }
  }

  lemma FinishTraced(config: LayerConfig, s: System, c: nat, later: int, victims: set<string>, history: seq<Event>,
                     event: Event, b: Bounds, key: string)
    requires Within(config, s, Finish(c, later, victims), b)
    requires c in s.calls && s.calls[c].Writing? && PendingTraced(history, s.calls[c], b)
    requires key in OnFallback(config, s.layers.fallback, s.calls[c].change, victims, later)
    requires var e := OnFallback(config, s.layers.fallback, s.calls[c].change, victims, later)[key];
             !(key in s.layers.fallback && e == s.layers.fallback[key])
    ensures WrittenBy(history + [event], key,
                      OnFallback(config, s.layers.fallback, s.calls[c].change, victims, later)[key], Life(b))
  {
    var p := s.calls[c];
    FallbackEntry(config, s.layers.fallback, p.change, victims, later, key, b.f);
    assert (history + [event])[p.began] == history[p.began];
  }

  lemma NewInFallback(config: LayerConfig, s: System, l: Label, key: string)
    requires key in Step(config, s, l).0.layers.fallback
    requires !(key in s.layers.fallback && Step(config, s, l).0.layers.fallback[key] == s.layers.fallback[key])
    ensures (l.CopyBack? || l.Finish?) && l.call in s.calls
    ensures l.CopyBack? ==> s.calls[l.call].Copying? && key == s.calls[l.call].key
                            && Step(config, s, l).0.layers.fallback[key] == Copy(config, s.calls[l.call], l.later)
    ensures l.Finish? ==> s.calls[l.call].Writing? && Step(config, s, l).0.layers.fallback
                            == OnFallback(config, s.layers.fallback, s.calls[l.call].change, l.victims, l.later)
  {
    match l {
      case CopyBack(c, later, victims) => NewByCopy(config, s, c, later, victims, key);
      case Finish(_, _, _) =>
      case Ask(_, _) =>
      case SweepFallback(_) =>
      case _ =>
    }
  }

  lemma NewByCopy(config: LayerConfig, s: System, c: nat, later: int, victims: set<string>, key: string)
    requires key in Step(config, s, CopyBack(c, later, victims)).0.layers.fallback
    requires !(key in s.layers.fallback
               && Step(config, s, CopyBack(c, later, victims)).0.layers.fallback[key] == s.layers.fallback[key])
    ensures c in s.calls && s.calls[c].Copying? && key == s.calls[c].key
    ensures Step(config, s, CopyBack(c, later, victims)).0.layers.fallback[key] == Copy(config, s.calls[c], later)
  {
  }

  lemma PendingStaysTraced(config: LayerConfig, s: System, l: Label, history: seq<Event>, b: Bounds, c: nat)
    requires Traced(s, history, b) && Within(config, s, l, b) && c in Step(config, s, l).0.calls
    ensures var (e, event) := Step(config, s, l);
            PendingTraced(history + [event], e.calls[c], b)
  {
    var (e, event) := Step(config, s, l);
    var longer := history + [event];
    var q := e.calls[c];
    if c in s.calls && q == s.calls[c] {
      assert PendingTraced(history, q, b);
      if q.Copying? {
        WrittenByLater(history, event, q.key, q.entry, q.entry, b.p, 0);
      } else if q.Writing? {
        assert longer[q.began] == history[q.began];
      }
    } else {
      CallOrigin(config, s, l, c);
      if q.Copying? {
        WrittenByLater(history, event, q.key, q.entry, q.entry, b.p, 0);
      } else if q.Writing? {
        NewWrite(config, s, l, c);
        assert longer[|history|] == event;
      }
    }
  }

  lemma NewWrite(config: LayerConfig, s: System, l: Label, c: nat)
    requires c in Step(config, s, l).0.calls && Step(config, s, l).0.calls[c].Writing?
    requires !(c in s.calls && Step(config, s, l).0.calls[c] == s.calls[c])
    ensures l.Write? && l.change == Step(config, s, l).0.calls[c].change
  {
    match l {
      case Write(_, _, _, _) =>
      case Read(_, _, _, _, _) =>
      case _ =>
    }
  }

  lemma StepTraced(config: LayerConfig, s: System, l: Label, history: seq<Event>, b: Bounds)
    requires Traced(s, history, b) && Within(config, s, l, b)
    ensures Traced(Step(config, s, l).0, history + [Step(config, s, l).1], b)
  {
    var (e, event) := Step(config, s, l);
    forall k | k in e.layers.primary
      ensures WrittenBy(history + [event], k, e.layers.primary[k], b.p)
    {
      PrimaryTraced(config, s, l, history, b, k);
    }
    forall k | k in e.layers.fallback
      ensures WrittenBy(history + [event], k, e.layers.fallback[k], Life(b))
    {
      FallbackTraced(config, s, l, history, b, k);
    }
    forall c | c in e.calls
      ensures PendingTraced(history + [event], e.calls[c], b)
    {
      PendingStaysTraced(config, s, l, history, b, c);
    }
  }

  lemma TracedSnoc(config: LayerConfig, before: seq<Label>, l: Label, b: Bounds)
    requires Traced(Run(config, before).0, Run(config, before).1, b) && Within(config, Run(config, before).0, l, b)
    ensures Traced(Run(config, before + [l]).0, Run(config, before + [l]).1, b)
  {
    var (s, past) := Run(config, before);
    RunSnoc(config, EMPTY, before, l);
    StepTraced(config, s, l, past, b);
  }

  lemma {:induction false} RunTraced(config: LayerConfig, labels: seq<Label>, b: Bounds)
    requires AllWithin(config, labels, b)
    ensures Traced(Run(config, labels).0, Run(config, labels).1, b)
    decreases labels
  {
    if labels != [] {
      var before, l := labels[..|labels| - 1], labels[|labels| - 1];
      SplitLast(labels);
      RunTraced(config, before, b);
      TracedSnoc(config, before, l, b);
    }
  }

  /** What a step serves is in one of the layers, unexpired. */
  lemma ServedIsPresent(config: LayerConfig, s: System, l: Label, key: string)
    requires Serves(Step(config, s, l).1, key)
    ensures var event := Step(config, s, l).1;
            (Present(s.layers.primary, key, event.at) && s.layers.primary[key].value == event.values[key])
            || (Present(s.layers.fallback, key, event.at) && s.layers.fallback[key].value == event.values[key])
  {
    match l {
      case Read(_, _, _, _, _) =>
      case Ask(_, _) =>
      case ReadMany(_, _, _, _) =>
      case AskMany(_, _) =>
      case _ =>
    }
  }

  ghost predicate WrittenWithin(history: seq<Event>, i: nat, key: string, value: Value, at: int, age: int) {
    exists w: nat :: w < i && w < |history| && Puts(history[w], key, value) && at - history[w].at <= age
  }

  lemma StepServesTraced(config: LayerConfig, s: System, l: Label, history: seq<Event>, b: Bounds, key: string)
    requires Traced(s, history, b) && Serves(Step(config, s, l).1, key)
    ensures var event := Step(config, s, l).1;
            WrittenWithin(history, |history|, key, event.values[key], event.at, Life(b))
  {
    var event := Step(config, s, l).1;
    ServedIsPresent(config, s, l, key);
    var direct := Present(s.layers.primary, key, event.at) && s.layers.primary[key].value == event.values[key];
    var e := if direct then s.layers.primary[key] else s.layers.fallback[key];
    var life := if direct then b.p else Life(b);
    assert WrittenBy(history, key, e, life);
    var w: nat :| w < |history| && Puts(history[w], key, e.value) && e.expiresAt <= history[w].at + life;
  }

  lemma WrittenWithinLater(past: seq<Event>, event: Event, i: nat, key: string, value: Value, at: int, age: int)
    requires i <= |past| && WrittenWithin(past, i, key, value, at, age)
    ensures WrittenWithin(past + [event], i, key, value, at, age)
  {
    var w: nat :| w < i && w < |past| && Puts(past[w], key, value) && at - past[w].at <= age;
    assert (past + [event])[w] == past[w];
  }

  /** The event at `i` serves nothing under the key that was not written within `age`. */
  ghost predicate ServesFresh(history: seq<Event>, i: nat, key: string, age: int) {
    i < |history| && (Serves(history[i], key) ==>
      WrittenWithin(history, i, key, history[i].values[key], history[i].at, age))
  }

  lemma ServesFreshLater(past: seq<Event>, event: Event, i: nat, key: string, age: int)
    requires ServesFresh(past, i, key, age)
    ensures ServesFresh(past + [event], i, key, age)
  {
    if Serves(past[i], key) {
      WrittenWithinLater(past, event, i, key, past[i].values[key], past[i].at, age);
    }
  }

  lemma LastServesFresh(config: LayerConfig, s: System, l: Label, past: seq<Event>, b: Bounds, key: string)
    requires Traced(s, past, b)
    ensures ServesFresh(past + [Step(config, s, l).1], |past|, key, Life(b))
  {
    var event := Step(config, s, l).1;
    if Serves(event, key) {
      StepServesTraced(config, s, l, past, b, key);
      WrittenWithinLater(past, event, |past|, key, event.values[key], event.at, Life(b));
    }
  }

  lemma {:induction false} RunServesFresh(config: LayerConfig, labels: seq<Label>, b: Bounds, i: nat, key: string)
    requires AllWithin(config, labels, b) && i < |labels|
    ensures ServesFresh(Run(config, labels).1, i, key, Life(b))
    decreases labels
  {
    var before, l := labels[..|labels| - 1], labels[|labels| - 1];
    SplitLast(labels);
    RunSnoc(config, EMPTY, before, l);
    var (s, past) := Run(config, before);
    if i < |before| {
      RunServesFresh(config, before, b, i, key);
      ServesFreshLater(past, Step(config, s, l).1, i, key, Life(b));
    } else {
      RunTraced(config, before, b);
      LastServesFresh(config, s, l, past, b, key);
    }
  }

  /** The staleness bound under every interleaving: every value served was written at the primary at most
      P + F earlier, plus the time an operation takes between its two layers. */
  lemma InterleavedStaleness(config: LayerConfig, labels: seq<Label>, b: Bounds, i: nat, key: string)
    requires AllWithin(config, labels, b) && i < |labels| && Serves(Run(config, labels).1[i], key)
    ensures var history := Run(config, labels).1;
            WrittenWithin(history, i, key, history[i].values[key], history[i].at, b.p + b.f + b.delay)
  {
    RunServesFresh(config, labels, b, i, key);
  }
}
