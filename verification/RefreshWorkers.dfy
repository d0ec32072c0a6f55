/** The background workers of internal/cache/fallback.go: `StartBackgroundRefresh` adds to a wait
    group and spawns goroutines, the workers share a bounded channel, and `StopBackgroundRefresh`
    closes the stop channel and waits for the group while it holds the cache's mutex. */
module RefreshWorkers {
  import opened Prelude

  /** The capacity of the refresh channel. */
  const CHANNEL_CAPACITY := 1000

  datatype PoolConfig = PoolConfig(enableFallback: bool, refreshWorkers: int)

  datatype Role = Refresher | Cleaner

  datatype Worker =
    | Selecting(role: Role)           // blocked in its select
    | Refreshing(role: Role)          // refreshing one key
    | Sending(role: Role, keys: seq<string>) // queueing the keys about to expire
    | Sweeping(role: Role)            // evicting expired keys
    | Returning(role: Role)           // left the loop, wait group not yet told

  datatype Stopper = Queued | Locked | Waiting | Returned

  /** A `Start` call: workers still to spawn, and whether the group already counts the next one. */
  datatype Starter = Starter(remaining: nat, added: bool)

  datatype Pool = Pool(
    group: int,
    workers: map<nat, Worker>,
    starters: map<nat, Starter>,
    channel: seq<string>,
    stopClosed: bool,
    closes: nat,
    mutex: Option<nat>,
    stoppers: map<nat, Stopper>,
    cancelled: bool)

  const IDLE := Pool(0, map[], map[], [], false, 0, None, map[], false)

  datatype Label =
    | CallStart(call: nat)
    | Add(call: nat)
    | Spawn(call: nat, worker: nat)
    | Receive(worker: nat)
    | Tick(worker: nat, keys: seq<string>)
    | Send(worker: nat)
    | Finish(worker: nat)
    | Leave(worker: nat)
    | Done(worker: nat)
    | Cancel
    | CallStop(call: nat)
    | Lock(call: nat)
    | Inspect(call: nat)
    | Return(call: nat)

  function ToSpawn(config: PoolConfig): nat {
    (if config.refreshWorkers > 0 then config.refreshWorkers else 0) + 1
  }

  /** One step, or `None` when the goroutine concerned is blocked or not at that point. */
  function Step(config: PoolConfig, s: Pool, l: Label): Option<Pool> {
    match l
    case CallStart(c) =>
      if c in s.starters then None
      else if !config.enableFallback then Some(s)
      else Some(s.(starters := s.starters[c := Starter(ToSpawn(config), false)]))
    case Add(c) =>
      if c !in s.starters || s.starters[c].added then None
      else Some(s.(group := s.group + 1, starters := s.starters[c := s.starters[c].(added := true)]))
    case Spawn(c, w) =>
      if c !in s.starters || !s.starters[c].added || w in s.workers then None
      else
        var left := s.starters[c].remaining;
        Some(s.(workers := s.workers[w := Selecting(if left > 1 then Refresher else Cleaner)],
                starters := if left > 1 then s.starters[c := Starter(left - 1, false)] else s.starters - {c}))
    case Receive(w) =>
      if w !in s.workers || s.workers[w] != Selecting(Refresher) || s.channel == [] then None
      else Some(s.(channel := s.channel[1..], workers := s.workers[w := Refreshing(Refresher)]))
    case Tick(w, keys) =>
      if w !in s.workers || !s.workers[w].Selecting? then None
      else
        Some(s.(workers := s.workers[w := if s.workers[w].role.Refresher? then Sending(Refresher, keys) else Sweeping(Cleaner)]))
    case Send(w) =>
      if w !in s.workers || !s.workers[w].Sending? || s.workers[w].keys == [] then None
      else
        var keys := s.workers[w].keys;
        Some(s.(channel := if |s.channel| < CHANNEL_CAPACITY then s.channel + [keys[0]] else s.channel,
                workers := s.workers[w := s.workers[w].(keys := keys[1..])]))
    case Finish(w) =>
      if w !in s.workers then None
      else
        var p := s.workers[w];
        if p.Refreshing? || p.Sweeping? || (p.Sending? && p.keys == [])
        then Some(s.(workers := s.workers[w := Selecting(p.role)]))
        else None
    case Leave(w) =>
      if w !in s.workers || !s.workers[w].Selecting? || !(s.stopClosed || s.cancelled) then None
      else Some(s.(workers := s.workers[w := Returning(s.workers[w].role)]))
    case Done(w) =>
      if w !in s.workers || !s.workers[w].Returning? then None
      else Some(s.(group := s.group - 1, workers := s.workers - {w}))
    case Cancel => Some(s.(cancelled := true))
    case CallStop(c) =>
      if c in s.stoppers then None else Some(s.(stoppers := s.stoppers[c := Queued]))
    case Lock(c) =>
      if c !in s.stoppers || !s.stoppers[c].Queued? || s.mutex.Some? then None
      else Some(s.(mutex := Some(c), stoppers := s.stoppers[c := Locked]))
    case Inspect(c) =>
      if c !in s.stoppers || !s.stoppers[c].Locked? then None
      else if s.stopClosed then Some(s.(mutex := None, stoppers := s.stoppers[c := Returned]))
      else Some(s.(stopClosed := true, closes := s.closes + 1, stoppers := s.stoppers[c := Waiting]))
    case Return(c) =>
      if c !in s.stoppers || !s.stoppers[c].Waiting? || s.group != 0 then None
      else Some(s.(mutex := None, stoppers := s.stoppers[c := Returned]))
  }

  function Run(config: PoolConfig, s: Pool, labels: seq<Label>): Option<Pool>
    decreases labels
  {
    if labels == [] then Some(s)
    else
      match Step(config, s, labels[0])
      case None => None
      case Some(next) => Run(config, next, labels[1..])
  }

  /** Starts come before stops: a stop is called only when no start is under way, and no start is
      called once there has been a stop. */
  predicate Ordered(s: Pool, l: Label) {
    (l.CallStop? ==> s.starters == map[]) && (l.CallStart? ==> s.stoppers == map[])
  }

  predicate OrderedRun(config: PoolConfig, s: Pool, labels: seq<Label>)
    decreases labels
  {
    labels == [] ||
    (Ordered(s, labels[0]) && Step(config, s, labels[0]).Some?
     && OrderedRun(config, Step(config, s, labels[0]).value, labels[1..]))
  }

  // ---------------------------------------------------------------- what every state keeps

  /** Start calls that told the group about a worker they have not spawned yet. */
  function Announced(starters: map<nat, Starter>): set<nat> {
    set c | c in starters && starters[c].added
  }

  /** The wait group counts exactly the live and the announced workers. */
  predicate GroupExact(s: Pool) {
    s.group == |s.workers| + |Announced(s.starters)|
  }

  predicate MutexExact(s: Pool) {
    && (forall c | c in s.stoppers && (s.stoppers[c].Locked? || s.stoppers[c].Waiting?) :: s.mutex == Some(c))
    && (s.mutex.Some? ==> s.mutex.value in s.stoppers
                          && (s.stoppers[s.mutex.value].Locked? || s.stoppers[s.mutex.value].Waiting?))
  }

  /** Someone is inside `wg.Wait` holding the mutex. */
  predicate InWait(s: Pool) {
    s.mutex.Some? && s.mutex.value in s.stoppers && s.stoppers[s.mutex.value].Waiting?
  }

  predicate Inv(s: Pool) {
    && GroupExact(s)
    && MutexExact(s)
    && |s.channel| <= CHANNEL_CAPACITY
    && s.closes == (if s.stopClosed then 1 else 0)
    && (s.stoppers != map[] ==> s.starters == map[])
    && (InWait(s) ==> s.stopClosed)
    && (s.stopClosed ==> s.stoppers != map[])
    && (s.stopClosed && !InWait(s) ==> s.workers == map[])
    && (forall c | c in s.stoppers && s.stoppers[c].Returned? :: s.stopClosed)
  }

  lemma AnnouncedUpdate(starters: map<nat, Starter>, c: nat, p: Starter)
    ensures Announced(starters[c := p]) == if p.added then Announced(starters) + {c} else Announced(starters) - {c}
    ensures Announced(starters - {c}) == Announced(starters) - {c}
  {
  }

  lemma OneMoreWorker(workers: map<nat, Worker>, w: nat, p: Worker)
    requires w !in workers
    ensures |workers[w := p]| == |workers| + 1
  {
    assert workers[w := p].Keys == workers.Keys + {w};
  }

  lemma SpawnKeepsGroup(config: PoolConfig, s: Pool, c: nat, w: nat)
    requires GroupExact(s) && Step(config, s, Spawn(c, w)).Some?
    ensures GroupExact(Step(config, s, Spawn(c, w)).value)
  {
    var e := Step(config, s, Spawn(c, w)).value;
    AnnouncedUpdate(s.starters, c, Starter(if s.starters[c].remaining > 1 then s.starters[c].remaining - 1 else 0, false));
    OneMoreWorker(s.workers, w, e.workers[w]);
    assert c in Announced(s.starters) && Announced(e.starters) == Announced(s.starters) - {c};
  }

  lemma StartKeepsGroup(config: PoolConfig, s: Pool, l: Label)
    requires GroupExact(s) && Step(config, s, l).Some?
    requires l.CallStart? || l.Add?
    ensures GroupExact(Step(config, s, l).value)
  {
    var e := Step(config, s, l).value;
    if l.CallStart? {
      AnnouncedUpdate(s.starters, l.call, Starter(ToSpawn(config), false));
      assert Announced(e.starters) == Announced(s.starters);
    } else {
      AnnouncedUpdate(s.starters, l.call, s.starters[l.call].(added := true));
      assert Announced(e.starters) == Announced(s.starters) + {l.call};
    }
  }

  lemma WorkerKeepsGroup(config: PoolConfig, s: Pool, l: Label)
    requires GroupExact(s) && Step(config, s, l).Some?
    requires l.Receive? || l.Tick? || l.Send? || l.Finish? || l.Leave? || l.Done?
    ensures GroupExact(Step(config, s, l).value)
  {
    var e := Step(config, s, l).value;
    assert |e.workers| == |e.workers.Keys| && |s.workers| == |s.workers.Keys|;
    if l.Done? {
      assert e.workers.Keys == s.workers.Keys - {l.worker};
    } else {
      assert e.workers.Keys == s.workers.Keys;
    }
  }

  lemma StepKeepsGroup(config: PoolConfig, s: Pool, l: Label)
    requires GroupExact(s) && Step(config, s, l).Some?
    ensures GroupExact(Step(config, s, l).value)
  {
    if l.CallStart? || l.Add? {
      StartKeepsGroup(config, s, l);
    } else if l.Spawn? {
      SpawnKeepsGroup(config, s, l.call, l.worker);
    } else if l.Receive? || l.Tick? || l.Send? || l.Finish? || l.Leave? || l.Done? {
      WorkerKeepsGroup(config, s, l);
    }
  }

  lemma StopKeepsInv(config: PoolConfig, s: Pool, l: Label)
    requires Inv(s) && Ordered(s, l) && Step(config, s, l).Some?
    requires l.CallStop? || l.Lock? || l.Inspect? || l.Return?
    ensures Inv(Step(config, s, l).value)
  {
    StepKeepsGroup(config, s, l);
    if l.Return? {
      assert |s.workers| == 0;
    }
  }

  /** Starters and workers leave the stop calls and what they share alone. */
  lemma OtherLeavesStops(config: PoolConfig, s: Pool, l: Label)
    requires Step(config, s, l).Some? && !(l.CallStop? || l.Lock? || l.Inspect? || l.Return?)
    ensures var e := Step(config, s, l).value;
            && e.stoppers == s.stoppers && e.mutex == s.mutex && e.stopClosed == s.stopClosed && e.closes == s.closes
            && (|s.channel| <= CHANNEL_CAPACITY ==> |e.channel| <= CHANNEL_CAPACITY)
  {
    match l {
      case CallStart(_) =>
      case Add(_) =>
      case Spawn(_, _) =>
      case Done(_) =>
      case _ =>
    }
  }

  lemma OtherKeepsInv(config: PoolConfig, s: Pool, l: Label)
    requires Inv(s) && Ordered(s, l) && Step(config, s, l).Some?
    requires !(l.CallStop? || l.Lock? || l.Inspect? || l.Return?)
    ensures Inv(Step(config, s, l).value)
  {
    StepKeepsGroup(config, s, l);
    OtherLeavesStops(config, s, l);
    var e := Step(config, s, l).value;
    if s.stopClosed && !InWait(s) {
      assert s.workers == map[] && s.starters == map[];
      assert e.workers == map[];
    }
  }

  /** In every reachable state the group is exact, the stop channel has been closed at most once, the
      channel is within its capacity, and the mutex is held by the one call that is past its lock. */
  lemma {:induction false} Reachable(config: PoolConfig, s: Pool, labels: seq<Label>)
    requires Inv(s) && OrderedRun(config, s, labels)
    ensures Run(config, s, labels).Some? && Inv(Run(config, s, labels).value)
    decreases labels
  {
    if labels != [] {
      if labels[0].CallStop? || labels[0].Lock? || labels[0].Inspect? || labels[0].Return? {
        StopKeepsInv(config, s, labels[0]);
      } else {
        OtherKeepsInv(config, s, labels[0]);
      }
      Reachable(config, Step(config, s, labels[0]).value, labels[1..]);
    }
  }

  /** Any `Stop` call, the one that closes the channel or a later one, has returned only when no
      worker is left alive and none is still to come. */
  lemma StopReturnsAfterTheLastWorker(config: PoolConfig, labels: seq<Label>, c: nat)
    requires OrderedRun(config, IDLE, labels)
    requires var e := Run(config, IDLE, labels); e.Some? && c in e.value.stoppers && e.value.stoppers[c].Returned?
    ensures var e := Run(config, IDLE, labels).value;
            e.workers == map[] && e.starters == map[] && e.group == 0 && e.closes == 1
  {
    Reachable(config, IDLE, labels);
    var e := Run(config, IDLE, labels).value;
    if InWait(e) {
      NoReturnDuringWait(config, IDLE, labels);
    }
  }

  /** While the closing call waits no other stop call has returned. */
  predicate NoneReturned(s: Pool) {
    InWait(s) ==> forall c | c in s.stoppers :: !s.stoppers[c].Returned?
  }

  lemma StepKeepsNoneReturned(config: PoolConfig, s: Pool, l: Label)
    requires Inv(s) && NoneReturned(s) && Ordered(s, l) && Step(config, s, l).Some?
    ensures NoneReturned(Step(config, s, l).value)
  {
    if !(l.CallStop? || l.Lock? || l.Inspect? || l.Return?) {
      OtherLeavesStops(config, s, l);
    }
  }

  lemma {:induction false} NoReturnDuringWait(config: PoolConfig, s: Pool, labels: seq<Label>)
    requires Inv(s) && NoneReturned(s) && OrderedRun(config, s, labels)
    ensures Run(config, s, labels).Some? && NoneReturned(Run(config, s, labels).value)
    decreases labels
  {
    if labels != [] {
      Reachable(config, s, [labels[0]]);
      var e := Step(config, s, labels[0]).value;
      assert Run(config, s, [labels[0]]) == Run(config, e, []);
      StepKeepsNoneReturned(config, s, labels[0]);
      NoReturnDuringWait(config, e, labels[1..]);
    }
  }

  // ---------------------------------------------------------------- no deadlock

  lemma {:induction false} RunConcat(config: PoolConfig, s: Pool, x: seq<Label>, y: seq<Label>)
    requires Run(config, s, x).Some?
    ensures Run(config, s, x + y) == Run(config, Run(config, s, x).value, y)
    decreases x
  {
    if x == [] {
      assert x + y == y;
    } else {
      assert (x + y)[1..] == x[1..] + y;
      RunConcat(config, Step(config, s, x[0]).value, x[1..], y);
    }
  }

  lemma RunCons(config: PoolConfig, s: Pool, l: Label, rest: seq<Label>)
    requires Step(config, s, l).Some?
    ensures Run(config, s, [l] + rest) == Run(config, Step(config, s, l).value, rest)
  {
    assert ([l] + rest)[0] == l && ([l] + rest)[1..] == rest;
  }

  /** `e` is `s` after one worker went away; what the others, the stoppers and the mutex do is untouched. */
  predicate Without(s: Pool, e: Pool, w: nat) {
    && e.workers == s.workers - {w} && e.group == s.group - 1
    && e.starters == s.starters && e.stoppers == s.stoppers && e.mutex == s.mutex
    && e.stopClosed == s.stopClosed && e.closes == s.closes && |e.channel| <= CHANNEL_CAPACITY
  }

  function Effort(w: Worker): nat {
    match w
    case Returning(_) => 1
    case Selecting(_) => 2
    case Refreshing(_) => 3
    case Sweeping(_) => 3
    case Sending(_, keys) => 3 + |keys|
  }

  /** Steps that bring workers and stop calls to their end; they have no business with start calls. */
  predicate Drains(l: Label) {
    l.Send? || l.Finish? || l.Leave? || l.Done? || l.Lock? || l.Inspect? || l.Return?
  }

  predicate AllDrain(labels: seq<Label>) {
    forall l | l in labels :: Drains(l)
  }

  function NextLabel(p: Worker, w: nat): Label {
    match p
    case Returning(_) => Done(w)
    case Selecting(_) => Leave(w)
    case Sending(_, keys) => if keys == [] then Finish(w) else Send(w)
    case _ => Finish(w)
  }

  /** The next step of a worker on its way out is enabled and touches nothing but the worker, the group at
      the very end, and the channel. */
  lemma OneStepOut(config: PoolConfig, s: Pool, w: nat)
    requires w in s.workers && (s.stopClosed || s.cancelled) && |s.channel| <= CHANNEL_CAPACITY
    ensures var l := NextLabel(s.workers[w], w);
            && Step(config, s, l).Some?
            && var e := Step(config, s, l).value;
               && |e.channel| <= CHANNEL_CAPACITY
               && e.starters == s.starters && e.stoppers == s.stoppers && e.mutex == s.mutex
               && e.stopClosed == s.stopClosed && e.closes == s.closes && e.cancelled == s.cancelled
               && (if l.Done? then e.workers == s.workers - {w} && e.group == s.group - 1 && Effort(s.workers[w]) == 1
                   else w in e.workers && e.workers - {w} == s.workers - {w} && e.group == s.group
                        && Effort(e.workers[w]) + 1 == Effort(s.workers[w]))
  {
    var e := Step(config, s, NextLabel(s.workers[w], w)).value;
    if w in e.workers {
      assert e.workers - {w} == s.workers - {w};
    }
  }

  /** Once the stop channel is closed or the context cancelled a worker can always walk to its end on its
      own: no send blocks, and no step of it needs the mutex. */
  lemma {:induction false} WorkerCanLeave(config: PoolConfig, s: Pool, w: nat) returns (labels: seq<Label>)
    requires w in s.workers && (s.stopClosed || s.cancelled) && |s.channel| <= CHANNEL_CAPACITY
    ensures Run(config, s, labels).Some? && Without(s, Run(config, s, labels).value, w)
    ensures |labels| == Effort(s.workers[w]) && AllDrain(labels)
    decreases Effort(s.workers[w])
  {
    var l := NextLabel(s.workers[w], w);
    OneStepOut(config, s, w);
    var next := Step(config, s, l).value;
    if l.Done? {
      labels := [l];
      assert Run(config, next, []) == Some(next);
    } else {
      var rest := WorkerCanLeave(config, next, w);
      labels := [l] + rest;
      assert labels[1..] == rest;
    }
  }

  /** All workers can leave while the closing call sits in its wait with the mutex. */
  lemma {:induction false} AllWorkersCanLeave(config: PoolConfig, s: Pool) returns (labels: seq<Label>)
    requires Inv(s) && s.stopClosed
    ensures Run(config, s, labels).Some? && AllDrain(labels)
    ensures var e := Run(config, s, labels).value;
            Inv(e) && e.workers == map[] && e.group == 0 && e.stoppers == s.stoppers && e.mutex == s.mutex && e.stopClosed
    decreases |s.workers|
  {
    if s.workers == map[] {
      labels := [];
    } else {
      var w :| w in s.workers;
      var first := WorkerCanLeave(config, s, w);
      var next := Run(config, s, first).value;
      assert next.workers.Keys == s.workers.Keys - {w};
      assert |next.workers| == |next.workers.Keys| && |s.workers| == |s.workers.Keys|;
      assert Inv(next);
      var rest := AllWorkersCanLeave(config, next);
      labels := first + rest;
      RunConcat(config, s, first, rest);
    }
  }

  function Unfinished(stoppers: map<nat, Stopper>): set<nat> {
    set c | c in stoppers && !stoppers[c].Returned?
  }

  lemma UnfinishedShrinks(stoppers: map<nat, Stopper>, c: nat)
    ensures Unfinished(stoppers[c := Returned]) == Unfinished(stoppers) - {c}
  {
  }

  /** One stop call, the holder of the mutex if there is one, can be brought to its return. */
  lemma OneStopCanReturn(config: PoolConfig, s: Pool, c: nat) returns (labels: seq<Label>)
    requires Inv(s) && c in Unfinished(s.stoppers) && (s.mutex == None || s.mutex == Some(c))
    ensures Run(config, s, labels).Some? && AllDrain(labels)
    ensures var e := Run(config, s, labels).value;
            Inv(e) && e.mutex == None && e.stoppers == s.stoppers[c := Returned]
  {
    if s.stoppers[c].Queued? {
      StopKeepsInv(config, s, Lock(c));
      var next := Step(config, s, Lock(c)).value;
      var rest := LockedStopCanReturn(config, next, c);
      labels := [Lock(c)] + rest;
      assert labels[1..] == rest;
    } else {
      labels := LockedStopCanReturn(config, s, c);
    }
  }

  lemma LockedStopCanReturn(config: PoolConfig, s: Pool, c: nat) returns (labels: seq<Label>)
    requires Inv(s) && c in s.stoppers && (s.stoppers[c].Locked? || s.stoppers[c].Waiting?)
    ensures Run(config, s, labels).Some? && AllDrain(labels)
    ensures var e := Run(config, s, labels).value;
            Inv(e) && e.mutex == None && e.stoppers == s.stoppers[c := Returned]
  {
    if s.stoppers[c].Locked? {
      StopKeepsInv(config, s, Inspect(c));
      var next := Step(config, s, Inspect(c)).value;
      if s.stopClosed {
        labels := [Inspect(c)];
        assert Run(config, next, []) == Some(next);
      } else {
        var rest := WaitCanEnd(config, next, c);
        labels := [Inspect(c)] + rest;
        assert labels[1..] == rest;
      }
    } else {
      labels := WaitCanEnd(config, s, c);
    }
  }

  lemma WaitCanEnd(config: PoolConfig, s: Pool, c: nat) returns (labels: seq<Label>)
    requires Inv(s) && c in s.stoppers && s.stoppers[c].Waiting?
    ensures Run(config, s, labels).Some? && AllDrain(labels)
    ensures var e := Run(config, s, labels).value;
            Inv(e) && e.mutex == None && e.stoppers == s.stoppers[c := Returned]
  {
    var leave := AllWorkersCanLeave(config, s);
    var quiet := Run(config, s, leave).value;
    StopKeepsInv(config, quiet, Return(c));
    var e := Step(config, quiet, Return(c)).value;
    assert Run(config, e, []) == Some(e);
    assert Run(config, quiet, [Return(c)]) == Some(e);
    RunConcat(config, s, leave, [Return(c)]);
    labels := leave + [Return(c)];
  }

  /** Holding the mutex across the wait cannot deadlock: from every reachable state all stop calls,
      however many are queued behind the one that waits, can still run to their return. */
  lemma {:induction false} AllStopsCanReturn(config: PoolConfig, s: Pool) returns (labels: seq<Label>)
    requires Inv(s)
    ensures Run(config, s, labels).Some? && AllDrain(labels)
    ensures var e := Run(config, s, labels).value;
            Inv(e) && Unfinished(e.stoppers) == {} && e.stoppers.Keys == s.stoppers.Keys
    decreases |Unfinished(s.stoppers)|
  {
    if Unfinished(s.stoppers) == {} {
      labels := [];
    } else {
      var c :| c in Unfinished(s.stoppers) && (s.mutex == None || s.mutex == Some(c));
      var first := OneStopCanReturn(config, s, c);
      var next := Run(config, s, first).value;
      UnfinishedShrinks(s.stoppers, c);
      var rest := AllStopsCanReturn(config, next);
      labels := first + rest;
      RunConcat(config, s, first, rest);
    }
  }

  lemma StopCannotDeadlock(config: PoolConfig, past: seq<Label>)
    requires OrderedRun(config, IDLE, past)
    ensures exists future :: Run(config, IDLE, past + future).Some?
                             && Unfinished(Run(config, IDLE, past + future).value.stoppers) == {}
  {
    Reachable(config, IDLE, past);
    var future := AllStopsCanReturn(config, Run(config, IDLE, past).value);
    RunConcat(config, IDLE, past, future);
  }

  // ---------------------------------------------------------------- the order of starts and stops

  /** The same pool with other start calls under way. */
  function WithStarters(s: Pool, starters: map<nat, Starter>): Pool {
    s.(starters := starters)
  }

  lemma DrainIgnoresStarters(config: PoolConfig, s: Pool, l: Label, starters: map<nat, Starter>)
    requires Drains(l) && Step(config, s, l).Some?
    ensures Step(config, WithStarters(s, starters), l) == Some(WithStarters(Step(config, s, l).value, starters))
  {
    match l {
      case Send(_) =>
      case Finish(_) =>
      case Leave(_) =>
      case Done(_) =>
      case _ =>
    }
  }

  lemma {:induction false} RunIgnoresStarters(config: PoolConfig, s: Pool, labels: seq<Label>, starters: map<nat, Starter>)
    requires AllDrain(labels) && Run(config, s, labels).Some?
    ensures Run(config, WithStarters(s, starters), labels) == Some(WithStarters(Run(config, s, labels).value, starters))
    decreases labels
  {
    if labels != [] {
      assert Drains(labels[0]);
      DrainIgnoresStarters(config, s, labels[0], starters);
      RunIgnoresStarters(config, Step(config, s, labels[0]).value, labels[1..], starters);
    }
  }

  predicate NoCalls(labels: seq<Label>) {
    forall l | l in labels :: !l.CallStart? && !l.CallStop?
  }

  lemma {:induction false} NoCallsAreOrdered(config: PoolConfig, s: Pool, labels: seq<Label>)
    requires NoCalls(labels) && Run(config, s, labels).Some?
    ensures OrderedRun(config, s, labels)
    decreases labels
  {
    if labels != [] {
      assert !labels[0].CallStart? && !labels[0].CallStop?;
      NoCallsAreOrdered(config, Step(config, s, labels[0]).value, labels[1..]);
    }
  }

  /** With every stop call returned, the next worker announced and spawned is one no stop waits for. */
  lemma SpawnAfterStops(config: PoolConfig, s: Pool, c: nat)
    requires c in s.starters && !s.starters[c].added && s.workers == map[]
    ensures Run(config, s, [Add(c), Spawn(c, 0)]).Some?
    ensures var e := Run(config, s, [Add(c), Spawn(c, 0)]).value;
            0 in e.workers && e.stoppers == s.stoppers && e.stopClosed == s.stopClosed && e.mutex == s.mutex
  {
    var next := Step(config, s, Add(c)).value;
    var e := Step(config, next, Spawn(c, 0)).value;
    assert [Add(c), Spawn(c, 0)][1..] == [Spawn(c, 0)] && [Spawn(c, 0)][1..] == [];
    assert Run(config, e, []) == Some(e);
    assert Run(config, next, [Spawn(c, 0)]) == Some(e);
  }

  lemma WaiterIsUnfinished(s: Pool)
    ensures InWait(s) ==> s.mutex.value in Unfinished(s.stoppers)
  {
  }

  lemma AllReturned(s: Pool)
    requires Inv(s) && s.stoppers != map[] && Unfinished(s.stoppers) == {}
    ensures s.workers == map[] && forall d | d in s.stoppers :: s.stoppers[d].Returned?
  {
    forall d | d in s.stoppers
      ensures s.stoppers[d].Returned?
    {
      assert d !in Unfinished(s.stoppers);
    }
    var d :| d in s.stoppers;
    WaiterIsUnfinished(s);
  }

  /** All stop calls return while the given start calls rest. */
  lemma DrainBeside(config: PoolConfig, s: Pool, starters: map<nat, Starter>) returns (drain: seq<Label>, e: Pool)
    requires Inv(s) && s.stoppers != map[]
    ensures AllDrain(drain) && Run(config, WithStarters(s, starters), drain) == Some(e)
    ensures e.starters == starters && e.workers == map[] && e.stoppers != map[]
    ensures forall d | d in e.stoppers :: e.stoppers[d].Returned?
  {
    drain := AllStopsCanReturn(config, s);
    var last := Run(config, s, drain).value;
    assert last.stoppers.Keys != {};
    AllReturned(last);
    RunIgnoresStarters(config, s, drain, starters);
    e := WithStarters(last, starters);
  }

  /** After any stop call, however far it got, a start call can outlive every stop: without another call the
      pool comes to a state in which all stops have returned and a worker is alive. */
  lemma LateStartIsNotAwaited(config: PoolConfig, s: Pool, c: nat) returns (labels: seq<Label>)
    requires Inv(s) && config.enableFallback && s.stoppers != map[] && c !in s.starters
    ensures NoCalls(labels) && Run(config, s, [CallStart(c)] + labels).Some?
    ensures var e := Run(config, s, [CallStart(c)] + labels).value;
            e.workers != map[] && e.stoppers != map[] && forall d | d in e.stoppers :: e.stoppers[d].Returned?
  {
    var starters := s.starters[c := Starter(ToSpawn(config), false)];
    var drain, e := DrainBeside(config, s, starters);
    SpawnAfterStops(config, e, c);
    labels := drain + [Add(c), Spawn(c, 0)];
    RunConcat(config, WithStarters(s, starters), drain, [Add(c), Spawn(c, 0)]);
    RunCons(config, s, CallStart(c), labels);
  }

  /** A returned stop call has waited for every worker. */
  predicate StopsAwaitWorkers(s: Pool) {
    (exists d :: d in s.stoppers && s.stoppers[d].Returned?) ==> s.workers == map[] && s.starters == map[]
  }

  /** However the pool goes on after the start call `c`, as long as starts come before stops, no stop call
      returns before the workers are gone. */
  ghost predicate StartIsAwaited(config: PoolConfig, s: Pool, c: nat)
    requires c !in s.starters
  {
    forall labels | OrderedRun(config, Step(config, s, CallStart(c)).value, labels) ::
      Run(config, s, [CallStart(c)] + labels).Some? && StopsAwaitWorkers(Run(config, s, [CallStart(c)] + labels).value)
  }

  lemma InvAwaitsWorkers(s: Pool)
    requires Inv(s) && NoneReturned(s)
    ensures StopsAwaitWorkers(s)
  {
  }

  /** A start call is safe, exactly: in every reachable state it is awaited by all stops to come if and only
      if no stop has been called yet (or the fallback is disabled and it starts nothing). */
  lemma StartIsAwaitedExactly(config: PoolConfig, past: seq<Label>, c: nat)
    requires OrderedRun(config, IDLE, past) && Run(config, IDLE, past).Some? && c !in Run(config, IDLE, past).value.starters
    ensures StartIsAwaited(config, Run(config, IDLE, past).value, c)
            <==> !config.enableFallback || Run(config, IDLE, past).value.stoppers == map[]
  {
    Reachable(config, IDLE, past);
    NoReturnDuringWait(config, IDLE, past);
    var s := Run(config, IDLE, past).value;
    var e := Step(config, s, CallStart(c)).value;
    if !config.enableFallback || s.stoppers == map[] {
      if config.enableFallback {
        OtherKeepsInv(config, s, CallStart(c));
      }
      forall labels | OrderedRun(config, e, labels)
        ensures Run(config, s, [CallStart(c)] + labels).Some?
        ensures StopsAwaitWorkers(Run(config, s, [CallStart(c)] + labels).value)
      {
        RunCons(config, s, CallStart(c), labels);
        Reachable(config, e, labels);
        NoReturnDuringWait(config, e, labels);
        InvAwaitsWorkers(Run(config, e, labels).value);
      }
    } else {
      var labels := LateStartIsNotAwaited(config, s, c);
      RunCons(config, s, CallStart(c), labels);
      NoCallsAreOrdered(config, e, labels);
      var last := Run(config, s, [CallStart(c)] + labels).value;
      var d :| d in last.stoppers;
      assert !StopsAwaitWorkers(last);
    }
  }

  lemma StopOnIdle(config: PoolConfig, d: nat)
    ensures Run(config, IDLE, [CallStop(d), Lock(d), Inspect(d), Return(d)])
         == Some(IDLE.(stopClosed := true, closes := 1, stoppers := map[d := Returned]))
  {
    var x1 := Step(config, IDLE, CallStop(d)).value;
    var x2 := Step(config, x1, Lock(d)).value;
    var x3 := Step(config, x2, Inspect(d)).value;
    FourSteps(config, IDLE, CallStop(d), Lock(d), Inspect(d), Return(d));
    assert Step(config, x3, Return(d)).value.stoppers == map[d := Returned];
  }

  lemma QuickStop(config: PoolConfig, s: Pool, d: nat)
    requires s.stopClosed && s.mutex == None && d !in s.stoppers
    ensures Run(config, s, [CallStop(d), Lock(d), Inspect(d)]) == Some(s.(stoppers := s.stoppers[d := Returned]))
  {
    var y1 := Step(config, s, CallStop(d)).value;
    var y2 := Step(config, y1, Lock(d)).value;
    var y3 := Step(config, y2, Inspect(d)).value;
    assert y3.stoppers == s.stoppers[d := Returned];
    assert [Inspect(d)][1..] == [] && Run(config, y3, []) == Some(y3);
    assert [Lock(d), Inspect(d)][1..] == [Inspect(d)];
    assert [CallStop(d), Lock(d), Inspect(d)][1..] == [Lock(d), Inspect(d)];
    assert Run(config, y2, [Inspect(d)]) == Some(y3);
    assert Run(config, y1, [Lock(d), Inspect(d)]) == Some(y3);
  }

  /** For instance, after one stop on an idle pool: the worker of a late start is alive when the next stop
      call has returned. */
  lemma LateStartOutlivesStop(config: PoolConfig)
    requires config.enableFallback
    ensures var stopFirst := [CallStop(0), Lock(0), Inspect(0), Return(0)];
            var startLate := [CallStart(0)] + ([Add(0), Spawn(0, 0)] + [CallStop(1), Lock(1), Inspect(1)]);
            && Run(config, IDLE, stopFirst).Some?
            && Run(config, Run(config, IDLE, stopFirst).value, startLate).Some?
            && var e := Run(config, Run(config, IDLE, stopFirst).value, startLate).value;
               1 in e.stoppers && e.stoppers[1].Returned? && 0 in e.workers
  {
    StopOnIdle(config, 0);
    var s := IDLE.(stopClosed := true, closes := 1, stoppers := map[0 := Returned]);
    var e := Step(config, s, CallStart(0)).value;
    SpawnAfterStops(config, e, 0);
    var spawned := Run(config, e, [Add(0), Spawn(0, 0)]).value;
    QuickStop(config, spawned, 1);
    RunConcat(config, e, [Add(0), Spawn(0, 0)], [CallStop(1), Lock(1), Inspect(1)]);
    RunCons(config, s, CallStart(0), [Add(0), Spawn(0, 0)] + [CallStop(1), Lock(1), Inspect(1)]);
  }

  lemma FourSteps(config: PoolConfig, s: Pool, a: Label, b: Label, c: Label, d: Label)
    requires Step(config, s, a).Some? && Step(config, Step(config, s, a).value, b).Some?
    requires var s2 := Step(config, Step(config, s, a).value, b).value;
             Step(config, s2, c).Some? && Step(config, Step(config, s2, c).value, d).Some?
    ensures var s2 := Step(config, Step(config, s, a).value, b).value;
            Run(config, s, [a, b, c, d]) == Step(config, Step(config, s2, c).value, d)
  {
    assert [a, b, c, d][1..] == [b, c, d] && [b, c, d][1..] == [c, d] && [c, d][1..] == [d] && [d][1..] == [];
    var s1 := Step(config, s, a).value;
    var s2 := Step(config, s1, b).value;
    var s3 := Step(config, s2, c).value;
    assert Run(config, s3, [d]) == Run(config, Step(config, s3, d).value, []);
    assert Run(config, s2, [c, d]) == Run(config, s3, [d]);
    assert Run(config, s1, [b, c, d]) == Run(config, s2, [c, d]);
  }

  // ---------------------------------------------------------------- what a start brings

  /** The live workers of a role. */
  function InRole(s: Pool, role: Role): set<nat> {
    set w | w in s.workers && s.workers[w].role == role
  }

  /** The step belongs to the start call `c`. */
  predicate OfStart(l: Label, c: nat) {
    l == Add(c) || (l.Spawn? && l.call == c)
  }

  /** From `s` to `e` the workers that were there stayed as they were, and so many came. */
  predicate Brought(s: Pool, e: Pool, refreshers: nat, cleaners: nat) {
    && (forall w | w in s.workers :: w in e.workers && e.workers[w] == s.workers[w])
    && |InRole(e, Refresher)| == |InRole(s, Refresher)| + refreshers
    && |InRole(e, Cleaner)| == |InRole(s, Cleaner)| + cleaners
  }

  lemma RoleUpdate(s: Pool, e: Pool, w: nat, role: Role, other: Role)
    requires w !in s.workers && e.workers == s.workers[w := Selecting(role)]
    ensures |InRole(e, other)| == |InRole(s, other)| + if role == other then 1 else 0
  {
    if role == other {
      assert InRole(e, other) == InRole(s, other) + {w} && w !in InRole(s, other);
    } else {
      assert InRole(e, other) == InRole(s, other);
    }
  }

  lemma OneMoreInRole(s: Pool, e: Pool, w: nat, role: Role)
    requires w !in s.workers && e.workers == s.workers[w := Selecting(role)]
    ensures Brought(s, e, if role == Refresher then 1 else 0, if role == Cleaner then 1 else 0)
  {
    RoleUpdate(s, e, w, role, Refresher);
    RoleUpdate(s, e, w, role, Cleaner);
  }

  lemma StartStep(config: PoolConfig, s: Pool, l: Label, c: nat)
    requires c in s.starters && s.starters[c].remaining >= 1 && OfStart(l, c) && Step(config, s, l).Some?
    ensures var e, left := Step(config, s, l).value, s.starters[c].remaining;
            && e.starters - {c} == s.starters - {c}
            && (if l.Add? then c in e.starters && e.starters[c].remaining == left && Brought(s, e, 0, 0)
                else if left > 1 then c in e.starters && e.starters[c].remaining == left - 1 && Brought(s, e, 1, 0)
                else c !in e.starters && Brought(s, e, 0, 1))
  {
    var e := Step(config, s, l).value;
    if l.Spawn? {
      OneMoreInRole(s, e, l.worker, if s.starters[c].remaining > 1 then Refresher else Cleaner);
    }
    if c in e.starters {
      assert e.starters - {c} == s.starters - {c};
    }
  }

  lemma {:induction false} StartRuns(config: PoolConfig, s: Pool, c: nat, labels: seq<Label>)
    requires c in s.starters && s.starters[c].remaining >= 1
    requires (forall l | l in labels :: OfStart(l, c)) && Run(config, s, labels).Some?
    ensures var e, left := Run(config, s, labels).value, s.starters[c].remaining;
            && e.starters - {c} == s.starters - {c}
            && (if c in e.starters then 1 <= e.starters[c].remaining <= left && Brought(s, e, left - e.starters[c].remaining, 0)
                else Brought(s, e, left - 1, 1))
    decreases labels
  {
    if labels != [] {
      var next := Step(config, s, labels[0]).value;
      StartStep(config, s, labels[0], c);
      if c in next.starters {
        StartRuns(config, next, c, labels[1..]);
      } else {
        NothingMoreOfStart(config, next, c, labels[1..]);
      }
    }
  }

  /** A start call that is through takes no further step. */
  lemma NothingMoreOfStart(config: PoolConfig, s: Pool, c: nat, labels: seq<Label>)
    requires c !in s.starters
    ensures labels != [] && OfStart(labels[0], c) ==> Run(config, s, labels).None?
  {
  }

  /** A start call that is through has brought exactly the configured number of refresh workers, none if
      that is negative, and one cleanup worker, and left the others as they were. */
  lemma StartSpawnsExactly(config: PoolConfig, s: Pool, c: nat, labels: seq<Label>)
    requires config.enableFallback && c !in s.starters && forall l | l in labels :: OfStart(l, c)
    requires Run(config, s, [CallStart(c)] + labels).Some?
    ensures var e := Run(config, s, [CallStart(c)] + labels).value;
            c !in e.starters ==>
              e.starters == s.starters && Brought(s, e, if config.refreshWorkers > 0 then config.refreshWorkers else 0, 1)
  {
    RunCons(config, s, CallStart(c), labels);
    var next := Step(config, s, CallStart(c)).value;
    StartRuns(config, next, c, labels);
    var e := Run(config, next, labels).value;
    assert next.starters - {c} == s.starters;
    if c !in e.starters {
      assert e.starters - {c} == e.starters;
    }
    assert InRole(next, Refresher) == InRole(s, Refresher) && InRole(next, Cleaner) == InRole(s, Cleaner);
  }

  /** A start call is never held up: from every state it can run to its end. */
  lemma {:induction false} StartCanFinish(config: PoolConfig, s: Pool, c: nat) returns (labels: seq<Label>)
    requires c in s.starters
    ensures (forall l | l in labels :: OfStart(l, c)) && Run(config, s, labels).Some?
    ensures c !in Run(config, s, labels).value.starters
    decreases s.starters[c].remaining, if s.starters[c].added then 0 else 1
  {
    var w := UnusedNumber(s.workers.Keys);
    var l := if s.starters[c].added then Spawn(c, w) else Add(c);
    var next := Step(config, s, l).value;
    labels := [];
    if c in next.starters {
      labels := StartCanFinish(config, next, c);
    } else {
      assert Run(config, next, labels) == Some(next);
    }
    RunCons(config, s, l, labels);
    labels := [l] + labels;
  }

  /** With the fallback disabled a start call does nothing. */
  lemma DisabledStartDoesNothing(config: PoolConfig, s: Pool, c: nat)
    requires !config.enableFallback && c !in s.starters
    ensures Step(config, s, CallStart(c)) == Some(s)
  {
  }

  // ---------------------------------------------------------------- roles, and who may leave

  /** Only refresh workers refresh and queue keys, only the cleanup worker sweeps, and a worker has left
      its loop only if the stop channel is closed or the context cancelled. */
  predicate Fits(s: Pool, p: Worker) {
    && (p.Refreshing? || p.Sending? ==> p.role == Refresher)
    && (p.Sweeping? ==> p.role == Cleaner)
    && (p.Returning? ==> s.stopClosed || s.cancelled)
  }

  predicate AllFit(s: Pool) {
    forall w | w in s.workers :: Fits(s, s.workers[w])
  }

  lemma StepFits(config: PoolConfig, s: Pool, l: Label)
    requires AllFit(s) && Step(config, s, l).Some?
    ensures AllFit(Step(config, s, l).value)
    ensures forall w | w in s.workers && w in Step(config, s, l).value.workers ::
              Step(config, s, l).value.workers[w].role == s.workers[w].role
  {
    var e := Step(config, s, l).value;
    forall w | w in e.workers
      ensures Fits(e, e.workers[w])
    {
      if w in s.workers {
        assert Fits(s, s.workers[w]);
      }
    }
  }

  lemma {:induction false} RunFits(config: PoolConfig, s: Pool, labels: seq<Label>)
    requires AllFit(s) && Run(config, s, labels).Some?
    ensures AllFit(Run(config, s, labels).value)
    decreases labels
  {
    if labels != [] {
      StepFits(config, s, labels[0]);
      RunFits(config, Step(config, s, labels[0]).value, labels[1..]);
    }
  }

  /** The context is cancelled exactly by a cancellation, and stays so. */
  lemma {:induction false} CancelledExactly(config: PoolConfig, s: Pool, labels: seq<Label>)
    requires Run(config, s, labels).Some?
    ensures Run(config, s, labels).value.cancelled <==> s.cancelled || Cancel in labels
    decreases labels
  {
    if labels != [] {
      var next := Step(config, s, labels[0]).value;
      CancelStep(config, s, labels[0]);
      CancelledExactly(config, next, labels[1..]);
      assert labels == [labels[0]] + labels[1..];
    }
  }

  lemma CancelStep(config: PoolConfig, s: Pool, l: Label)
    requires Step(config, s, l).Some?
    ensures Step(config, s, l).value.cancelled <==> s.cancelled || l == Cancel
  {
  }

  /** A cancelled context lets every worker go, without any stop call: the one in question in as many steps
      as it has pending keys and a few more. */
  lemma CancelledWorkerCanLeave(config: PoolConfig, past: seq<Label>, w: nat) returns (labels: seq<Label>)
    requires OrderedRun(config, IDLE, past) && Cancel in past
    requires Run(config, IDLE, past).Some? && w in Run(config, IDLE, past).value.workers
    ensures Run(config, IDLE, past + labels).Some? && w !in Run(config, IDLE, past + labels).value.workers
    ensures AllDrain(labels)
  {
    Reachable(config, IDLE, past);
    CancelledExactly(config, IDLE, past);
    var s := Run(config, IDLE, past).value;
    labels := WorkerCanLeave(config, s, w);
    RunConcat(config, IDLE, past, labels);
  }

  // ---------------------------------------------------------------- the refresh channel

  /** The key a step takes from the channel, and the key it gets into it: a full channel refuses. */
  function Taken(s: Pool, l: Label): seq<string> {
    if l.Receive? && s.channel != [] then [s.channel[0]] else []
  }

  function Put(s: Pool, l: Label): seq<string> {
    if l.Send? && l.worker in s.workers && s.workers[l.worker].Sending? && s.workers[l.worker].keys != [] && |s.channel| < 1000
    then [s.workers[l.worker].keys[0]] else []
  }

  /** The keys the workers receive over a run, in order. */
  function Received(config: PoolConfig, s: Pool, labels: seq<Label>): seq<string>
    requires Run(config, s, labels).Some?
    decreases labels
  {
    if labels == [] then []
    else Taken(s, labels[0]) + Received(config, Step(config, s, labels[0]).value, labels[1..])
  }

  /** The keys the channel accepts over a run, in the order they are sent. */
  function Accepted(config: PoolConfig, s: Pool, labels: seq<Label>): seq<string>
    requires Run(config, s, labels).Some?
    decreases labels
  {
    if labels == [] then []
    else Put(s, labels[0]) + Accepted(config, Step(config, s, labels[0]).value, labels[1..])
  }

  lemma ChannelStep(config: PoolConfig, s: Pool, l: Label)
    requires Step(config, s, l).Some?
    ensures s.channel + Put(s, l) == Taken(s, l) + Step(config, s, l).value.channel
  {
    if l.Receive? {
      assert s.channel == [s.channel[0]] + s.channel[1..];
    }
  }

  lemma Chain(channel: seq<string>, put: seq<string>, taken: seq<string>, next: seq<string>,
              accepted: seq<string>, received: seq<string>, left: seq<string>)
    requires channel + put == taken + next && next + accepted == received + left
    ensures channel + (put + accepted) == (taken + received) + left
  {
    assert channel + (put + accepted) == (channel + put) + accepted;
    assert (taken + next) + accepted == taken + (next + accepted);
    assert taken + (received + left) == (taken + received) + left;
  }

  /** The channel is a queue: over any run, what was in it followed by what it accepted is what was
      received followed by what is still in it; a key is refused only while 1000 are queued. */
  lemma {:induction false} ChannelIsQueue(config: PoolConfig, s: Pool, labels: seq<Label>)
    requires Run(config, s, labels).Some?
    ensures s.channel + Accepted(config, s, labels)
         == Received(config, s, labels) + Run(config, s, labels).value.channel
    decreases labels
  {
    if labels != [] {
      var next := Step(config, s, labels[0]).value;
      ChannelIsQueue(config, next, labels[1..]);
      ChannelStep(config, s, labels[0]);
      Chain(s.channel, Put(s, labels[0]), Taken(s, labels[0]), next.channel, Accepted(config, next, labels[1..]),
            Received(config, next, labels[1..]), Run(config, s, labels).value.channel);
    }
  }

  /** A worker refreshes the key it took and is then free again; meanwhile it takes no other. */
  lemma RefreshTakesFirst(config: PoolConfig, s: Pool, w: nat)
    requires w in s.workers && s.workers[w] == Selecting(Refresher) && s.channel != []
    ensures Run(config, s, [Receive(w), Finish(w)]) == Some(s.(channel := s.channel[1..]))
    ensures Step(config, s, Receive(w)).Some? && Step(config, Step(config, s, Receive(w)).value, Receive(w)).None?
  {
    var next := Step(config, s, Receive(w)).value;
    assert [Receive(w), Finish(w)] == [Receive(w)] + [Finish(w)] && [Finish(w)] == [Finish(w)] + [];
    RunCons(config, s, Receive(w), [Finish(w)]);
    RunCons(config, next, Finish(w), []);
    assert next.workers[w := Selecting(Refresher)] == s.workers;
  }

  function Sends(w: nat, n: nat): seq<Label> {
    seq(n, _ => Send(w))
  }

  lemma {:induction false} SendAll(config: PoolConfig, s: Pool, w: nat, keys: seq<string>)
    requires w in s.workers && s.workers[w] == Sending(Refresher, keys) && |s.channel| <= 1000
    ensures Run(config, s, Sends(w, |keys|))
         == Some(s.(channel := s.channel + keys[..Min(|keys|, 1000 - |s.channel|)],
                    workers := s.workers[w := Sending(Refresher, [])]))
    decreases |keys|
  {
    if keys == [] {
      assert s.channel + [] == s.channel && s.workers[w := s.workers[w]] == s.workers;
    } else {
      var next := Step(config, s, Send(w)).value;
      SendAll(config, next, w, keys[1..]);
      assert Sends(w, |keys|) == [Send(w)] + Sends(w, |keys| - 1);
      RunCons(config, s, Send(w), Sends(w, |keys| - 1));
      SentSoFar(s.channel, next.channel, keys);
      assert next.workers[w := Sending(Refresher, [])] == s.workers[w := Sending(Refresher, [])];
    }
  }

  lemma SentSoFar(before: seq<string>, after: seq<string>, keys: seq<string>)
    requires keys != [] && |before| <= 1000
    requires after == if |before| < 1000 then before + [keys[0]] else before
    ensures after + keys[1..][..Min(|keys| - 1, 1000 - |after|)] == before + keys[..Min(|keys|, 1000 - |before|)]
  {
    if |before| < 1000 {
      var n := Min(|keys|, 1000 - |before|);
      assert keys[..n] == [keys[0]] + keys[1..][..n - 1];
    }
  }

  /** A tick queues the keys about to expire in their order, as many as the channel has room for, passes the
      rest over, and leaves the worker free again. */
  lemma TickQueues(config: PoolConfig, s: Pool, w: nat, keys: seq<string>)
    requires w in s.workers && s.workers[w] == Selecting(Refresher) && |s.channel| <= 1000
    ensures Run(config, s, [Tick(w, keys)] + (Sends(w, |keys|) + [Finish(w)]))
         == Some(s.(channel := s.channel + keys[..Min(|keys|, 1000 - |s.channel|)]))
  {
    var ticked := Step(config, s, Tick(w, keys)).value;
    SendAll(config, ticked, w, keys);
    var sent := Run(config, ticked, Sends(w, |keys|)).value;
    RunCons(config, s, Tick(w, keys), Sends(w, |keys|) + [Finish(w)]);
    RunConcat(config, ticked, Sends(w, |keys|), [Finish(w)]);
    assert [Finish(w)] == [Finish(w)] + [];
    RunCons(config, sent, Finish(w), []);
    assert sent.workers[w := Selecting(Refresher)] == s.workers;
  }
}
