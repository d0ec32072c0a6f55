/** Any number of `Allow` calls in flight at once. A call takes a global token, is judged by its
    address, and refunds the token when it is turned away: three separately locked steps, between
    which other calls, the cleanup routine and statistics readers run. */
module LimiterRuns {
  import opened Prelude
  import opened TokenBuckets
  import opened RateLimiters

  /** Where an unfinished call stands: it holds a global token in both phases. */
  datatype Call = Holding(ip: string) | Refunding(ip: string)

  datatype System = System(limiter: Limiter, calls: map<nat, Call>, admitted: nat)

  datatype Label =
    | Acquire(call: nat, ip: string, at: int)
    | Decide(call: nat, at: int)
    | Refund(call: nat)
    | Collect(at: int)
    | Observe(at: int)

  /** What a step lets an outside observer see. */
  datatype Outcome =
    | Nothing
    | Acquired(ip: string)
    | RejectedGlobally(ip: string)
    | Admitted(ip: string)
    | RejectedByIP(ip: string)
    | Seen(globalTokens: int)

  function Init(config: Config, start: int): System {
    System(New(config, start), map[], 0)
  }

  /** One locked step. A label whose call is not at the right point does nothing, and neither does
      `Collect` when the cleanup routine is absent. */
  function Step(s: System, l: Label, collecting: bool): (System, Outcome) {
    match l
    case Acquire(c, ip, at) =>
      if c in s.calls then (s, Nothing)
      else
        var (lim, ok) := TakeGlobal(s.limiter, at);
        if ok then (s.(limiter := lim, calls := s.calls[c := Holding(ip)]), Acquired(ip))
        else (s.(limiter := lim), RejectedGlobally(ip))
    case Decide(c, at) =>
      if c !in s.calls || s.calls[c].Refunding? then (s, Nothing)
      else
        var ip := s.calls[c].ip;
        var (lim, ok) := AllowIP(s.limiter, ip, at);
        if ok then (System(lim, s.calls - {c}, s.admitted + 1), Admitted(ip))
        else (s.(limiter := lim, calls := s.calls[c := Refunding(ip)]), RejectedByIP(ip))
    case Refund(c) =>
      if c !in s.calls || s.calls[c].Holding? then (s, Nothing)
      else (s.(limiter := ReturnGlobalToken(s.limiter), calls := s.calls - {c}), Nothing)
    case Collect(at) =>
      (if collecting then s.(limiter := Cleanup(s.limiter, at)) else s, Nothing)
    case Observe(at) =>
      var lim := Stats(s.limiter, at);
      (s.(limiter := lim), Seen(lim.global.tokens))
  }

  function Run(s: System, labels: seq<Label>, collecting: bool): System
    decreases labels
  {
    if labels == [] then s else Run(Step(s, labels[0], collecting).0, labels[1..], collecting)
  }

  function Outcomes(s: System, labels: seq<Label>, collecting: bool): (o: seq<Outcome>)
    ensures |o| == |labels|
    decreases labels
  {
    if labels == [] then []
    else
      var (next, seen) := Step(s, labels[0], collecting);
      [seen] + Outcomes(next, labels[1..], collecting)
  }

  lemma {:induction false} RunConcat(s: System, x: seq<Label>, y: seq<Label>, collecting: bool)
    ensures Run(s, x + y, collecting) == Run(Run(s, x, collecting), y, collecting)
    ensures Outcomes(s, x + y, collecting) == Outcomes(s, x, collecting) + Outcomes(Run(s, x, collecting), y, collecting)
    decreases x
  {
    if x == [] {
      assert x + y == y;
    } else {
      assert (x + y)[1..] == x[1..] + y;
      RunConcat(Step(s, x[0], collecting).0, x[1..], y, collecting);
    }
  }

  lemma ThreeSteps(s: System, a: Label, b: Label, c: Label, collecting: bool)
    ensures var s1 := Step(s, a, collecting);
            var s2 := Step(s1.0, b, collecting);
            var s3 := Step(s2.0, c, collecting);
            && Outcomes(s, [a, b, c], collecting) == [s1.1, s2.1, s3.1]
            && Run(s, [a, b, c], collecting) == s3.0
  {
    var s1 := Step(s, a, collecting);
    var s2 := Step(s1.0, b, collecting);
    assert [a, b, c][1..] == [b, c] && [b, c][1..] == [c] && [c][1..] == [];
    assert Outcomes(s2.0, [c], collecting) == [Step(s2.0, c, collecting).1];
    assert Outcomes(s1.0, [b, c], collecting) == [s2.1] + Outcomes(s2.0, [c], collecting);
    assert Outcomes(s, [a, b, c], collecting) == [s1.1] + Outcomes(s1.0, [b, c], collecting);
    assert Run(s2.0, [c], collecting) == Step(s2.0, c, collecting).0;
  }

  /** A call nobody interferes with goes through exactly the sequential `Allow`. */
  lemma UndisturbedCall(s: System, c: nat, ip: string, t1: int, t2: int, collecting: bool)
    requires c !in s.calls
    ensures var labels := [Acquire(c, ip, t1), Decide(c, t2), Refund(c)];
            var (lim, ok) := Allow(s.limiter, ip, t1, t2);
            && Run(s, labels, collecting).limiter == lim
            && Run(s, labels, collecting).calls == s.calls
            && Outcomes(s, labels, collecting)
               == if Refill(s.limiter.global, t1).tokens < 1 then [RejectedGlobally(ip), Nothing, Nothing]
                  else [Acquired(ip), if ok then Admitted(ip) else RejectedByIP(ip), Nothing]
  {
    ThreeSteps(s, Acquire(c, ip, t1), Decide(c, t2), Refund(c), collecting);
    assert s.calls[c := Holding(ip)] - {c} == s.calls;
    assert s.calls[c := Holding(ip)][c := Refunding(ip)] - {c} == s.calls;
  }

  // ---------------------------------------------------------------- conservation of global tokens

  /** Every global token is in the bucket, held by an unfinished call, or was spent on an admission. */
  function Accounted(s: System): int {
    s.admitted + |s.calls| + s.limiter.global.tokens
  }

  /** What one step may do to the global bucket and to the tokens accounted for. */
  predicate Conserves(s: System, e: System) {
    var g, h := s.limiter.global, e.limiter.global;
    && h.Valid() && h.capacity == g.capacity && h.rate == g.rate && g.lastRefill <= h.lastRefill
    && NANOS * (Accounted(e) - Accounted(s)) <= g.rate * (h.lastRefill - g.lastRefill)
  }

  lemma AcquireConserves(s: System, l: Label, collecting: bool)
    requires s.limiter.global.Valid() && l.Acquire?
    ensures Conserves(s, Step(s, l, collecting).0)
  {
    RefillBudget(s.limiter.global, l.at);
    if l.call !in s.calls {
      assert |s.calls[l.call := Holding(l.ip)]| == |s.calls| + 1;
    }
  }

  lemma ForgetCall(calls: map<nat, Call>, c: nat)
    requires c in calls
    ensures |calls - {c}| == |calls| - 1
  {
    assert (calls - {c}).Keys == calls.Keys - {c};
    assert |calls.Keys| == |calls|;
  }

  lemma FinishConserves(s: System, l: Label, collecting: bool)
    requires s.limiter.global.Valid() && (l.Decide? || l.Refund?)
    ensures Conserves(s, Step(s, l, collecting).0)
  {
    var g := s.limiter.global;
    assert g.rate * (g.lastRefill - g.lastRefill) == 0;
    if l.call in s.calls {
      ForgetCall(s.calls, l.call);
      assert |s.calls[l.call := Refunding(s.calls[l.call].ip)]| == |s.calls|;
    }
  }

  lemma StepConserves(s: System, l: Label, collecting: bool)
    requires s.limiter.global.Valid()
    ensures Conserves(s, Step(s, l, collecting).0)
  {
    match l
    case Acquire(_, _, _) => AcquireConserves(s, l, collecting);
    case Observe(at) => RefillBudget(s.limiter.global, at);
    case Decide(_, _) => FinishConserves(s, l, collecting);
    case Refund(_) => FinishConserves(s, l, collecting);
    case Collect(_) => assert s.limiter.global.rate * 0 == 0;
  }

  /** Over any interleaving tokens are created only by the passage of time. */
  lemma {:induction false} RunConserves(s: System, labels: seq<Label>, collecting: bool)
    requires s.limiter.global.Valid()
    ensures Conserves(s, Run(s, labels, collecting))
    decreases labels
  {
    if labels != [] {
      StepConserves(s, labels[0], collecting);
      var m := Step(s, labels[0], collecting).0;
      RunConserves(m, labels[1..], collecting);
      var g, h, k := s.limiter.global, m.limiter.global, Run(s, labels, collecting).limiter.global;
      assert g.rate * (k.lastRefill - g.lastRefill)
          == g.rate * (h.lastRefill - g.lastRefill) + g.rate * (k.lastRefill - h.lastRefill);
    }
  }

  /** Global conservation under every interleaving of every number of calls. */
  lemma GlobalConservation(config: Config, start: int, labels: seq<Label>, collecting: bool)
    requires config.Valid()
    ensures var e := Run(Init(config, start), labels, collecting);
            var g := e.limiter.global;
            && 0 <= g.tokens <= config.globalCapacity
            && NANOS * (e.admitted + |e.calls| + g.tokens - config.globalCapacity)
               <= config.globalRefillRate * (g.lastRefill - start)
  {
    RunConserves(Init(config, start), labels, collecting);
  }

  function CountAdmitted(outcomes: seq<Outcome>): nat {
    if outcomes == [] then 0
    else (if outcomes[0].Admitted? then 1 else 0) + CountAdmitted(outcomes[1..])
  }

  lemma {:induction false} AdmittedIsCounted(s: System, labels: seq<Label>, collecting: bool)
    ensures Run(s, labels, collecting).admitted == s.admitted + CountAdmitted(Outcomes(s, labels, collecting))
    decreases labels
  {
    if labels != [] {
      AdmittedIsCounted(Step(s, labels[0], collecting).0, labels[1..], collecting);
    }
  }

  // ---------------------------------------------------------------- refunds

  /** Tokens the global bucket is credited by a step. */
  function CreditedBy(s: System, l: Label): int {
    match l
    case Acquire(c, _, at) => if c in s.calls then 0 else Refill(s.limiter.global, at).tokens - s.limiter.global.tokens
    case Observe(at) => Refill(s.limiter.global, at).tokens - s.limiter.global.tokens
    case _ => 0
  }

  predicate Refunds(s: System, l: Label) {
    l.Refund? && l.call in s.calls && s.calls[l.call].Refunding?
  }

  /** The step is a refund that finds the bucket full: its token disappears. */
  predicate LosesRefund(s: System, l: Label) {
    Refunds(s, l) && s.limiter.global.tokens >= s.limiter.global.capacity
  }

  function Credited(s: System, labels: seq<Label>, collecting: bool): int
    decreases labels
  {
    if labels == [] then 0
    else CreditedBy(s, labels[0]) + Credited(Step(s, labels[0], collecting).0, labels[1..], collecting)
  }

  function Lost(s: System, labels: seq<Label>, collecting: bool): nat
    decreases labels
  {
    if labels == [] then 0
    else (if LosesRefund(s, labels[0]) then 1 else 0) + Lost(Step(s, labels[0], collecting).0, labels[1..], collecting)
  }

  lemma FinishLedger(s: System, l: Label, collecting: bool)
    requires l.Decide? || l.Refund?
    ensures Accounted(Step(s, l, collecting).0) == Accounted(s) - (if LosesRefund(s, l) then 1 else 0)
  {
    if l.call in s.calls {
      ForgetCall(s.calls, l.call);
      if l.Decide? && s.calls[l.call].Holding? {
        assert |s.calls[l.call := Refunding(s.calls[l.call].ip)]| == |s.calls|;
      }
    }
  }

  lemma StepLedger(s: System, l: Label, collecting: bool)
    ensures var e := Step(s, l, collecting).0;
            Accounted(e) == Accounted(s) + CreditedBy(s, l) - (if LosesRefund(s, l) then 1 else 0)
  {
    if l.Decide? || l.Refund? {
      FinishLedger(s, l, collecting);
    } else if l.Acquire? && l.call !in s.calls {
      assert |s.calls[l.call := Holding(l.ip)]| == |s.calls| + 1;
    }
  }

  /** A refund is kept if and only if the bucket has room when it arrives: then, and only then, the tokens
      accounted for stay the same. */
  lemma RefundKeptExactly(s: System, c: nat, collecting: bool)
    requires c in s.calls && s.calls[c].Refunding?
    ensures Accounted(Step(s, Refund(c), collecting).0) == Accounted(s)
            <==> s.limiter.global.tokens < s.limiter.global.capacity
  {
    StepLedger(s, Refund(c), collecting);
  }

  /** The exact ledger of any interleaving: tokens accounted for change by what was credited, less one for
      every refund lost. */
  lemma {:induction false} RunLedger(s: System, labels: seq<Label>, collecting: bool)
    ensures Accounted(Run(s, labels, collecting))
         == Accounted(s) + Credited(s, labels, collecting) - Lost(s, labels, collecting)
    decreases labels
  {
    if labels != [] {
      StepLedger(s, labels[0], collecting);
      RunLedger(Step(s, labels[0], collecting).0, labels[1..], collecting);
    }
  }

  /** The bucket has room for every token that calls in flight may give back. */
  predicate RoomForRefunds(s: System) {
    s.limiter.global.tokens + |s.calls| <= s.limiter.global.capacity
  }

  /** No step of the run credits the bucket. */
  predicate Uncredited(s: System, labels: seq<Label>, collecting: bool)
    decreases labels
  {
    labels == [] ||
    (CreditedBy(s, labels[0]) == 0 && Uncredited(Step(s, labels[0], collecting).0, labels[1..], collecting))
  }

  lemma StepKeepsRoom(s: System, l: Label, collecting: bool)
    requires RoomForRefunds(s) && CreditedBy(s, l) == 0
    ensures var e := Step(s, l, collecting).0;
            !LosesRefund(s, l) && RoomForRefunds(e) && e.limiter.global.capacity == s.limiter.global.capacity
  {
    StepLedger(s, l, collecting);
    if Refunds(s, l) {
      ForgetCall(s.calls, l.call);
    }
  }

  /** As long as the bucket is not credited, a run that starts with room loses no refund, and no token at
      all: what was there is in the bucket, in flight, or spent on an admission. */
  lemma {:induction false} UncreditedRunKeepsTokens(s: System, labels: seq<Label>, collecting: bool)
    requires RoomForRefunds(s) && Uncredited(s, labels, collecting)
    ensures var e := Run(s, labels, collecting);
            && Lost(s, labels, collecting) == 0 && RoomForRefunds(e)
            && Accounted(e) == Accounted(s)
            && e.limiter.global.capacity == s.limiter.global.capacity
            && e.limiter.global.tokens + |e.calls| + (e.admitted - s.admitted) <= s.limiter.global.capacity
    decreases labels
  {
    if labels != [] {
      StepKeepsRoom(s, labels[0], collecting);
      StepLedger(s, labels[0], collecting);
      UncreditedRunKeepsTokens(Step(s, labels[0], collecting).0, labels[1..], collecting);
    }
  }

  /** A caller can tell such a run by the clock: nothing is credited before one token is earned. */
  lemma {:induction false} ShortRunIsUncredited(s: System, labels: seq<Label>, clock: int, collecting: bool)
    requires s.limiter.global.Valid() && Monotone(clock, labels)
    requires s.limiter.global.rate * (Clock(clock, labels) - s.limiter.global.lastRefill) < NANOS
    ensures Uncredited(s, labels, collecting)
    decreases labels
  {
    if labels != [] {
      var g, next := s.limiter.global, Tick(clock, labels[0]);
      ClockAdvances(next, labels[1..]);
      MulMonotone(g.rate, next - g.lastRefill, Clock(clock, labels) - g.lastRefill);
      TooSoonToCredit(g, next);
      var e := Step(s, labels[0], collecting).0;
      assert e.limiter.global.rate == g.rate && e.limiter.global.lastRefill == g.lastRefill;
      StepConserves(s, labels[0], collecting);
      ShortRunIsUncredited(e, labels[1..], next, collecting);
    }
  }

  lemma TooSoonToCredit(b: Bucket, now: int)
    requires b.Valid() && b.rate * (now - b.lastRefill) < NANOS
    ensures Refill(b, now) == b
  {
    if b.lastRefill < now {
      MulNonNegative(b.rate, now - b.lastRefill);
      RefillMeaning(b, now, 0);
    }
  }

  /** The given calls give their tokens back, one after the other. */
  function RefundsInARow(calls: seq<nat>): seq<Label> {
    seq(|calls|, i requires 0 <= i < |calls| => Refund(calls[i]))
  }

  /** Exactly how many of several refunds are lost: those for which the bucket has no room left. So none
      is lost if and only if tokens and refunds together fit the capacity. */
  lemma {:induction false} RefundsLostExactly(s: System, calls: seq<nat>, collecting: bool)
    requires s.limiter.global.Valid()
    requires forall i | 0 <= i < |calls| :: calls[i] in s.calls && s.calls[calls[i]].Refunding?
    requires forall i, j | 0 <= i < j < |calls| :: calls[i] != calls[j]
    ensures var g := s.limiter.global;
            Lost(s, RefundsInARow(calls), collecting)
            == if g.tokens + |calls| <= g.capacity then 0 else g.tokens + |calls| - g.capacity
    decreases calls
  {
    if calls != [] {
      var rest := RefundsInARow(calls)[1..];
      assert rest == RefundsInARow(calls[1..]);
      var e := Step(s, Refund(calls[0]), collecting).0;
      forall i | 0 <= i < |calls[1..]|
        ensures calls[1..][i] in e.calls && e.calls[calls[1..][i]].Refunding?
      {
        assert calls[1..][i] == calls[i + 1] && calls[0] != calls[i + 1];
      }
      RefundsLostExactly(e, calls[1..], collecting);
    }
  }

  lemma {:induction false} LostConcat(s: System, x: seq<Label>, y: seq<Label>, collecting: bool)
    ensures Lost(s, x + y, collecting) == Lost(s, x, collecting) + Lost(Run(s, x, collecting), y, collecting)
    decreases x
  {
    if x == [] {
      assert x + y == y;
    } else {
      assert (x + y)[1..] == x[1..] + y;
      LostConcat(Step(s, x[0], collecting).0, x[1..], y, collecting);
    }
  }

  lemma AcquireAt(s: System, c: nat, tokens: int)
    requires s.limiter.global == Bucket(2, 1, tokens, 0) && 0 < tokens <= 2 && c !in s.calls
    ensures var (e, o) := Step(s, Acquire(c, "a", 0), true);
            e == s.(limiter := s.limiter.(global := Bucket(2, 1, tokens - 1, 0)), calls := s.calls[c := Holding("a")])
  {
  }

  lemma DecideAt(s: System, c: nat)
    requires c in s.calls && s.calls[c] == Holding("a")
    requires s.limiter.config.perIPCapacity == 1 && s.limiter.config.perIPRefillRate == 1
    requires "a" in s.limiter.ips ==> s.limiter.ips["a"].bucket == Bucket(1, 1, 0, 0)
    ensures var e := Step(s, Decide(c, 0), true).0;
            && e.limiter.global == s.limiter.global && e.limiter.config == s.limiter.config
            && "a" in e.limiter.ips && e.limiter.ips["a"].bucket == Bucket(1, 1, 0, 0)
            && (if "a" in s.limiter.ips then e.calls == s.calls[c := Refunding("a")] && e.admitted == s.admitted
                else e.calls == s.calls - {c} && e.admitted == s.admitted + 1)
  {
    assert BucketFor(s.limiter, "a", 0) == if "a" in s.limiter.ips then Bucket(1, 1, 0, 0) else Bucket(1, 1, 1, 0);
  }

  /** One call of the address is admitted and a second has its global token. */
  lemma SecondCallHolds(config: Config, x: nat, y: nat)
    requires config == Config(1, 1, 2, 1, 0) && x != y
    ensures var e := Run(Init(config, 0), [Acquire(x, "a", 0), Decide(x, 0), Acquire(y, "a", 0)], true);
            && e.limiter.config == config && e.limiter.global == Bucket(2, 1, 0, 0)
            && "a" in e.limiter.ips && e.limiter.ips["a"].bucket == Bucket(1, 1, 0, 0)
            && e.calls == map[y := Holding("a")]
  {
    var s0 := Init(config, 0);
    var a, b, c := Acquire(x, "a", 0), Decide(x, 0), Acquire(y, "a", 0);
    AcquireAt(s0, x, 2);
    var s1 := Step(s0, a, true).0;
    DecideAt(s1, x);
    var s2 := Step(s1, b, true).0;
    assert s2.calls.Keys == {};
    AcquireAt(s2, y, 1);
    ThreeSteps(s0, a, b, c, true);
  }

  lemma OneStep(s: System, l: Label, collecting: bool)
    ensures Run(s, [l], collecting) == Step(s, l, collecting).0
  {
    assert [l][1..] == [] && Run(Step(s, l, collecting).0, [], collecting) == Step(s, l, collecting).0;
  }

  lemma ThenRefused(s0: System, before: seq<Label>, s: System, y: nat)
    requires s == Run(s0, before, true) && s.calls == map[y := Holding("a")]
    requires s.limiter.config.perIPCapacity == 1 && s.limiter.config.perIPRefillRate == 1
    requires "a" in s.limiter.ips && s.limiter.ips["a"].bucket == Bucket(1, 1, 0, 0)
    ensures var e := Run(s0, before + [Decide(y, 0)], true);
            e.limiter.global == s.limiter.global && e.calls == map[y := Refunding("a")]
  {
    DecideAt(s, y);
    OneStep(s, Decide(y, 0), true);
    RunConcat(s0, before, [Decide(y, 0)], true);
  }

  /** A refill that fills the bucket before a refund costs exactly that refund's token, in every state. */
  lemma RefillOvertakesRefund(s: System, c: nat, at: int, collecting: bool)
    requires c in s.calls && s.calls[c].Refunding?
    requires Refill(s.limiter.global, at).tokens == s.limiter.global.capacity
    ensures Lost(s, [Observe(at), Refund(c)], collecting) == 1
    ensures Run(s, [Observe(at), Refund(c)], collecting).calls == s.calls - {c}
  {
    var m := Step(s, Observe(at), collecting).0;
    assert [Observe(at), Refund(c)][1..] == [Refund(c)] && [Refund(c)][1..] == [];
    assert Lost(m, [Refund(c)], collecting) == 1 + Lost(Step(m, Refund(c), collecting).0, [], collecting);
    OneStep(m, Refund(c), collecting);
  }

  lemma {:induction false} LostWithoutRefunds(s: System, labels: seq<Label>, collecting: bool)
    requires forall l | l in labels :: !l.Refund?
    ensures Lost(s, labels, collecting) == 0
    decreases labels
  {
    if labels != [] {
      LostWithoutRefunds(Step(s, labels[0], collecting).0, labels[1..], collecting);
    }
  }

  lemma RaceFrom(s0: System, before: seq<Label>, s: System, y: nat, at: int)
    requires s == Run(s0, before, true) && Lost(s0, before, true) == 0 && s.calls == map[y := Refunding("a")]
    requires Refill(s.limiter.global, at).tokens == s.limiter.global.capacity
    ensures Lost(s0, before + [Observe(at), Refund(y)], true) == 1
    ensures Run(s0, before + [Observe(at), Refund(y)], true).calls == map[]
  {
    LostConcat(s0, before, [Observe(at), Refund(y)], true);
    RunConcat(s0, before, [Observe(at), Refund(y)], true);
    RefillOvertakesRefund(s, y, at, true);
    assert (s.calls - {y}).Keys == {};
  }

  /** A run in which exactly one refund is lost: of two calls one is admitted, and the other's token comes
      back to a bucket that a refill has filled meanwhile. */
  lemma RacingRefundLosesAToken(config: Config, x: nat, y: nat, at: int)
    requires config == Config(1, 1, 2, 1, 0) && x != y && at == 2 * NANOS
    ensures var labels := [Acquire(x, "a", 0), Decide(x, 0), Acquire(y, "a", 0)] + [Decide(y, 0)]
                        + [Observe(at), Refund(y)];
            Lost(Init(config, 0), labels, true) == 1 && Run(Init(config, 0), labels, true).calls == map[]
  {
    var s0 := Init(config, 0);
    var start := [Acquire(x, "a", 0), Decide(x, 0), Acquire(y, "a", 0)];
    SecondCallHolds(config, x, y);
    ThenRefused(s0, start, Run(s0, start, true), y);
    var before := start + [Decide(y, 0)];
    LostWithoutRefunds(s0, before, true);
    RaceFrom(s0, before, Run(s0, before, true), y, at);
  }

  // ---------------------------------------------------------------- clocks

  /** The latest clock reading after a step. */
  function Tick(clock: int, l: Label): int {
    if l.Refund? then clock else l.at
  }

  predicate Monotone(clock: int, labels: seq<Label>)
    decreases labels
  {
    labels == [] || (clock <= Tick(clock, labels[0]) && Monotone(Tick(clock, labels[0]), labels[1..]))
  }

  function Clock(clock: int, labels: seq<Label>): int
    decreases labels
  {
    if labels == [] then clock else Clock(Tick(clock, labels[0]), labels[1..])
  }

  lemma {:induction false} MonotoneConcat(clock: int, x: seq<Label>, y: seq<Label>)
    ensures Monotone(clock, x + y) <==> Monotone(clock, x) && Monotone(Clock(clock, x), y)
    ensures Clock(clock, x + y) == Clock(Clock(clock, x), y)
    decreases x
  {
    if x == [] {
      assert x + y == y;
    } else {
      assert (x + y)[1..] == x[1..] + y;
      MonotoneConcat(Tick(clock, x[0]), x[1..], y);
    }
  }

  lemma {:induction false} ClockAdvances(clock: int, labels: seq<Label>)
    requires Monotone(clock, labels)
    ensures clock <= Clock(clock, labels)
    decreases labels
  {
    if labels != [] {
      ClockAdvances(Tick(clock, labels[0]), labels[1..]);
    }
  }

  // ---------------------------------------------------------------- cleanup is invisible

  /** An address idle for longer than the timeout has had time to earn a full bucket. */
  predicate HidesCleanup(config: Config) {
    NANOS * config.perIPCapacity <= config.perIPRefillRate * (config.ipIdleTimeout + 1)
  }

  /** Every entry has been asked at least once since its last refill, so it is never full. */
  predicate EntryValid(config: Config, e: Entry, clock: int) {
    && e.bucket.Valid()
    && e.bucket.capacity == config.perIPCapacity
    && e.bucket.rate == config.perIPRefillRate
    && e.bucket.tokens < config.perIPCapacity
    && e.bucket.lastRefill <= e.lastSeen <= clock
  }

  predicate EntriesValid(s: System, clock: int) {
    forall ip | ip in s.limiter.ips :: EntryValid(s.limiter.config, s.limiter.ips[ip], clock)
  }

  predicate Rested(b: Bucket, clock: int) {
    NANOS * b.capacity <= b.rate * (clock - b.lastRefill)
  }

  /** `a` has collected entries that `b` still keeps; each of them is as good as new by now. */
  predicate Shadows(a: System, b: System, clock: int) {
    && a.calls == b.calls && a.admitted == b.admitted
    && a.limiter.config == b.limiter.config && a.limiter.global == b.limiter.global
    && EntriesValid(b, clock)
    && (forall ip | ip in a.limiter.ips :: ip in b.limiter.ips && a.limiter.ips[ip] == b.limiter.ips[ip])
    && (forall ip | ip in b.limiter.ips && ip !in a.limiter.ips :: Rested(b.limiter.ips[ip].bucket, clock))
  }

  lemma ShadowsLater(a: System, b: System, clock: int, later: int)
    requires Shadows(a, b, clock) && clock <= later
    ensures Shadows(a, b, later)
  {
    forall ip | ip in b.limiter.ips && ip !in a.limiter.ips
      ensures Rested(b.limiter.ips[ip].bucket, later)
    {
      var e := b.limiter.ips[ip].bucket;
      assert EntryValid(b.limiter.config, b.limiter.ips[ip], clock);
      MulMonotone(e.rate, clock - e.lastRefill, later - e.lastRefill);
    }
  }

  lemma AllowIPKeepsEntriesValid(l: Limiter, ip: string, at: int)
    requires l.config.Valid()
    requires ip in l.ips ==> EntryValid(l.config, l.ips[ip], at)
    ensures EntryValid(l.config, AllowIP(l, ip, at).0.ips[ip], at)
  {
    RefillBudget(BucketFor(l, ip, at), at);
  }

  lemma DecideShadows(a: Limiter, b: Limiter, ip: string, at: int)
    requires a.config == b.config && a.config.Valid()
    requires ip in a.ips ==> ip in b.ips && a.ips[ip] == b.ips[ip]
    requires ip in b.ips ==> EntryValid(b.config, b.ips[ip], at)
    requires ip in b.ips && ip !in a.ips ==> Rested(b.ips[ip].bucket, at)
    ensures AllowIP(a, ip, at).1 == AllowIP(b, ip, at).1
    ensures AllowIP(a, ip, at).0.ips[ip] == AllowIP(b, ip, at).0.ips[ip]
  {
    if ip in b.ips && ip !in a.ips {
      RestedIsFresh(b.ips[ip].bucket, at);
    }
  }

  lemma CollectShadows(a: System, b: System, at: int)
    requires Shadows(a, b, at) && b.limiter.config.Valid() && HidesCleanup(b.limiter.config)
    ensures Shadows(Step(a, Collect(at), true).0, b, at)
  {
    var config := b.limiter.config;
    forall ip | ip in a.limiter.ips && Idle(a.limiter, ip, at)
      ensures Rested(b.limiter.ips[ip].bucket, at)
    {
      var e := b.limiter.ips[ip];
      assert EntryValid(config, e, at);
      MulMonotone(config.perIPRefillRate, config.ipIdleTimeout + 1, at - e.bucket.lastRefill);
    }
  }

  lemma DecideStepShadows(a: System, b: System, c: nat, at: int)
    requires Shadows(a, b, at) && b.limiter.config.Valid()
    ensures Step(a, Decide(c, at), true).1 == Step(b, Decide(c, at), false).1
    ensures Shadows(Step(a, Decide(c, at), true).0, Step(b, Decide(c, at), false).0, at)
  {
    if c in b.calls && b.calls[c].Holding? {
      var ip := b.calls[c].ip;
      DecideShadows(a.limiter, b.limiter, ip, at);
      AllowIPKeepsEntriesValid(b.limiter, ip, at);
    }
  }

  lemma StepShadows(a: System, b: System, l: Label, clock: int)
    requires Shadows(a, b, clock) && clock <= Tick(clock, l)
    requires b.limiter.config.Valid() && HidesCleanup(b.limiter.config)
    ensures Step(a, l, true).1 == Step(b, l, false).1
    ensures Shadows(Step(a, l, true).0, Step(b, l, false).0, Tick(clock, l))
    ensures Step(b, l, false).0.limiter.config == b.limiter.config
  {
    ShadowsLater(a, b, clock, Tick(clock, l));
    match l
    case Decide(c, at) => DecideStepShadows(a, b, c, at);
    case Collect(at) => CollectShadows(a, b, at);
    case Acquire(_, _, _) =>
    case Refund(_) =>
    case Observe(_) =>
  }

  lemma {:induction false} RunShadows(a: System, b: System, labels: seq<Label>, clock: int)
    requires Shadows(a, b, clock) && Monotone(clock, labels)
    requires b.limiter.config.Valid() && HidesCleanup(b.limiter.config)
    ensures Outcomes(a, labels, true) == Outcomes(b, labels, false)
    ensures Shadows(Run(a, labels, true), Run(b, labels, false), Clock(clock, labels))
    ensures Run(b, labels, false).limiter.config == b.limiter.config
    decreases labels
  {
    if labels != [] {
      StepShadows(a, b, labels[0], clock);
      RunShadows(Step(a, labels[0], true).0, Step(b, labels[0], false).0, labels[1..], Tick(clock, labels[0]));
    }
  }

  lemma {:induction false} GlobalRefillIsPast(s: System, labels: seq<Label>, clock: int, collecting: bool)
    requires s.limiter.global.Valid() && s.limiter.global.lastRefill <= clock && Monotone(clock, labels)
    ensures Run(s, labels, collecting).limiter.global.lastRefill <= Clock(clock, labels)
    decreases labels
  {
    if labels != [] {
      StepConserves(s, labels[0], collecting);
      RefillBudget(s.limiter.global, Tick(clock, labels[0]));
      GlobalRefillIsPast(Step(s, labels[0], collecting).0, labels[1..], Tick(clock, labels[0]), collecting);
    }
  }

  /** What an observer can count: at any moment of any run the admissions seen so far number at most
      the global capacity plus what the global rate has earned since the start. */
  lemma GlobalAdmissions(config: Config, start: int, labels: seq<Label>, collecting: bool)
    requires config.Valid() && Monotone(start, labels)
    ensures NANOS * (CountAdmitted(Outcomes(Init(config, start), labels, collecting)) - config.globalCapacity)
            <= config.globalRefillRate * (Clock(start, labels) - start)
  {
    var s := Init(config, start);
    GlobalConservation(config, start, labels, collecting);
    AdmittedIsCounted(s, labels, collecting);
    GlobalRefillIsPast(s, labels, start, collecting);
    var last := Run(s, labels, collecting).limiter.global.lastRefill;
    MulMonotone(config.globalRefillRate, last - start, Clock(start, labels) - start);
  }

  // ---------------------------------------------------------------- the configured rate is reached

  /** What a reader of the statistics is shown in any reachable state: the tokens last left in the global
      bucket plus what the configured rate has earned since, up to the configured capacity. */
  lemma ObservedExactly(config: Config, start: int, labels: seq<Label>, collecting: bool, at: int)
    requires config.Valid()
    requires Run(Init(config, start), labels, collecting).limiter.global.lastRefill <= at
    ensures var e := Run(Init(config, start), labels, collecting);
            var g := e.limiter.global;
            Step(e, Observe(at), collecting).1
            == Seen(Min(g.tokens + config.globalRefillRate * (at - g.lastRefill) / NANOS, config.globalCapacity))
  {
    RunConserves(Init(config, start), labels, collecting);
    var g := Run(Init(config, start), labels, collecting).limiter.global;
    RefillMeaning(g, at, g.rate * (at - g.lastRefill) / NANOS);
  }

  function Stranger(i: nat): string {
    seq(i, _ => 'a')
  }

  /** `n` calls, each by an address of its own, the first of them the one numbered `from`. */
  function Strangers(from: nat, n: nat, at: int): seq<Label>
    decreases n
  {
    if n == 0 then [] else [Acquire(0, Stranger(from), at), Decide(0, at)] + Strangers(from + 1, n - 1, at)
  }

  /** No call is under way, no address from number `from` on is known, and the global bucket is refilled. */
  predicate Open(s: System, from: nat, at: int) {
    && s.calls == map[] && s.limiter.config.Valid() && s.limiter.global.Valid()
    && s.limiter.global.rate * (at - s.limiter.global.lastRefill) < NANOS
    && forall ip | ip in s.limiter.ips :: |ip| < from
  }

  lemma StrangerIsAdmitted(l: Limiter, ip: string, at: int)
    requires l.config.Valid() && ip !in l.ips
    ensures AllowIP(l, ip, at).1
  {
    TooSoonToCredit(BucketFor(l, ip, at), at);
  }

  lemma StrangerRun(s: System, from: nat, at: int, collecting: bool)
    requires Open(s, from, at) && 1 <= s.limiter.global.tokens
    ensures Served(s, Run(s, [Acquire(0, Stranger(from), at), Decide(0, at)], collecting), from + 1, 1, at)
  {
    var a, d := Acquire(0, Stranger(from), at), Decide(0, at);
    TooSoonToCredit(s.limiter.global, at);
    var s1 := Step(s, a, collecting).0;
    assert s1.calls == map[0 := Holding(Stranger(from))];
    StrangerIsAdmitted(s1.limiter, Stranger(from), at);
    assert Step(s1, d, collecting).0.calls == map[];
    TwoSteps(s, a, d, collecting);
  }

  lemma TwoSteps(s: System, a: Label, b: Label, collecting: bool)
    ensures Run(s, [a, b], collecting) == Step(Step(s, a, collecting).0, b, collecting).0
  {
    assert [a, b][1..] == [b];
    OneStep(Step(s, a, collecting).0, b, collecting);
  }

  /** `e` comes from `s` by admitting `n` strangers. */
  predicate Served(s: System, e: System, from: nat, n: nat, at: int) {
    Open(e, from, at) && e.limiter.config == s.limiter.config && e.admitted == s.admitted + n
    && e.limiter.global == s.limiter.global.(tokens := s.limiter.global.tokens - n)
  }

  /** The state after `n` strangers, one by one. */
  function AfterStrangers(s: System, from: nat, n: nat, at: int, collecting: bool): System
    decreases n
  {
    if n == 0 then s
    else AfterStrangers(Run(s, [Acquire(0, Stranger(from), at), Decide(0, at)], collecting), from + 1, n - 1, at, collecting)
  }

  lemma AfterFirst(s: System, from: nat, n: nat, at: int, collecting: bool) returns (m: System)
    requires n > 0 && Open(s, from, at) && 1 <= s.limiter.global.tokens
    ensures Served(s, m, from + 1, 1, at)
    ensures AfterStrangers(s, from, n, at, collecting) == AfterStrangers(m, from + 1, n - 1, at, collecting)
  {
    StrangerRun(s, from, at, collecting);
    m := Run(s, [Acquire(0, Stranger(from), at), Decide(0, at)], collecting);
  }

  lemma ServedOneMore(s: System, m: System, e: System, from: nat, n: nat, at: int)
    requires n > 0 && Served(s, m, from + 1, 1, at) && Served(m, e, (from + 1) + (n - 1), n - 1, at)
    ensures Served(s, e, from + n, n, at)
  {
  }

  lemma {:induction false} StrangersServed(s: System, from: nat, n: nat, at: int, collecting: bool)
    requires Open(s, from, at) && n <= s.limiter.global.tokens
    ensures Served(s, AfterStrangers(s, from, n, at, collecting), from + n, n, at)
    decreases n
  {
    if n > 0 {
      var m := AfterFirst(s, from, n, at, collecting);
      StrangersServed(m, from + 1, n - 1, at, collecting);
      ServedOneMore(s, m, AfterStrangers(s, from, n, at, collecting), from, n, at);
    }
  }

  lemma {:induction false} StrangersInARow(s: System, from: nat, n: nat, at: int, collecting: bool)
    ensures Run(s, Strangers(from, n, at), collecting) == AfterStrangers(s, from, n, at, collecting)
    decreases n
  {
    if n > 0 {
      var pair := [Acquire(0, Stranger(from), at), Decide(0, at)];
      RunConcat(s, pair, Strangers(from + 1, n - 1, at), collecting);
      StrangersInARow(Run(s, pair, collecting), from + 1, n - 1, at, collecting);
    }
  }

  /** As many strangers as there are tokens are all admitted. */
  lemma StrangersRun(s: System, from: nat, n: nat, at: int, collecting: bool)
    requires Open(s, from, at) && n <= s.limiter.global.tokens
    ensures Served(s, Run(s, Strangers(from, n, at), collecting), from + n, n, at)
  {
    StrangersServed(s, from, n, at, collecting);
    StrangersInARow(s, from, n, at, collecting);
  }

  lemma {:induction false} StrangersMonotone(from: nat, n: nat, at: int)
    ensures Monotone(at, Strangers(from, n, at)) && Clock(at, Strangers(from, n, at)) == at
    decreases n
  {
    if n > 0 {
      var rest := Strangers(from + 1, n - 1, at);
      StrangersMonotone(from + 1, n - 1, at);
      assert Strangers(from, n, at)[1..] == [Decide(0, at)] + rest;
      assert Strangers(from, n, at)[1..][1..] == rest;
    }
  }

  lemma ObserveOpens(s: System, from: nat, before: int, at: int, earned: nat, collecting: bool)
    requires Open(s, from, before) && s.limiter.global.lastRefill <= at
    requires NANOS * earned <= s.limiter.global.rate * (at - s.limiter.global.lastRefill) < NANOS * (earned + 1)
    ensures var e := Step(s, Observe(at), collecting).0;
            && Open(e, from, at) && e.limiter.config == s.limiter.config && e.admitted == s.admitted
            && e.limiter.global.tokens == Min(s.limiter.global.tokens + earned, s.limiter.global.capacity)
  {
    RefillMeaning(s.limiter.global, at, earned);
  }

  lemma ThenRun(s: System, l: Label, rest: seq<Label>, collecting: bool)
    ensures Run(s, [l] + rest, collecting) == Run(Step(s, l, collecting).0, rest, collecting)
  {
    assert ([l] + rest)[1..] == rest;
  }

  /** A reader refills the bucket, and strangers take what was earned. */
  lemma ObserveThenServe(s: System, from: nat, before: int, at: int, earned: nat, n: nat, collecting: bool)
    requires Open(s, from, before) && s.limiter.global.lastRefill <= at
    requires NANOS * earned <= s.limiter.global.rate * (at - s.limiter.global.lastRefill) < NANOS * (earned + 1)
    requires n <= Min(s.limiter.global.tokens + earned, s.limiter.global.capacity)
    ensures Run(s, [Observe(at)] + Strangers(from, n, at), collecting).admitted == s.admitted + n
  {
    ObserveOpens(s, from, before, at, earned, collecting);
    StrangersRun(Step(s, Observe(at), collecting).0, from, n, at, collecting);
    ThenRun(s, Observe(at), Strangers(from, n, at), collecting);
  }

  /** Strangers ask at `start`, then a reader and further strangers at `at`. */
  function TwoBursts(start: int, at: int, from: nat, first: nat, n: nat): seq<Label> {
    Strangers(from, first, start) + ([Observe(at)] + Strangers(from + first, n, at))
  }

  lemma TwoBurstsClock(start: int, at: int, from: nat, first: nat, n: nat)
    requires start <= at
    ensures Monotone(start, TwoBursts(start, at, from, first, n)) && Clock(start, TwoBursts(start, at, from, first, n)) == at
  {
    var late := Strangers(from + first, n, at);
    StrangersMonotone(from, first, start);
    StrangersMonotone(from + first, n, at);
    assert ([Observe(at)] + late)[1..] == late;
    MonotoneConcat(start, Strangers(from, first, start), [Observe(at)] + late);
  }

  lemma ServeLate(s: System, m: System, start: int, at: int, from: nat, first: nat, n: nat, earned: nat, collecting: bool)
    requires Served(s, m, from, first, start) && s.limiter.global.lastRefill == start <= at
    requires NANOS * earned <= s.limiter.global.rate * (at - start) < NANOS * (earned + 1)
    requires n <= Min(s.limiter.global.tokens - first + earned, s.limiter.global.capacity)
    ensures Run(m, [Observe(at)] + Strangers(from, n, at), collecting).admitted == s.admitted + first + n
  {
    ObserveThenServe(m, from, start, at, earned, n, collecting);
  }

  lemma LateAfterDrain(s: System, start: int, at: int, from: nat, first: nat, n: nat, collecting: bool)
    ensures Run(s, TwoBursts(start, at, from, first, n), collecting)
         == Run(AfterStrangers(s, from, first, start, collecting), [Observe(at)] + Strangers(from + first, n, at), collecting)
  {
    StrangersInARow(s, from, first, start, collecting);
    RunConcat(s, Strangers(from, first, start), [Observe(at)] + Strangers(from + first, n, at), collecting);
  }

  lemma TwoBurstsAdmitted(s: System, start: int, at: int, from: nat, first: nat, n: nat, earned: nat, collecting: bool)
    requires Open(s, from, start) && s.limiter.global.lastRefill == start <= at && first <= s.limiter.global.tokens
    requires NANOS * earned <= s.limiter.global.rate * (at - start) < NANOS * (earned + 1)
    requires n <= Min(s.limiter.global.tokens - first + earned, s.limiter.global.capacity)
    ensures Run(s, TwoBursts(start, at, from, first, n), collecting).admitted == s.admitted + first + n
  {
    StrangersServed(s, from, first, start, collecting);
    ServeLate(s, AfterStrangers(s, from, first, start, collecting), start, at, from + first, first, n, earned, collecting);
    LateAfterDrain(s, start, at, from, first, n, collecting);
  }

  /** Strangers drain the bucket at the start and take what was earned at the end. */
  lemma ManyAdmitted(config: Config, start: int, at: int, earned: nat, n: nat, collecting: bool) returns (labels: seq<Label>)
    requires config.Valid() && start <= at && earned <= config.globalCapacity && n <= config.globalCapacity + earned
    requires NANOS * earned <= config.globalRefillRate * (at - start) < NANOS * (earned + 1)
    ensures Monotone(start, labels) && Clock(start, labels) == at
    ensures CountAdmitted(Outcomes(Init(config, start), labels, collecting)) == n
  {
    var first := Min(n, config.globalCapacity);
    assert config.globalRefillRate * 0 == 0;
    labels := TwoBursts(start, at, 0, first, n - first);
    TwoBurstsAdmitted(Init(config, start), start, at, 0, first, n - first, earned, collecting);
    AdmittedIsCounted(Init(config, start), labels, collecting);
    TwoBurstsClock(start, at, 0, first, n - first);
  }

  /** Some run from `start` to `at` admits exactly `n` calls. */
  ghost predicate CanAdmit(config: Config, start: int, at: int, n: nat, collecting: bool) {
    exists labels :: Monotone(start, labels) && Clock(start, labels) == at
                     && CountAdmitted(Outcomes(Init(config, start), labels, collecting)) == n
  }

  /** The global bound is exact for every configuration: within the time the rate takes to fill the bucket,
      a run can admit `n` calls if and only if `n` is at most the capacity plus the whole tokens earned. */
  lemma GlobalAdmissionsExactly(config: Config, start: int, at: int, n: nat, collecting: bool)
    requires config.Valid() && start <= at
    requires config.globalRefillRate * (at - start) < NANOS * (config.globalCapacity + 1)
    ensures CanAdmit(config, start, at, n, collecting)
            <==> n <= config.globalCapacity + config.globalRefillRate * (at - start) / NANOS
  {
    MulNonNegative(config.globalRefillRate, at - start);
    var earned := config.globalRefillRate * (at - start) / NANOS;
    if n <= config.globalCapacity + earned {
      var labels := ManyAdmitted(config, start, at, earned, n, collecting);
    }
    if labels :| Monotone(start, labels) && Clock(start, labels) == at
                 && CountAdmitted(Outcomes(Init(config, start), labels, collecting)) == n {
      GlobalAdmissions(config, start, labels, collecting);
    }
  }

  /** No schedule of calls, under no global limit, can tell whether the cleanup routine runs. */
  ghost predicate CleanupInvisible(capacity: int, rate: int, idleTimeout: int) {
    forall globalCapacity, globalRate, start, labels
      | 0 < globalCapacity && 0 < globalRate && Monotone(start, labels) ::
      var s := Init(Config(capacity, rate, globalCapacity, globalRate, idleTimeout), start);
      Outcomes(s, labels, true) == Outcomes(s, labels, false)
  }

  /** Cleanup changes no decision of any interleaving exactly when an entry that outlived the idle
      timeout by one nanosecond has earned a whole bucket. */
  lemma CleanupInvisibleExactly(capacity: int, rate: int, idleTimeout: int)
    requires 0 < capacity && 0 < rate
    ensures CleanupInvisible(capacity, rate, idleTimeout) <==> NANOS * capacity <= rate * (idleTimeout + 1)
  {
    if NANOS * capacity <= rate * (idleTimeout + 1) {
      forall globalCapacity, globalRate, start, labels
        | 0 < globalCapacity && 0 < globalRate && Monotone(start, labels)
        ensures var s := Init(Config(capacity, rate, globalCapacity, globalRate, idleTimeout), start);
                Outcomes(s, labels, true) == Outcomes(s, labels, false)
      {
        var s := Init(Config(capacity, rate, globalCapacity, globalRate, idleTimeout), start);
        RunShadows(s, s, labels, start);
      }
    } else {
      CleanupVisible(capacity, rate, idleTimeout);
    }
  }

  // A witness schedule when the timeout is too short: drain the bucket, collect the entry, and
  // ask for one token more than an uncollected bucket would have earned.

  function Burst(n: nat, at: int): seq<Label> {
    if n == 0 then [] else [Acquire(0, "a", at), Decide(0, at)] + Burst(n - 1, at)
  }

  function BucketAt(s: System, at: int): Bucket {
    Refill(BucketFor(s.limiter, "a", at), at)
  }

  /** A state from which a burst of `n` calls at `at` is admitted. */
  predicate Ready(s: System, n: nat, at: int) {
    && s.calls == map[]
    && s.limiter.config.Valid()
    && s.limiter.global.Valid() && n <= s.limiter.global.tokens
    && BucketFor(s.limiter, "a", at).Valid() && n <= BucketAt(s, at).tokens
  }

  lemma RefillTwice(b: Bucket, n: nat, at: int)
    requires b.Valid() && n <= Refill(b, at).tokens
    ensures var d := Refill(b, at).(tokens := Refill(b, at).tokens - n);
            d.Valid() && Refill(d, at) == d
  {
    RefillBudget(b, at);
  }

  lemma AdmitOne(l: Limiter, at: int)
    requires l.config.Valid() && BucketFor(l, "a", at).Valid() && 1 <= Refill(BucketFor(l, "a", at), at).tokens
    ensures var d := Refill(BucketFor(l, "a", at), at);
            && AllowIP(l, "a", at) == (l.(ips := l.ips["a" := Entry(d.(tokens := d.tokens - 1), at)]), true)
            && Refill(d.(tokens := d.tokens - 1), at) == d.(tokens := d.tokens - 1)
            && d.(tokens := d.tokens - 1).Valid()
  {
    RefillTwice(BucketFor(l, "a", at), 1, at);
  }

  lemma PairRun(s: System, at: int, collecting: bool)
    requires Ready(s, 1, at)
    ensures var e := Run(s, [Acquire(0, "a", at), Decide(0, at)], collecting);
            var d := BucketAt(s, at).(tokens := BucketAt(s, at).tokens - 1);
            && Ready(e, 0, at)
            && e.limiter.config == s.limiter.config
            && e.limiter.global.tokens >= s.limiter.global.tokens - 1
            && e.limiter.ips == s.limiter.ips["a" := Entry(d, at)]
            && BucketAt(e, at) == d
  {
    var labels := [Acquire(0, "a", at), Decide(0, at)];
    var s1 := Step(s, labels[0], collecting).0;
    RefillBudget(s.limiter.global, at);
    assert s1.calls == map[0 := Holding("a")];
    assert s1.limiter == s.limiter.(global := s1.limiter.global);
    AdmitOne(s1.limiter, at);
    var s2 := Step(s1, labels[1], collecting).0;
    assert labels[1..] == [labels[1]] && labels[1..][1..] == [];
    assert Run(s, labels, collecting) == Run(s1, [labels[1]], collecting) == s2;
    assert s2.calls == map[];
  }

  lemma {:induction false} BurstRun(s: System, n: nat, at: int, collecting: bool)
    requires Ready(s, n, at)
    ensures var e := Run(s, Burst(n, at), collecting);
            && Ready(e, 0, at)
            && e.limiter.config == s.limiter.config
            && e.limiter.global.tokens >= s.limiter.global.tokens - n
            && BucketAt(e, at) == BucketAt(s, at).(tokens := BucketAt(s, at).tokens - n)
            && (n > 0 ==> "a" in e.limiter.ips && e.limiter.ips["a"] == Entry(BucketAt(e, at), at))
    decreases n
  {
    if n > 0 {
      var pair := [Acquire(0, "a", at), Decide(0, at)];
      PairRun(s, at, collecting);
      var m := Run(s, pair, collecting);
      BurstRun(m, n - 1, at, collecting);
      RunConcat(s, pair, Burst(n - 1, at), collecting);
    }
  }

  /** The decision on one more call at `at`. */
  lemma LastDecision(s: System, at: int, collecting: bool)
    requires s.calls == map[] && s.limiter.global.Valid() && 0 < s.limiter.global.tokens
    ensures Outcomes(s, [Acquire(0, "a", at), Decide(0, at)], collecting)[1]
         == if BucketAt(s, at).tokens >= 1 then Admitted("a") else RejectedByIP("a")
  {
    var labels := [Acquire(0, "a", at), Decide(0, at)];
    RefillBudget(s.limiter.global, at);
    var s1 := Step(s, labels[0], collecting).0;
    assert labels[1..] == [labels[1]];
    assert BucketFor(s1.limiter, "a", at) == BucketFor(s.limiter, "a", at);
  }

  function Earned(config: Config, at: int): nat
    requires config.Valid()
  {
    MulNonNegative(config.perIPRefillRate, if at < 0 then 0 else at);
    Credit(config.perIPRefillRate, at)
  }

  function WitnessSchedule(config: Config, at: int): seq<Label>
    requires config.Valid()
  {
    Burst(config.perIPCapacity, 0)
    + ([Collect(at)] + (Burst(Earned(config, at), at) + [Acquire(0, "a", at), Decide(0, at)]))
  }

  lemma WitnessMonotone(config: Config, at: int)
    requires config.Valid() && 0 <= at
    ensures Monotone(0, WitnessSchedule(config, at))
  {
    var n := Earned(config, at);
    var pair := [Acquire(0, "a", at), Decide(0, at)];
    BurstMonotone(config.perIPCapacity, 0);
    BurstMonotone(n, at);
    assert pair[1..] == [Decide(0, at)];
    MonotoneConcat(at, Burst(n, at), pair);
    var rest := [Collect(at)] + (Burst(n, at) + pair);
    assert rest[1..] == Burst(n, at) + pair;
    assert Monotone(at, pair);
    assert Monotone(0, rest);
    MonotoneConcat(0, Burst(config.perIPCapacity, 0), rest);
  }

  lemma {:induction false} BurstMonotone(n: nat, at: int)
    ensures Monotone(at, Burst(n, at)) && Clock(at, Burst(n, at)) == at
    decreases n
  {
    if n > 0 {
      BurstMonotone(n - 1, at);
      assert Burst(n, at)[1..] == [Decide(0, at)] + Burst(n - 1, at);
      assert Burst(n, at)[1..][1..] == Burst(n - 1, at);
    }
  }

  /** The last decision of the witness schedule depends on whether the entry was collected. */
  lemma WitnessDecision(config: Config, at: int, collecting: bool)
    requires config.Valid() && config.globalCapacity == 2 * config.perIPCapacity
    requires 0 <= at && config.ipIdleTimeout < at && Credit(config.perIPRefillRate, at) < config.perIPCapacity
    ensures var labels := WitnessSchedule(config, at);
            Outcomes(Init(config, 0), labels, collecting)[|labels| - 1]
            == if collecting then Admitted("a") else RejectedByIP("a")
  {
    var n := Earned(config, at);
    var s0 := Init(config, 0);
    var drain := Burst(config.perIPCapacity, 0);
    var pair := [Acquire(0, "a", at), Decide(0, at)];
    BurstRun(s0, config.perIPCapacity, 0, collecting);
    var s1 := Run(s0, drain, collecting);
    assert s1.limiter.ips["a"] == Entry(Bucket(config.perIPCapacity, config.perIPRefillRate, 0, 0), 0);
    var s2 := Step(s1, Collect(at), collecting).0;
    assert Run(s1, [Collect(at)], collecting) == s2;
    assert BucketAt(s2, at).tokens == if collecting then config.perIPCapacity else n;
    BurstRun(s2, n, at, collecting);
    var s3 := Run(s2, Burst(n, at), collecting);
    LastDecision(s3, at, collecting);
    RunConcat(s2, Burst(n, at), pair, collecting);
    RunConcat(s1, [Collect(at)], Burst(n, at) + pair, collecting);
    RunConcat(s0, drain, [Collect(at)] + (Burst(n, at) + pair), collecting);
  }

  lemma CleanupVisible(capacity: int, rate: int, idleTimeout: int)
    requires 0 < capacity && 0 < rate && rate * (idleTimeout + 1) < NANOS * capacity
    ensures !CleanupInvisible(capacity, rate, idleTimeout)
  {
    var config := Config(capacity, rate, 2 * capacity, 1, idleTimeout);
    var at := if idleTimeout < 0 then 0 else idleTimeout + 1;
    assert rate * 0 == 0;
    WitnessMonotone(config, at);
    WitnessDecision(config, at, true);
    WitnessDecision(config, at, false);
  }

  // ---------------------------------------------------------------- sliding windows per address

  function CountFor(ip: string, outcomes: seq<Outcome>): nat {
    if outcomes == [] then 0
    else (if outcomes[0] == Admitted(ip) then 1 else 0) + CountFor(ip, outcomes[1..])
  }

  lemma StepBudget(s: System, l: Label, ip: string, clock: int)
    requires s.limiter.config.Valid() && EntriesValid(s, clock) && clock <= Tick(clock, l)
    ensures EntriesValid(Step(s, l, false).0, Tick(clock, l))
    ensures Step(s, l, false).0.limiter.config == s.limiter.config
    ensures ip in s.limiter.ips ==>
              var (e, o) := Step(s, l, false);
              && ip in e.limiter.ips
              && var x, y := s.limiter.ips[ip].bucket, e.limiter.ips[ip].bucket;
                 NANOS * ((if o == Admitted(ip) then 1 else 0) + y.tokens - x.tokens) <= x.rate * (y.lastRefill - x.lastRefill)
  {
    if l.Decide? && l.call in s.calls && s.calls[l.call].Holding? {
      var who := s.calls[l.call].ip;
      AllowIPKeepsEntriesValid(s.limiter, who, l.at);
      RefillBudget(BucketFor(s.limiter, who, l.at), l.at);
    }
    forall other | other in s.limiter.ips
      ensures EntryValid(s.limiter.config, s.limiter.ips[other], Tick(clock, l))
    {
      assert EntryValid(s.limiter.config, s.limiter.ips[other], clock);
    }
  }

  /** While an address stays tracked, what it is granted and keeps is bounded by what it had and earned. */
  lemma {:induction false} TrackedBudget(s: System, labels: seq<Label>, ip: string, clock: int)
    requires s.limiter.config.Valid() && EntriesValid(s, clock) && Monotone(clock, labels)
    ensures var e := Run(s, labels, false);
            && e.limiter.config == s.limiter.config
            && EntriesValid(e, Clock(clock, labels))
            && (ip in s.limiter.ips ==>
                  && ip in e.limiter.ips
                  && var x, y := s.limiter.ips[ip].bucket, e.limiter.ips[ip].bucket;
                     NANOS * (CountFor(ip, Outcomes(s, labels, false)) + y.tokens - x.tokens)
                     <= x.rate * (y.lastRefill - x.lastRefill))
    decreases labels
  {
    if labels != [] {
      StepBudget(s, labels[0], ip, clock);
      var m := Step(s, labels[0], false).0;
      TrackedBudget(m, labels[1..], ip, Tick(clock, labels[0]));
      if ip in s.limiter.ips {
        var x, y := s.limiter.ips[ip].bucket, m.limiter.ips[ip].bucket;
        var z := Run(s, labels, false).limiter.ips[ip].bucket;
        assert x.rate == s.limiter.config.perIPRefillRate == y.rate;
        assert x.rate * (z.lastRefill - x.lastRefill)
            == x.rate * (y.lastRefill - x.lastRefill) + x.rate * (z.lastRefill - y.lastRefill);
      }
    }
  }

  /** After the first decision of a window the tokens handed out, kept and still uncredited are
      worth no more than one full bucket. */
  lemma WindowOpens(s: System, l: Label, ip: string, clock: int)
    requires s.limiter.config.Valid() && EntriesValid(s, clock) && l.Decide? && clock <= l.at
    requires Step(s, l, false).1 == Admitted(ip) || Step(s, l, false).1 == RejectedByIP(ip)
    ensures var (e, o) := Step(s, l, false);
            var config := s.limiter.config;
            && e.limiter.config == config && EntriesValid(e, l.at) && ip in e.limiter.ips
            && var b := e.limiter.ips[ip].bucket;
               NANOS * ((if o == Admitted(ip) then 1 else 0) + b.tokens - config.perIPCapacity)
               + config.perIPRefillRate * (l.at - b.lastRefill) <= 0
  {
    StepBudget(s, l, ip, clock);
    if ip in s.limiter.ips {
      assert EntryValid(s.limiter.config, s.limiter.ips[ip], clock);
    }
    var b := BucketFor(s.limiter, ip, l.at);
    MulNonNegative(b.rate, l.at - b.lastRefill);
    RefillMeaning(b, l.at, b.rate * (l.at - b.lastRefill) / NANOS);
    assert b.rate * 0 == 0;
  }

  lemma FirstOfWindow(s: System, window: seq<Label>, ip: string, clock: int)
    requires window != [] && window[0].Decide?
    ensures var (m, first) := Step(s, window[0], false);
            CountFor(ip, Outcomes(s, window, false))
            == (if first == Admitted(ip) then 1 else 0) + CountFor(ip, Outcomes(m, window[1..], false))
    ensures Clock(clock, window) == Clock(window[0].at, window[1..])
  {
    var (m, first) := Step(s, window[0], false);
    assert Outcomes(s, window, false)[1..] == Outcomes(m, window[1..], false);
  }

  lemma WindowWithoutCleanup(s: System, window: seq<Label>, ip: string, clock: int)
    requires s.limiter.config.Valid() && EntriesValid(s, clock) && Monotone(clock, window)
    requires window != [] && window[0].Decide?
    requires Step(s, window[0], false).1 == Admitted(ip) || Step(s, window[0], false).1 == RejectedByIP(ip)
    ensures var config := s.limiter.config;
            NANOS * (CountFor(ip, Outcomes(s, window, false)) - config.perIPCapacity)
            <= config.perIPRefillRate * (Clock(clock, window) - window[0].at)
  {
    var config := s.limiter.config;
    WindowOpens(s, window[0], ip, clock);
    var (m, first) := Step(s, window[0], false);
    TrackedWindow(m, window[1..], ip, window[0].at, if first == Admitted(ip) then 1 else 0);
    FirstOfWindow(s, window, ip, clock);
  }

  /** The rest of a window whose first decision granted `granted` requests. */
  lemma TrackedWindow(m: System, rest: seq<Label>, ip: string, from: int, granted: int)
    requires m.limiter.config.Valid() && EntriesValid(m, from) && Monotone(from, rest) && ip in m.limiter.ips
    requires var config, x := m.limiter.config, m.limiter.ips[ip].bucket;
             NANOS * (granted + x.tokens - config.perIPCapacity) + config.perIPRefillRate * (from - x.lastRefill) <= 0
    ensures var config := m.limiter.config;
            NANOS * (granted + CountFor(ip, Outcomes(m, rest, false)) - config.perIPCapacity)
            <= config.perIPRefillRate * (Clock(from, rest) - from)
  {
    var config, e := m.limiter.config, Run(m, rest, false);
    TrackedBudget(m, rest, ip, from);
    var x, y := m.limiter.ips[ip].bucket, e.limiter.ips[ip].bucket;
    assert EntryValid(config, e.limiter.ips[ip], Clock(from, rest)) && EntryValid(config, m.limiter.ips[ip], from);
    WindowArithmetic(config.perIPCapacity, x.rate, granted, x.tokens, x.lastRefill,
                     CountFor(ip, Outcomes(m, rest, false)), y.tokens, y.lastRefill, from, Clock(from, rest));
  }

  lemma WindowArithmetic(capacity: int, rate: int, granted: int, xTokens: int, xRefill: int,
                         rest: int, yTokens: int, yRefill: int, from: int, until: int)
    requires 0 < rate && 0 <= yTokens && yRefill <= until
    requires NANOS * (granted + xTokens - capacity) + rate * (from - xRefill) <= 0
    requires NANOS * (rest + yTokens - xTokens) <= rate * (yRefill - xRefill)
    ensures NANOS * (granted + rest - capacity) <= rate * (until - from)
  {
    MulMonotone(rate, yRefill - xRefill, until - xRefill);
    assert rate * (until - xRefill) == rate * (until - from) + rate * (from - xRefill);
  }

  /** The sliding-window bound. Start a window of any run at any decision about `ip`: up to the last
      clock reading at most capacity + rate * duration requests of `ip` are admitted, with any number
      of other calls and cleanups interleaved. */
  lemma SlidingWindow(config: Config, start: int, before: seq<Label>, window: seq<Label>, ip: string, collecting: bool)
    requires config.Valid() && (collecting ==> HidesCleanup(config))
    requires Monotone(start, before + window) && window != [] && window[0].Decide?
    requires var first := Outcomes(Run(Init(config, start), before, collecting), window, collecting)[0];
             first == Admitted(ip) || first == RejectedByIP(ip)
    ensures var seen := Outcomes(Run(Init(config, start), before, collecting), window, collecting);
            NANOS * (CountFor(ip, seen) - config.perIPCapacity)
            <= config.perIPRefillRate * (Clock(start, before + window) - window[0].at)
  {
    var s0 := Init(config, start);
    MonotoneConcat(start, before, window);
    TrackedBudget(s0, before, ip, start);
    var clock := Clock(start, before);
    if collecting {
      RunShadows(s0, s0, before, start);
      RunShadows(Run(s0, before, true), Run(s0, before, false), window, clock);
    }
    WindowWithoutCleanup(Run(s0, before, false), window, ip, clock);
  }

  lemma {:induction false} CountConcat(ip: string, x: seq<Outcome>, y: seq<Outcome>)
    ensures CountFor(ip, x + y) == CountFor(ip, x) + CountFor(ip, y)
    decreases x
  {
    if x == [] {
      assert x + y == y;
    } else {
      assert (x + y)[1..] == x[1..] + y;
      CountConcat(ip, x[1..], y);
    }
  }

  lemma PairCount(s: System, at: int, collecting: bool)
    requires Ready(s, 1, at)
    ensures CountFor("a", Outcomes(s, [Acquire(0, "a", at), Decide(0, at)], collecting)) == 1
  {
    var o := Outcomes(s, [Acquire(0, "a", at), Decide(0, at)], collecting);
    RefillBudget(s.limiter.global, at);
    LastDecision(s, at, collecting);
    assert o[0] == Acquired("a") && o[1] == Admitted("a");
    assert o[1..] == [Admitted("a")] && [Admitted("a")][1..] == [];
    assert CountFor("a", [Admitted("a")]) == 1 + CountFor("a", []);
    assert CountFor("a", o) == CountFor("a", o[1..]);
  }

  lemma {:induction false} BurstCount(s: System, n: nat, at: int, collecting: bool)
    requires Ready(s, n, at)
    ensures CountFor("a", Outcomes(s, Burst(n, at), collecting)) == n
    decreases n
  {
    if n > 0 {
      var pair := [Acquire(0, "a", at), Decide(0, at)];
      PairCount(s, at, collecting);
      PairRun(s, at, collecting);
      var m := Run(s, pair, collecting);
      BurstCount(m, n - 1, at, collecting);
      RunConcat(s, pair, Burst(n - 1, at), collecting);
      CountConcat("a", Outcomes(s, pair, collecting), Outcomes(m, Burst(n - 1, at), collecting));
    }
  }

  lemma CollectAlone(s: System, at: int)
    ensures Run(s, [Collect(at)], true) == Step(s, Collect(at), true).0
    ensures Outcomes(s, [Collect(at)], true) == [Nothing]
  {
    var e := Step(s, Collect(at), true).0;
    assert [Collect(at)][1..] == [];
    assert Run(e, [], true) == e && Outcomes(e, [], true) == [];
  }

  /** With cleanup the witness schedule grants a full bucket, what was earned since, and one more. */
  lemma WitnessCount(config: Config, at: int)
    requires config.Valid() && config.globalCapacity == 2 * config.perIPCapacity
    requires 0 <= at && config.ipIdleTimeout < at && Credit(config.perIPRefillRate, at) < config.perIPCapacity
    ensures CountFor("a", Outcomes(Init(config, 0), WitnessSchedule(config, at), true))
         == config.perIPCapacity + Earned(config, at) + 1
  {
    var n, s0, pair := Earned(config, at), Init(config, 0), [Acquire(0, "a", at), Decide(0, at)];
    var drain := Burst(config.perIPCapacity, 0);
    BurstRun(s0, config.perIPCapacity, 0, true);
    BurstCount(s0, config.perIPCapacity, 0, true);
    var s1 := Run(s0, drain, true);
    assert s1.limiter.ips["a"].lastSeen == 0;
    var s2 := Step(s1, Collect(at), true).0;
    CollectAlone(s1, at);
    assert BucketAt(s2, at).tokens == config.perIPCapacity;
    BurstRun(s2, n, at, true);
    BurstCount(s2, n, at, true);
    var s3 := Run(s2, Burst(n, at), true);
    PairCount(s3, at, true);
    RunConcat(s2, Burst(n, at), pair, true);
    RunConcat(s1, [Collect(at)], Burst(n, at) + pair, true);
    RunConcat(s0, drain, [Collect(at)] + (Burst(n, at) + pair), true);
    CountConcat("a", Outcomes(s2, Burst(n, at), true), Outcomes(s3, pair, true));
    var rest := Outcomes(s2, Burst(n, at) + pair, true);
    CountConcat("a", [Nothing], rest);
    CountConcat("a", Outcomes(s0, drain, true), [Nothing] + rest);
    assert [Nothing][1..] == [];
  }

  /** The bound for one window: `seen` are its outcomes. */
  predicate Bounded(config: Config, ip: string, seen: seq<Outcome>, duration: int) {
    NANOS * (CountFor(ip, seen) - config.perIPCapacity) <= config.perIPRefillRate * duration
  }

  predicate OpensWindow(before: seq<Label>, window: seq<Label>, seen: seq<Outcome>, start: int, ip: string)
    requires |seen| == |window|
  {
    Monotone(start, before + window) && window != [] && window[0].Decide?
    && (seen[0] == Admitted(ip) || seen[0] == RejectedByIP(ip))
  }

  function Window(config: Config, start: int, before: seq<Label>, window: seq<Label>): (seen: seq<Outcome>)
    ensures |seen| == |window|
  {
    Outcomes(Run(Init(config, start), before, true), window, true)
  }

  /** With the cleanup routine running, under no global limit does any window of any run break the bound. */
  ghost predicate WindowsBounded(capacity: int, rate: int, idleTimeout: int) {
    forall globalCapacity: int, globalRate: int, start: int, before: seq<Label>, window: seq<Label>, ip: string
      | 0 < globalCapacity && 0 < globalRate
        && var config := Config(capacity, rate, globalCapacity, globalRate, idleTimeout);
           OpensWindow(before, window, Window(config, start, before, window), start, ip) ::
      var config := Config(capacity, rate, globalCapacity, globalRate, idleTimeout);
      Bounded(config, ip, Window(config, start, before, window), Clock(start, before + window) - window[0].at)
  }

  lemma WindowAfterFirst(config: Config, at: int) returns (before: seq<Label>, window: seq<Label>)
    requires config.Valid() && config.globalCapacity == 2 * config.perIPCapacity
    requires 0 <= at && config.ipIdleTimeout < at && Credit(config.perIPRefillRate, at) < config.perIPCapacity
    ensures before + window == WitnessSchedule(config, at) && window != [] && window[0] == Decide(0, 0)
    ensures Window(config, 0, before, window)[0] == Admitted("a")
    ensures CountFor("a", Window(config, 0, before, window)) == config.perIPCapacity + Earned(config, at) + 1
  {
    var labels, s0 := WitnessSchedule(config, at), Init(config, 0);
    before, window := labels[..1], labels[1..];
    assert Burst(config.perIPCapacity, 0)[0] == Acquire(0, "a", 0) && Burst(config.perIPCapacity, 0)[1] == Decide(0, 0);
    assert labels[0] == Acquire(0, "a", 0) && labels[1] == Decide(0, 0) && before == [labels[0]];
    assert labels == before + window;
    WitnessCount(config, at);
    RunConcat(s0, before, window, true);
    var first := Outcomes(s0, before, true);
    CountConcat("a", first, Window(config, 0, before, window));
    var s1 := Step(s0, labels[0], true).0;
    assert before[1..] == [] && Run(s0, before, true) == Run(s1, [], true);
    assert s1.limiter.ips == map[] && s1.calls == map[0 := Holding("a")];
    RefillBudget(s0.limiter.global, 0);
    assert first == [Acquired("a")] && first[1..] == [];
    assert Step(s1, window[0], true).1 == Admitted("a");
  }

  lemma {:induction false} WitnessEnds(config: Config, at: int)
    requires config.Valid() && 0 <= at
    ensures Monotone(0, WitnessSchedule(config, at)) && Clock(0, WitnessSchedule(config, at)) == at
  {
    var n := Earned(config, at);
    var pair := [Acquire(0, "a", at), Decide(0, at)];
    var rest := [Collect(at)] + (Burst(n, at) + pair);
    WitnessMonotone(config, at);
    BurstMonotone(config.perIPCapacity, 0);
    BurstMonotone(n, at);
    MonotoneConcat(0, Burst(config.perIPCapacity, 0), rest);
    MonotoneConcat(at, Burst(n, at), pair);
    assert rest[1..] == Burst(n, at) + pair;
    assert pair[1..] == [Decide(0, at)] && [Decide(0, at)][1..] == [];
    assert Clock(at, pair) == Clock(at, [Decide(0, at)]) == Clock(at, []);
  }

  /** The window bound survives the cleanup routine exactly when cleanup is invisible: if and only if an
      entry that outlived the idle timeout has earned a whole bucket. */
  lemma WindowsBoundedExactly(capacity: int, rate: int, idleTimeout: int)
    requires 0 < capacity && 0 < rate
    ensures WindowsBounded(capacity, rate, idleTimeout) <==> NANOS * capacity <= rate * (idleTimeout + 1)
  {
    if NANOS * capacity <= rate * (idleTimeout + 1) {
      forall globalCapacity: int, globalRate: int, start: int, before: seq<Label>, window: seq<Label>, ip: string
        | 0 < globalCapacity && 0 < globalRate
          && var config := Config(capacity, rate, globalCapacity, globalRate, idleTimeout);
             OpensWindow(before, window, Window(config, start, before, window), start, ip)
        ensures var config := Config(capacity, rate, globalCapacity, globalRate, idleTimeout);
                Bounded(config, ip, Window(config, start, before, window), Clock(start, before + window) - window[0].at)
      {
        SlidingWindow(Config(capacity, rate, globalCapacity, globalRate, idleTimeout), start, before, window, ip, true);
      }
    } else {
      CleanupBreaksABound(capacity, rate, idleTimeout);
    }
  }

  lemma CleanupBreaksABound(capacity: int, rate: int, idleTimeout: int)
    requires 0 < capacity && 0 < rate && rate * (idleTimeout + 1) < NANOS * capacity
    ensures !WindowsBounded(capacity, rate, idleTimeout)
  {
    var config := Config(capacity, rate, 2 * capacity, 1, idleTimeout);
    var at := if idleTimeout < 0 then 0 else idleTimeout + 1;
    assert rate * 0 == 0;
    var before, window := WindowAfterFirst(config, at);
    WitnessEnds(config, at);
    EarnedIsFloor(config, at);
    var seen := Window(config, 0, before, window);
    assert OpensWindow(before, window, seen, 0, "a");
    assert !Bounded(config, "a", seen, Clock(0, before + window) - window[0].at);
  }

  lemma EarnedIsFloor(config: Config, at: int)
    requires config.Valid() && 0 <= at
    ensures NANOS * (Earned(config, at) + 1) > config.perIPRefillRate * at
  {
  }

  /** The bound is attained: a bucket of one token refilled once a second admits two requests in a
      window of exactly one second. */
  lemma SlidingWindowIsAttained(second: int)
    requires second == NANOS
    ensures var config := Config(1, 1, 2, 1, second);
            var before, window := [Acquire(0, "a", 0)], [Decide(0, 0), Acquire(1, "a", second), Decide(1, second)];
            && HidesCleanup(config) && Monotone(0, before + window) && Clock(0, before + window) == second
            && Outcomes(Run(Init(config, 0), before, true), window, true)
               == [Admitted("a"), Acquired("a"), Admitted("a")]
            && NANOS * (2 - config.perIPCapacity) == config.perIPRefillRate * (second - window[0].at)
  {
    var config := Config(1, 1, 2, 1, second);
    var a, b, c, d := Acquire(0, "a", 0), Decide(0, 0), Acquire(1, "a", second), Decide(1, second);
    TightClock(a, b, c, d, second);
    assert [a] + [b, c, d] == [a, b, c, d];
    var s1 := Step(Init(config, 0), a, true).0;
    assert Run(Init(config, 0), [a], true) == Run(s1, [], true);
    ThreeSteps(s1, b, c, d, true);
    var s2 := Step(s1, b, true).0;
    assert s2.limiter.ips["a"].bucket == Bucket(1, 1, 0, 0);
    assert Step(s2, c, true).0.limiter.ips == s2.limiter.ips;
  }

  lemma TightClock(a: Label, b: Label, c: Label, d: Label, second: int)
    requires 0 <= second && a.Acquire? && b.Decide? && c.Acquire? && d.Decide?
    requires a.at == b.at == 0 && c.at == d.at == second
    ensures Monotone(0, [a, b, c, d]) && Clock(0, [a, b, c, d]) == second
  {
    assert [a, b, c, d][1..] == [b, c, d] && [b, c, d][1..] == [c, d] && [c, d][1..] == [d] && [d][1..] == [];
    assert Clock(second, [d]) == Clock(Tick(second, d), [d][1..]) == Clock(second, []);
    assert Monotone(second, [d]);
    assert Monotone(0, [c, d]) && Clock(0, [c, d]) == second;
  }
}
