/** The retry loop and the delays of internal/backoff/backoff.go. Delays are computed over reals;
    each jitter draw is an arbitrary value in [-1, 1). */
module Backoffs {
  import opened Prelude

  datatype Config = Config(baseDelay: int, maxDelay: int, maxAttempts: int, multiplier: real, jitterFactor: real) {
    predicate Valid() {
      0 <= baseDelay && 0 <= maxDelay && 1.0 < multiplier && 0.0 <= jitterFactor <= 1.0
    }
  }

  datatype Failure = HTTPError(statusCode: int) | OtherError(tag: string)

  function IsRetryableHTTPError(err: Failure): bool {
    err.HTTPError? && (err.statusCode == 429 || 500 <= err.statusCode < 600)
  }

  // ---------------------------------------------------------------- delays

  function Pow(m: real, n: nat): real {
    if n == 0 then 1.0 else m * Pow(m, n - 1)
  }

  /** The conversion of a float to an integer duration drops the fraction. */
  function Truncate(x: real): int {
    if x >= 0.0 then x.Floor else -((-x).Floor)
  }

  function CappedDelay(c: Config, attempt: nat): real
    requires attempt >= 1
  {
    var delay := c.baseDelay as real * Pow(c.multiplier, attempt - 1);
    if delay > c.maxDelay as real then c.maxDelay as real else delay
  }

  function Jittered(delay: real, jitterFactor: real, draw: real): real {
    if jitterFactor > 0.0 then delay + draw * (delay * jitterFactor) else delay
  }

  function Delay(c: Config, attempt: nat, draw: real): int
    requires attempt >= 1
  {
    var delay := Jittered(CappedDelay(c, attempt), c.jitterFactor, draw);
    Truncate(if delay < 0.0 then c.baseDelay as real else delay)
  }

  lemma ProductNonNegative(x: real, y: real)
    requires 0.0 <= x && 0.0 <= y
    ensures 0.0 <= x * y
  {
  }

  lemma ProductMonotone(x: real, y: real, z: real)
    requires 0.0 <= x && y <= z
    ensures x * y <= x * z
  {
    ProductNonNegative(x, z - y);
  }

  lemma {:induction false} PowAtLeastOne(m: real, n: nat)
    requires 1.0 < m
    ensures 1.0 <= Pow(m, n)
  {
    if n > 0 {
      PowAtLeastOne(m, n - 1);
      ProductMonotone(m, 1.0, Pow(m, n - 1));
    }
  }

  lemma CappedBounds(c: Config, attempt: nat)
    requires c.Valid() && attempt >= 1
    ensures 0.0 <= CappedDelay(c, attempt) <= c.maxDelay as real
    ensures CappedDelay(c, attempt) <= c.baseDelay as real * Pow(c.multiplier, attempt - 1)
  {
    PowAtLeastOne(c.multiplier, attempt - 1);
    ProductNonNegative(c.baseDelay as real, Pow(c.multiplier, attempt - 1));
  }

  lemma Reassociate(b: real, m: real, p: real)
    ensures b * (m * p) == m * (b * p)
  {
  }

  lemma PowNext(m: real, n: nat)
    ensures Pow(m, n + 1) == m * Pow(m, n)
  {
  }

  /** Capping the next member of the progression is capping the next multiple of the capped one. */
  lemma CapNext(x: real, m: real, cap: real)
    requires 0.0 <= x && 0.0 <= cap && 1.0 < m
    ensures Smaller(m * x, cap) == Smaller(m * Smaller(x, cap), cap)
  {
    if x > cap {
      ProductMonotone(m, cap, x);
      ProductMonotone(cap, 1.0, m);
    }
  }

  function Smaller(x: real, y: real): real {
    if x <= y then x else y
  }

  /** The growth of the delays: the first is the base delay and each next one is the last one times the
      multiplier, none above the largest delay. */
  lemma DelaysGrow(c: Config, attempt: nat)
    requires c.Valid() && attempt >= 1
    ensures CappedDelay(c, 1) == Smaller(c.baseDelay as real, c.maxDelay as real)
    ensures CappedDelay(c, attempt + 1) == Smaller(c.multiplier * CappedDelay(c, attempt), c.maxDelay as real)
  {
    FirstDelay(c);
    GrowFrom(c, attempt, c.baseDelay as real * Pow(c.multiplier, attempt - 1));
  }

  lemma GrowFrom(c: Config, attempt: nat, x: real)
    requires c.Valid() && attempt >= 1 && x == c.baseDelay as real * Pow(c.multiplier, attempt - 1)
    ensures CappedDelay(c, attempt + 1) == Smaller(c.multiplier * CappedDelay(c, attempt), c.maxDelay as real)
  {
    StartNonNegative(c, attempt);
    NextDelay(c, attempt, x);
    CapNext(x, c.multiplier, c.maxDelay as real);
  }

  lemma StartNonNegative(c: Config, attempt: nat)
    requires c.Valid() && attempt >= 1
    ensures 0.0 <= c.baseDelay as real * Pow(c.multiplier, attempt - 1)
  {
    PowAtLeastOne(c.multiplier, attempt - 1);
    ProductNonNegative(c.baseDelay as real, Pow(c.multiplier, attempt - 1));
  }

  lemma FirstDelay(c: Config)
    ensures CappedDelay(c, 1) == Smaller(c.baseDelay as real, c.maxDelay as real)
  {
    assert Pow(c.multiplier, 0) == 1.0;
  }

  lemma NextDelay(c: Config, attempt: nat, x: real)
    requires attempt >= 1 && x == c.baseDelay as real * Pow(c.multiplier, attempt - 1)
    ensures CappedDelay(c, attempt) == Smaller(x, c.maxDelay as real)
    ensures CappedDelay(c, attempt + 1) == Smaller(c.multiplier * x, c.maxDelay as real)
  {
    PowNext(c.multiplier, attempt - 1);
    Reassociate(c.baseDelay as real, c.multiplier, Pow(c.multiplier, attempt - 1));
  }

  /** A draw scales the delay: none leaves it alone, and the extremes move it by the whole jitter. */
  lemma JitterScales(capped: real, jitter: real, draw: real)
    requires 0.0 <= jitter
    ensures Jittered(capped, jitter, draw) == (1.0 + jitter * draw) * capped
  {
    assert draw * (capped * jitter) == (jitter * draw) * capped;
  }

  lemma JitterRange(capped: real, jitter: real, draw: real)
    requires 0.0 <= capped && 0.0 <= jitter <= 1.0 && -1.0 <= draw < 1.0
    ensures 0.0 <= capped * jitter <= capped
    ensures -(capped * jitter) <= draw * (capped * jitter) <= capped * jitter
  {
    ProductNonNegative(capped, jitter);
    ProductMonotone(capped, jitter, 1.0);
    var swing := capped * jitter;
    ProductMonotone(swing, draw, 1.0);
    ProductMonotone(swing, -1.0, draw);
  }

  lemma Distribute(x: real, y: real)
    ensures (1.0 + x) * y == y + y * x && (1.0 - x) * y == y - y * x
  {
  }

  /** The jittered delay is never negative, so the fallback to the base delay is not taken. */
  lemma JitteredRange(capped: real, jitter: real, draw: real)
    requires 0.0 <= capped && 0.0 <= jitter <= 1.0 && -1.0 <= draw < 1.0
    ensures var d := Jittered(capped, jitter, draw);
            0.0 <= d && (1.0 - jitter) * capped <= d <= (1.0 + jitter) * capped
  {
    JitterRange(capped, jitter, draw);
    Distribute(jitter, capped);
  }

  lemma TruncateRange(x: real)
    requires 0.0 <= x
    ensures 0 <= Truncate(x) && Truncate(x) as real <= x < Truncate(x) as real + 1.0
  {
  }

  /** Every sleep is non-negative and exceeds its capped delay by at most the jitter; the jitter also
      takes away no more than its share, up to the dropped fraction. */
  lemma DelayBounds(c: Config, attempt: nat, draw: real)
    requires c.Valid() && attempt >= 1 && -1.0 <= draw < 1.0
    ensures 0 <= Delay(c, attempt, draw)
    ensures Delay(c, attempt, draw) as real <= (1.0 + c.jitterFactor) * CappedDelay(c, attempt)
    ensures (1.0 - c.jitterFactor) * CappedDelay(c, attempt) < Delay(c, attempt, draw) as real + 1.0
  {
    CappedBounds(c, attempt);
    JitteredRange(CappedDelay(c, attempt), c.jitterFactor, draw);
    TruncateRange(Jittered(CappedDelay(c, attempt), c.jitterFactor, draw));
  }

  lemma Under(d: real, k: real, x: real, roof: real)
    requires 0.0 <= k && d <= k * x && x <= roof
    ensures d <= k * roof
  {
    ProductMonotone(k, x, roof);
  }

  /** The `n`-th member of the geometric progression that starts with `e`. */
  function Term(e: real, m: real, n: nat): real {
    if n == 0 then e else m * Term(e, m, n - 1)
  }

  lemma Commute(m: real, x: real, p: real)
    ensures m * (x * p) == x * (m * p)
  {
  }

  lemma {:induction false} TermIsScaledPower(x: real, b: real, m: real, n: nat)
    ensures Term(x * b, m, n) == x * (b * Pow(m, n))
  {
    if n > 0 {
      TermIsScaledPower(x, b, m, n - 1);
      var p := Pow(m, n - 1);
      Commute(m, x, b * p);
      Commute(m, b, p);
    }
  }

  /** The largest wait and the first uncapped wait, each enlarged by the jitter. */
  function Roof(c: Config): real {
    (1.0 + c.jitterFactor) * c.maxDelay as real
  }

  function Start(c: Config): real {
    (1.0 + c.jitterFactor) * c.baseDelay as real
  }

  lemma UnderTerm(d: real, k: real, x: real, b: real, e: real, m: real, n: nat)
    requires 0.0 <= k && d <= k * x && x <= b * Pow(m, n) && e == k * b
    ensures d <= Term(e, m, n)
  {
    Under(d, k, x, b * Pow(m, n));
    TermIsScaledPower(k, b, m, n);
  }

  lemma DelayUnderRoof(c: Config, attempt: nat, draw: real)
    requires c.Valid() && attempt >= 1 && -1.0 <= draw < 1.0
    ensures Delay(c, attempt, draw) as real <= Roof(c)
  {
    DelayBounds(c, attempt, draw);
    CappedBounds(c, attempt);
    Under(Delay(c, attempt, draw) as real, 1.0 + c.jitterFactor, CappedDelay(c, attempt), c.maxDelay as real);
  }

  lemma DelayUnderTerm(c: Config, attempt: nat, draw: real)
    requires c.Valid() && attempt >= 1 && -1.0 <= draw < 1.0
    ensures Delay(c, attempt, draw) as real <= Term(Start(c), c.multiplier, attempt - 1)
  {
    DelayBounds(c, attempt, draw);
    CappedBounds(c, attempt);
    UnderTerm(Delay(c, attempt, draw) as real, 1.0 + c.jitterFactor, CappedDelay(c, attempt),
              c.baseDelay as real, Start(c), c.multiplier, attempt - 1);
  }

  /** Each delay is below the enlarged cap and below the enlarged, uncapped exponential. */
  lemma EachDelay(c: Config, attempt: nat, draw: real)
    requires c.Valid() && attempt >= 1 && -1.0 <= draw < 1.0
    ensures 0 <= Delay(c, attempt, draw) && Delay(c, attempt, draw) as real <= Roof(c)
    ensures Delay(c, attempt, draw) as real <= Term(Start(c), c.multiplier, attempt - 1)
  {
    DelayBounds(c, attempt, draw);
    DelayUnderRoof(c, attempt, draw);
    DelayUnderTerm(c, attempt, draw);
  }

  /** With the jitter switched off the wait is the capped delay without its fraction. */
  lemma UnjitteredDelay(c: Config, attempt: nat, draw: real)
    requires c.Valid() && c.jitterFactor == 0.0 && attempt >= 1
    ensures Delay(c, attempt, draw) == CappedDelay(c, attempt).Floor
  {
    CappedBounds(c, attempt);
  }

  lemma TruncatedDelay(c: Config, attempt: nat, draw: real, d: real)
    requires attempt >= 1 && 0 <= c.baseDelay && d == Jittered(CappedDelay(c, attempt), c.jitterFactor, draw)
    ensures Delay(c, attempt, draw) == if d < 0.0 then c.baseDelay else d.Floor
  {
  }

  /** What a wait is for any configuration at all: the capped delay scaled by the draw, without its fraction,
      and the base delay if an oversized jitter made it negative. */
  lemma DelayExactly(c: Config, attempt: nat, draw: real, scale: real, d: real)
    requires attempt >= 1 && 0 <= c.baseDelay && 0.0 <= c.jitterFactor
    requires scale == 1.0 + c.jitterFactor * draw && d == scale * CappedDelay(c, attempt)
    ensures Delay(c, attempt, draw) == if d < 0.0 then c.baseDelay else d.Floor
  {
    JitterScales(CappedDelay(c, attempt), c.jitterFactor, draw);
    TruncatedDelay(c, attempt, draw, d);
  }

  // ---------------------------------------------------------------- the sum of all sleeps

  function Sum(xs: seq<int>): int {
    if xs == [] then 0 else Sum(xs[..|xs| - 1]) + xs[|xs| - 1]
  }

  function Series(e: real, m: real, n: nat): real {
    if n == 0 then 0.0 else Series(e, m, n - 1) + Term(e, m, n - 1)
  }

  lemma SeriesStep(m: real, g: real, p: real, e: real)
    requires g * (m - 1.0) == p - e
    ensures (g + p) * (m - 1.0) == m * p - e
  {
    assert (g + p) * (m - 1.0) == g * (m - 1.0) + p * (m - 1.0);
    assert p * (m - 1.0) == m * p - p;
  }

  lemma {:induction false} SeriesTelescopes(e: real, m: real, n: nat)
    ensures Series(e, m, n) * (m - 1.0) == Term(e, m, n) - e
  {
    if n > 0 {
      SeriesTelescopes(e, m, n - 1);
      var g, p := Series(e, m, n - 1), Term(e, m, n - 1);
      assert g * (m - 1.0) == p - e;
      SeriesStep(m, g, p, e);
    }
  }

  lemma QuotientOf(s: real, d: real, x: real, p: real)
    requires d > 0.0 && s * d == x * p - x
    ensures s == x * ((p - 1.0) / d)
  {
    var q := (p - 1.0) / d;
    assert q * d == p - 1.0;
    assert x * (q * d) == x * p - x;
    assert (x * q) * d == x * (q * d);
    assert (s - x * q) * d == s * d - (x * q) * d;
  }

  /** The closed form of the geometric sum. */
  lemma SeriesClosed(e: real, m: real, n: nat)
    requires m > 1.0
    ensures Series(e, m, n) == e * ((Pow(m, n) - 1.0) / (m - 1.0))
  {
    SeriesTelescopes(e, m, n);
    TermIsScaledPower(1.0, e, m, n);
    assert 1.0 * e == e;
    QuotientOf(Series(e, m, n), m - 1.0, e, Pow(m, n));
  }

  lemma OneMore(t: real, d: real, n: real, e: real)
    requires t <= (n - 1.0) * e && d <= e
    ensures t + d <= n * e
  {
    assert (n - 1.0) * e == n * e - e;
  }

  lemma {:induction false} SumUnderCap(xs: seq<int>, e: real)
    requires forall i | 0 <= i < |xs| :: xs[i] as real <= e
    ensures Sum(xs) as real <= |xs| as real * e
    decreases xs
  {
    if xs != [] {
      var ys, x := xs[..|xs| - 1], xs[|xs| - 1];
      SumUnderCap(ys, e);
      OneMore(Sum(ys) as real, x as real, |xs| as real, e);
    }
  }

  lemma {:induction false} SumUnderSeries(xs: seq<int>, e: real, m: real)
    requires forall i | 0 <= i < |xs| :: xs[i] as real <= Term(e, m, i)
    ensures Sum(xs) as real <= Series(e, m, |xs|)
    decreases xs
  {
    if xs != [] {
      SumUnderSeries(xs[..|xs| - 1], e, m);
      var n := |xs| - 1;
      assert xs[n] as real <= Term(e, m, n);
    }
  }

  function Exponential(e: real, m: real, n: nat): real
    requires m > 1.0
  {
    e * ((Pow(m, n) - 1.0) / (m - 1.0))
  }

  function Bound(roof: real, e: real, m: real, n: nat): real
    requires m > 1.0
  {
    Smaller(n as real * roof, Exponential(e, m, n))
  }

  /** The bound on `n` waits: the smaller of the cap taken `n` times and the closed geometric sum, each
      enlarged by the jitter. */
  function Budget(c: Config, n: nat): real
    requires c.multiplier > 1.0
  {
    Bound(Roof(c), Start(c), c.multiplier, n)
  }

  lemma SumUnderBound(xs: seq<int>, roof: real, e: real, m: real)
    requires m > 1.0
    requires forall i | 0 <= i < |xs| :: xs[i] as real <= roof
    requires forall i | 0 <= i < |xs| :: xs[i] as real <= Term(e, m, i)
    ensures Sum(xs) as real <= Bound(roof, e, m, |xs|)
  {
    SumUnderCap(xs, roof);
    SumUnderSeries(xs, e, m);
    SeriesClosed(e, m, |xs|);
  }

  ghost predicate JitterDraws(draw: nat -> real) {
    forall i :: -1.0 <= draw(i) < 1.0
  }

  /** The waits a call enters, in order. */
  ghost predicate Waits(c: Config, draw: nat -> real, sleeps: seq<int>) {
    forall i | 0 <= i < |sleeps| :: sleeps[i] == Delay(c, i + 1, draw(i + 1))
  }

  lemma WaitsAreBounded(c: Config, draw: nat -> real, sleeps: seq<int>, roof: real, e: real)
    requires c.Valid() && JitterDraws(draw) && Waits(c, draw, sleeps)
    requires roof == Roof(c) && e == Start(c)
    ensures forall i | 0 <= i < |sleeps| :: 0 <= sleeps[i] && sleeps[i] as real <= roof
    ensures forall i | 0 <= i < |sleeps| :: sleeps[i] as real <= Term(e, c.multiplier, i)
  {
    forall i | 0 <= i < |sleeps|
      ensures 0 <= sleeps[i] && sleeps[i] as real <= roof && sleeps[i] as real <= Term(e, c.multiplier, i)
    {
      EachDelay(c, i + 1, draw(i + 1));
    }
  }

  /** The total backoff bound. */
  lemma TotalBackoffBound(c: Config, draw: nat -> real, sleeps: seq<int>)
    requires c.Valid() && JitterDraws(draw) && Waits(c, draw, sleeps)
    ensures forall i | 0 <= i < |sleeps| :: 0 <= sleeps[i] && sleeps[i] as real <= Roof(c)
    ensures Sum(sleeps) as real <= Budget(c, |sleeps|)
  {
    WaitsAreBounded(c, draw, sleeps, Roof(c), Start(c));
    SumUnderBound(sleeps, Roof(c), Start(c), c.multiplier);
  }

  lemma {:induction false} ExponentialGrows(e: real, m: real, n: nat, more: nat)
    requires 0.0 <= e && m > 1.0 && n <= more
    ensures Exponential(e, m, n) <= Exponential(e, m, more)
    decreases more
  {
    if n < more {
      ExponentialGrows(e, m, n, more - 1);
      SeriesClosed(e, m, more - 1);
      SeriesClosed(e, m, more);
      TermNonNegative(e, m, more - 1);
    }
  }

  lemma {:induction false} TermNonNegative(e: real, m: real, n: nat)
    requires 0.0 <= e && m > 1.0
    ensures 0.0 <= Term(e, m, n)
  {
    if n > 0 {
      TermNonNegative(e, m, n - 1);
      ProductNonNegative(m, Term(e, m, n - 1));
    }
  }

  lemma BoundGrows(roof: real, e: real, m: real, n: nat, more: nat)
    requires 0.0 <= roof && 0.0 <= e && m > 1.0 && n <= more
    ensures Bound(roof, e, m, n) <= Bound(roof, e, m, more)
  {
    ProductMonotone(roof, n as real, more as real);
    ExponentialGrows(e, m, n, more);
  }

  lemma BudgetGrows(c: Config, n: nat, more: nat)
    requires c.Valid() && n <= more
    ensures Budget(c, n) <= Budget(c, more)
  {
    ProductNonNegative(1.0 + c.jitterFactor, c.maxDelay as real);
    ProductNonNegative(1.0 + c.jitterFactor, c.baseDelay as real);
    BoundGrows(Roof(c), Start(c), c.multiplier, n, more);
  }

  // ---------------------------------------------------------------- the retry loop

  /** How a call of `Retry` ends. With no attempt allowed the wrapped last error is empty. */
  datatype Verdict = Success | Refused(err: Failure) | Cancelled | Exhausted(last: Option<Failure>)

  /** The world a call runs in: what attempt `i` yields, whether an error is retried, whether the
      context wins the wait after attempt `i`, and the jitter drawn for that wait. */
  datatype World = World(
    outcome: nat -> Option<Failure>,
    shouldRetry: Failure -> bool,
    cancels: nat -> bool,
    draw: nat -> real)

  /** Attempt `i` failed, is to be retried, is not the last one, and its wait was not cut short. */
  predicate Continues(c: Config, w: World, i: nat) {
    w.outcome(i).Some? && w.shouldRetry(w.outcome(i).value) && i < c.maxAttempts && !w.cancels(i)
  }

  /** What attempt `i` decides if it is the first that does not continue. */
  function VerdictAt(c: Config, w: World, i: nat): Verdict {
    match w.outcome(i)
    case None => Success
    case Some(err) =>
      if !w.shouldRetry(err) then Refused(err)
      else if i >= c.maxAttempts then Exhausted(Some(err))
      else Cancelled
  }

  /** `Retry` refines "the first decisive attempt": it calls the function exactly up to the first
      attempt that does not continue and returns what that attempt decides. */
  method Retry(c: Config, w: World) returns (v: Verdict, calls: nat, sleeps: seq<int>)
    ensures c.maxAttempts <= 0 ==> v == Exhausted(None) && calls == 0
    ensures c.maxAttempts >= 1 ==>
              && 1 <= calls <= c.maxAttempts
              && !Continues(c, w, calls) && (forall i | 1 <= i < calls :: Continues(c, w, i))
              && v == VerdictAt(c, w, calls)
    ensures |sleeps| == if v.Cancelled? then calls else if calls == 0 then 0 else calls - 1
    ensures c.maxAttempts >= 1 ==> |sleeps| <= c.maxAttempts - 1
    ensures Waits(c, w.draw, sleeps)
  {
    var lastErr: Option<Failure> := None;
    sleeps := [];
    var attempt := 1;
    while attempt <= c.maxAttempts
      invariant 1 <= attempt && |sleeps| == attempt - 1
      invariant attempt == 1 || attempt <= c.maxAttempts
      invariant forall i | 1 <= i < attempt :: Continues(c, w, i)
      invariant Waits(c, w.draw, sleeps)
      invariant attempt == 1 ==> lastErr == None
      decreases c.maxAttempts - attempt
    {
      var err := w.outcome(attempt);
      if err.None? {
        return Success, attempt, sleeps;
      }
      lastErr := err;
      if !w.shouldRetry(err.value) {
        return Refused(err.value), attempt, sleeps;
      }
      if attempt == c.maxAttempts {
        break;
      }
      sleeps := sleeps + [Delay(c, attempt, w.draw(attempt))];
      if w.cancels(attempt) {
        return Cancelled, attempt, sleeps;
      }
      attempt := attempt + 1;
    }
    v := Exhausted(lastErr);
    calls := if lastErr.Some? then attempt else 0;
  }

  /** The first decisive attempt is unique, so the contract of `Retry` determines its result. */
  lemma FirstDecisiveUnique(c: Config, w: World, i: nat, j: nat)
    requires 1 <= i && 1 <= j
    requires !Continues(c, w, i) && forall k | 1 <= k < i :: Continues(c, w, k)
    requires !Continues(c, w, j) && forall k | 1 <= k < j :: Continues(c, w, k)
    ensures i == j
  {
  }

  /** A call with `calls` decisive succeeds exactly when some allowed attempt succeeds after only
      retryable failures and undisturbed waits. */
  lemma SuccessExactly(c: Config, w: World, calls: nat)
    requires 1 <= calls <= c.maxAttempts
    requires !Continues(c, w, calls) && forall i: nat | 1 <= i < calls :: Continues(c, w, i)
    ensures VerdictAt(c, w, calls) == Success <==> exists i: nat :: i <= c.maxAttempts && FirstSuccess(w, i)
  {
    if VerdictAt(c, w, calls) == Success {
      assert forall k: nat | 1 <= k < calls :: Continues(c, w, k) && w.outcome(k).Some?;
      assert FirstSuccess(w, calls);
    }
    if i: nat :| i <= c.maxAttempts && FirstSuccess(w, i) {
      assert forall k | 1 <= k < i :: Continues(c, w, k);
      FirstDecisiveUnique(c, w, i, calls);
    }
  }

  /** Attempt `i` succeeds after retryable failures and undisturbed waits only. */
  ghost predicate FirstSuccess(w: World, i: nat) {
    1 <= i && w.outcome(i).None?
    && forall k | 1 <= k < i :: w.outcome(k).Some? && w.shouldRetry(w.outcome(k).value) && !w.cancels(k)
  }

  /** Attempt `i` failed in a way that is to be retried. */
  predicate FailsRetryably(w: World, i: nat) {
    w.outcome(i).Some? && w.shouldRetry(w.outcome(i).value)
  }

  /** It gives up exactly when every allowed attempt failed retryably and no wait was cut short, and then
      reports the error of the last one. */
  lemma ExhaustedExactly(c: Config, w: World, calls: nat)
    requires 1 <= calls <= c.maxAttempts
    requires !Continues(c, w, calls) && forall i: nat | 1 <= i < calls :: Continues(c, w, i)
    ensures VerdictAt(c, w, calls).Exhausted? <==>
              (forall i: nat | 1 <= i <= c.maxAttempts :: FailsRetryably(w, i) && (i < c.maxAttempts ==> !w.cancels(i)))
    ensures VerdictAt(c, w, calls).Exhausted? ==>
              calls == c.maxAttempts && VerdictAt(c, w, calls) == Exhausted(w.outcome(c.maxAttempts))
  {
    if VerdictAt(c, w, calls).Exhausted? {
      forall i: nat | 1 <= i <= c.maxAttempts
        ensures FailsRetryably(w, i) && (i < c.maxAttempts ==> !w.cancels(i))
      {
        if i < calls {
          assert Continues(c, w, i);
        }
      }
    } else {
      assert !FailsRetryably(w, calls) || w.cancels(calls);
    }
  }

  /** What a refused or cancelled call reports: the decisive attempt failed, and either it was not to be
      retried and its own error is returned, or it was to be retried, was not the last, and its wait was cut. */
  lemma FailureExactly(c: Config, w: World, calls: nat)
    requires 1 <= calls <= c.maxAttempts && !Continues(c, w, calls)
    ensures VerdictAt(c, w, calls).Refused? <==> w.outcome(calls).Some? && !FailsRetryably(w, calls)
    ensures VerdictAt(c, w, calls).Refused? ==> Some(VerdictAt(c, w, calls).err) == w.outcome(calls)
    ensures VerdictAt(c, w, calls).Cancelled? <==>
              FailsRetryably(w, calls) && calls < c.maxAttempts && w.cancels(calls)
  {
  }

  /** Under the HTTP policy every attempt before the decisive one met a 429 or a 5xx status, and the call is
      refused exactly by an error that carries another status or none. */
  lemma OnlyTransientFailuresAreRetried(c: Config, w: World, calls: nat)
    requires forall e :: w.shouldRetry(e) == IsRetryableHTTPError(e)
    requires 1 <= calls <= c.maxAttempts
    requires !Continues(c, w, calls) && forall i: nat | 1 <= i < calls :: Continues(c, w, i)
    ensures forall i: nat | 1 <= i < calls ::
              w.outcome(i).Some? && w.outcome(i).value.HTTPError?
              && (w.outcome(i).value.statusCode == 429 || w.outcome(i).value.statusCode / 100 == 5)
    ensures VerdictAt(c, w, calls).Refused? <==>
              w.outcome(calls).Some? && (w.outcome(calls).value.OtherError?
                || (w.outcome(calls).value.statusCode != 429 && w.outcome(calls).value.statusCode / 100 != 5))
  {
    forall i: nat | 1 <= i < calls
      ensures w.outcome(i).Some? && IsRetryableHTTPError(w.outcome(i).value)
    {
      assert Continues(c, w, i);
    }
  }

  /** However a call of `Retry` ends, the waits it entered add up to no more than the bound for all its
      allowed attempts. */
  lemma RetryStaysWithinBudget(c: Config, w: World, sleeps: seq<int>)
    requires c.Valid() && JitterDraws(w.draw) && c.maxAttempts >= 1 && |sleeps| <= c.maxAttempts - 1
    requires Waits(c, w.draw, sleeps)
    ensures Sum(sleeps) as real <= Budget(c, c.maxAttempts - 1)
  {
    TotalBackoffBound(c, w.draw, sleeps);
    BudgetGrows(c, |sleeps|, c.maxAttempts - 1);
  }
}
