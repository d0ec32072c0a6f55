/** The token bucket of internal/ratelimit/bucket.go: a value-level specification of its
    operations, the laws that hold over whole runs of operations, and the mutable class. */
module TokenBuckets {
  import opened Prelude

  /** Nanoseconds in a second: clock readings are integers counting nanoseconds. */
  const NANOS := 1_000_000_000

  datatype Bucket = Bucket(capacity: int, rate: int, tokens: int, lastRefill: int) {
    /** What every bucket built with a positive rate and a non-negative capacity keeps. */
    predicate Valid() {
      0 < rate && 0 <= tokens <= capacity
    }
  }

  function Fresh(capacity: int, rate: int, now: int): Bucket {
    Bucket(capacity, rate, capacity, now)
  }

  /** Whole tokens earned in `elapsed` nanoseconds. */
  function Credit(rate: int, elapsed: int): int {
    if elapsed <= 0 then 0 else rate * elapsed / NANOS
  }

  function Refill(b: Bucket, now: int): Bucket {
    var toAdd := Credit(b.rate, now - b.lastRefill);
    if toAdd <= 0 then b
    else b.(tokens := if b.tokens + toAdd > b.capacity then b.capacity else b.tokens + toAdd, lastRefill := now)
  }

  function AllowN(b: Bucket, n: int, now: int): (Bucket, bool) {
    var r := Refill(b, now);
    if r.tokens >= n then (r.(tokens := r.tokens - n), true) else (r, false)
  }

  // ---------------------------------------------------------------- one operation

  /** Refilling against its meaning: `c` is the number of whole tokens the elapsed time is worth;
      less than one token's worth of time is left uncredited afterwards; and the earned amount
      is exact unless the capacity cut it off. */
  lemma RefillMeaning(b: Bucket, now: int, c: int)
    requires b.Valid() && b.lastRefill <= now
    requires NANOS * c <= b.rate * (now - b.lastRefill) < NANOS * (c + 1)
    ensures var r := Refill(b, now);
            && r.Valid() && r.capacity == b.capacity && r.rate == b.rate
            && r.tokens == (if b.tokens + c <= b.capacity then b.tokens + c else b.capacity)
            && r.lastRefill == (if c == 0 then b.lastRefill else now)
            && 0 <= b.rate * (now - r.lastRefill) < NANOS
  {
    MulNonNegative(b.rate, now - b.lastRefill);
    assert c == b.rate * (now - b.lastRefill) / NANOS;
    if now == b.lastRefill {
      assert b.rate * 0 == 0;
    }
  }

  /** A request of any size against its meaning: it is granted if and only if that many tokens are there once
      the `c` whole tokens earned are added up to the capacity, and then it takes exactly those. */
  lemma AllowNMeaning(b: Bucket, n: int, now: int, c: int)
    requires b.Valid() && b.lastRefill <= now
    requires NANOS * c <= b.rate * (now - b.lastRefill) < NANOS * (c + 1)
    ensures var there := Min(b.tokens + c, b.capacity);
            var clock := if c == 0 then b.lastRefill else now;
            AllowN(b, n, now) == (Bucket(b.capacity, b.rate, if n <= there then there - n else there, clock), n <= there)
  {
    RefillMeaning(b, now, c);
  }

  lemma MulNonNegative(x: int, y: int)
    requires 0 <= x && 0 <= y
    ensures 0 <= x * y
  {
  }

  lemma MulMonotone(x: int, y: int, z: int)
    requires 0 <= x && y <= z
    ensures x * y <= x * z
  {
    MulNonNegative(x, z - y);
  }

  /** A refill never hands out more than the elapsed time has earned, whatever the clock reads. */
  lemma RefillBudget(b: Bucket, now: int)
    requires b.Valid()
    ensures var r := Refill(b, now);
            && r.Valid() && r.capacity == b.capacity && r.rate == b.rate
            && b.tokens <= r.tokens && b.lastRefill <= r.lastRefill
            && NANOS * (r.tokens - b.tokens) <= b.rate * (r.lastRefill - b.lastRefill)
            && b.rate * (now - r.lastRefill) < NANOS
            && (b.lastRefill <= now ==> r.lastRefill <= now)
  {
    if b.lastRefill <= now {
      MulNonNegative(b.rate, now - b.lastRefill);
      RefillMeaning(b, now, b.rate * (now - b.lastRefill) / NANOS);
    } else {
      MulNonNegative(b.rate, b.lastRefill - now);
      assert b.rate * (now - b.lastRefill) == -(b.rate * (b.lastRefill - now));
    }
  }

  /** A bucket that rested long enough refills to exactly a fresh bucket. */
  lemma RestedIsFresh(b: Bucket, now: int)
    requires b.Valid() && 0 < b.capacity && b.lastRefill <= now
    requires NANOS * b.capacity <= b.rate * (now - b.lastRefill)
    ensures Refill(b, now) == Fresh(b.capacity, b.rate, now)
  {
    RefillMeaning(b, now, b.rate * (now - b.lastRefill) / NANOS);
  }

  /** A negative request is always granted and mints tokens: the bucket stays within its capacity if and only if the
      request does not return more tokens than there is room for. */
  lemma NegativeRequestOverfillsExactly(b: Bucket, n: int, now: int)
    requires b.Valid()
    ensures n < 0 ==> AllowN(b, n, now).1 && AllowN(b, n, now).0.tokens > b.tokens
    ensures AllowN(b, n, now).0.Valid() <==> n >= 0 || Refill(b, now).tokens - n <= b.capacity
  {
    RefillBudget(b, now);
  }

  // ---------------------------------------------------------------- runs of operations

  datatype Op = Take(n: nat, at: int) | Peek(at: int)

  function Apply(b: Bucket, op: Op): Bucket {
    match op
    case Take(n, at) => AllowN(b, n, at).0
    case Peek(at) => Refill(b, at)
  }

  function Granted(b: Bucket, op: Op): nat {
    match op
    case Take(n, at) => if AllowN(b, n, at).1 then n else 0
    case Peek(at) => 0
  }

  function Run(b: Bucket, ops: seq<Op>): Bucket
    decreases ops
  {
    if ops == [] then b else Run(Apply(b, ops[0]), ops[1..])
  }

  function Taken(b: Bucket, ops: seq<Op>): nat
    decreases ops
  {
    if ops == [] then 0 else Granted(b, ops[0]) + Taken(Apply(b, ops[0]), ops[1..])
  }

  /** No refill of the run hits the capacity. */
  predicate NeverClamped(b: Bucket, ops: seq<Op>)
    decreases ops
  {
    ops == [] ||
    (b.tokens + Credit(b.rate, ops[0].at - b.lastRefill) <= b.capacity && NeverClamped(Apply(b, ops[0]), ops[1..]))
  }

  lemma Spread(rate: int, x: int, y: int, z: int)
    ensures rate * (z - x) == rate * (y - x) + rate * (z - y)
  {
  }

  /** Over any run the tokens taken and kept never exceed what was there plus what time earned. */
  lemma {:induction false} RunBudget(b: Bucket, ops: seq<Op>)
    requires b.Valid()
    ensures var e := Run(b, ops);
            && e.Valid() && e.capacity == b.capacity && e.rate == b.rate && b.lastRefill <= e.lastRefill
            && NANOS * (Taken(b, ops) + e.tokens - b.tokens) <= b.rate * (e.lastRefill - b.lastRefill)
    decreases ops
  {
    if ops != [] {
      RefillBudget(b, ops[0].at);
      var m := Apply(b, ops[0]);
      RunBudget(m, ops[1..]);
      Spread(b.rate, b.lastRefill, m.lastRefill, Run(b, ops).lastRefill);
    }
  }

  /** The half-rate guarantee. Each crediting refill drops a fraction of a token, so over a run
      that is never clamped the bucket earns at least half, and at most all, of its nominal rate. */
  lemma {:induction false} HalfRate(b: Bucket, ops: seq<Op>)
    requires b.Valid() && NeverClamped(b, ops)
    ensures var e := Run(b, ops);
            var credited := Taken(b, ops) + e.tokens - b.tokens;
            NANOS * credited <= b.rate * (e.lastRefill - b.lastRefill) <= 2 * NANOS * credited
    decreases ops
  {
    RunBudget(b, ops);
    if ops != [] {
      var at, m, e := ops[0].at, Apply(b, ops[0]), Run(b, ops);
      RefillBudget(b, at);
      HalfRate(m, ops[1..]);
      HalfRateStep(b, at);
      var r, rest := Refill(b, at), Taken(m, ops[1..]) + e.tokens - m.tokens;
      assert m.lastRefill == r.lastRefill && Taken(b, ops) + e.tokens - b.tokens == (r.tokens - b.tokens) + rest;
      HalfRateJoin(b.rate, b.lastRefill, m.lastRefill, e.lastRefill, r.tokens - b.tokens, rest);
    }
  }

  lemma HalfRateJoin(rate: int, x: int, y: int, z: int, c: int, d: int)
    requires rate * (y - x) <= 2 * NANOS * c && rate * (z - y) <= 2 * NANOS * d
    ensures rate * (z - x) <= 2 * NANOS * (c + d)
  {
    Spread(rate, x, y, z);
  }

  lemma HalfRateStep(b: Bucket, at: int)
    requires b.Valid() && b.tokens + Credit(b.rate, at - b.lastRefill) <= b.capacity
    ensures var r := Refill(b, at);
            b.rate * (r.lastRefill - b.lastRefill) <= 2 * NANOS * (r.tokens - b.tokens)
  {
    if b.lastRefill < at {
      MulNonNegative(b.rate, at - b.lastRefill);
      RefillMeaning(b, at, b.rate * (at - b.lastRefill) / NANOS);
    }
  }

  /** The lower end of the half-rate interval is reached up to one nanosecond: at one token a second
      a poll after two seconds less a nanosecond credits a single token. */
  lemma HalfRateIsTight()
    ensures var b := Bucket(5, 1, 0, 0);
            var ops := [Peek(2 * NANOS - 1)];
            && NeverClamped(b, ops)
            && Run(b, ops) == Bucket(5, 1, 1, 2 * NANOS - 1)
  {
    var b := Bucket(5, 1, 0, 0);
    assert Run(Apply(b, Peek(2 * NANOS - 1)), []) == Bucket(5, 1, 1, 2 * NANOS - 1);
  }

  // ---------------------------------------------------------------- the class

  class TokenBucket {
    const capacity: int
    const refillRate: int
    var tokens: int
    var lastRefill: int
    const refillPeriod: int

    ghost function View(): Bucket
      reads this
    {
      Bucket(capacity, refillRate, tokens, lastRefill)
    }

    /** A zero rate would divide by zero when the refill period is computed. */
    constructor (capacity: int, refillRate: int, now: int)
      requires refillRate != 0
      ensures View() == Fresh(capacity, refillRate, now)
      ensures 0 < refillRate ==> refillPeriod * refillRate <= NANOS < (refillPeriod + 1) * refillRate
    {
      this.capacity := capacity;
      this.refillRate := refillRate;
      tokens := capacity;
      lastRefill := now;
      refillPeriod := if refillRate > 0 then NANOS / refillRate else -(NANOS / -refillRate);
    }

    method RefillAt(now: int)
      modifies this
      ensures View() == Refill(old(View()), now)
    {
      var elapsed := now - lastRefill;
      if elapsed <= 0 {
        return;
      }
      var tokensToAdd := refillRate * elapsed / NANOS;
      if tokensToAdd > 0 {
        tokens := tokens + tokensToAdd;
        if tokens > capacity {
          tokens := capacity;
        }
        lastRefill := now;
      }
    }

    method AllowMany(n: int, now: int) returns (ok: bool)
      modifies this
      ensures (View(), ok) == AllowN(old(View()), n, now)
    {
      RefillAt(now);
      if tokens >= n {
        tokens := tokens - n;
        return true;
      }
      return false;
    }

    method Allow(now: int) returns (ok: bool)
      modifies this
      ensures (View(), ok) == AllowN(old(View()), 1, now)
    {
      ok := AllowMany(1, now);
    }

    method Tokens(now: int) returns (n: int)
      modifies this
      ensures View() == Refill(old(View()), now) && n == View().tokens
    {
      RefillAt(now);
      n := tokens;
    }
  }
}
