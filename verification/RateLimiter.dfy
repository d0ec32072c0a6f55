/** The two-level limiter of internal/ratelimit/limiter.go. Each function below is one locked step
    of the source; the class performs the same steps on mutable state and is proved to match. */
module RateLimiters {
  import opened Prelude
  import opened TokenBuckets

  datatype Config = Config(
    perIPCapacity: int, perIPRefillRate: int,
    globalCapacity: int, globalRefillRate: int,
    ipIdleTimeout: int) {

    /** Positive rates and capacities, as every configuration of the program has. */
    predicate Valid() {
      0 < perIPCapacity && 0 < perIPRefillRate && 0 < globalCapacity && 0 < globalRefillRate
    }
  }

  datatype Entry = Entry(bucket: Bucket, lastSeen: int)

  datatype Limiter = Limiter(config: Config, global: Bucket, ips: map<string, Entry>)

  // ---------------------------------------------------------------- locked steps on values

  function New(config: Config, now: int): Limiter {
    Limiter(config, Fresh(config.globalCapacity, config.globalRefillRate, now), map[])
  }

  function TakeGlobal(l: Limiter, now: int): (Limiter, bool) {
    var (g, ok) := AllowN(l.global, 1, now);
    (l.(global := g), ok)
  }

  /** The bucket `ip` is judged by: its own, or a new one when the address is not tracked. */
  function BucketFor(l: Limiter, ip: string, now: int): Bucket {
    if ip in l.ips then l.ips[ip].bucket else Fresh(l.config.perIPCapacity, l.config.perIPRefillRate, now)
  }

  function AllowIP(l: Limiter, ip: string, now: int): (Limiter, bool) {
    var (b, ok) := AllowN(BucketFor(l, ip, now), 1, now);
    (l.(ips := l.ips[ip := Entry(b, now)]), ok)
  }

  function ReturnGlobalToken(l: Limiter): Limiter {
    if l.global.tokens < l.global.capacity
    then l.(global := l.global.(tokens := l.global.tokens + 1))
    else l
  }

  predicate Idle(l: Limiter, ip: string, now: int)
    requires ip in l.ips
  {
    l.ips[ip].lastSeen < now - l.config.ipIdleTimeout
  }

  function Cleanup(l: Limiter, now: int): Limiter {
    l.(ips := map ip | ip in l.ips && !Idle(l, ip, now) :: l.ips[ip])
  }

  function Stats(l: Limiter, now: int): Limiter {
    l.(global := Refill(l.global, now))
  }

  /** One undisturbed `Allow` call reading the clock at `t1` for the global bucket and at `t2` for the address. */
  function Allow(l: Limiter, ip: string, t1: int, t2: int): (Limiter, bool) {
    var (l1, gotGlobal) := TakeGlobal(l, t1);
    if !gotGlobal then (l1, false)
    else
      var (l2, gotIP) := AllowIP(l1, ip, t2);
      if gotIP then (l2, true) else (ReturnGlobalToken(l2), false)
  }

  /** A refused call costs the global bucket nothing and an admitted one exactly one token; the
      address pays only for what it was granted, and no other address is touched. */
  lemma AllowSettlesBothBuckets(l: Limiter, ip: string, t1: int, t2: int)
    requires l.global.Valid()
    ensures var (e, ok) := Allow(l, ip, t1, t2);
            var earned := Refill(l.global, t1);
            && e.global == (if ok then earned.(tokens := earned.tokens - 1) else earned)
            && (earned.tokens == 0 ==> e.ips == l.ips)
            && (earned.tokens > 0 ==>
                  && ip in e.ips && e.ips[ip].lastSeen == t2 && e.ips - {ip} == l.ips - {ip}
                  && ok == (Refill(BucketFor(l, ip, t2), t2).tokens >= 1)
                  && e.ips[ip].bucket.tokens + (if ok then 1 else 0) == Refill(BucketFor(l, ip, t2), t2).tokens)
  {
    RefillBudget(l.global, t1);
    var (l1, gotGlobal) := TakeGlobal(l, t1);
    assert BucketFor(l1, ip, t2) == BucketFor(l, ip, t2);
    if gotGlobal {
      var l2 := AllowIP(l1, ip, t2).0;
      assert l2.ips - {ip} == l.ips - {ip};
    }
  }

  lemma SettleEntry(before: Limiter, created: Limiter, after: Limiter, ip: string, e: Entry, now: int, ok: bool)
    requires before.config == created.config == after.config && before.global == created.global == after.global
    requires created.ips - {ip} == before.ips - {ip} && after.ips == created.ips[ip := e]
    requires e.lastSeen == now && (e.bucket, ok) == AllowN(BucketFor(before, ip, now), 1, now)
    ensures (after, ok) == AllowIP(before, ip, now)
  {
    assert created.ips[ip := e] == before.ips[ip := e] by {
      assert (created.ips - {ip})[ip := e] == created.ips[ip := e];
      assert (before.ips - {ip})[ip := e] == before.ips[ip := e];
    }
  }

  /** The used share of the global bucket; no number when the capacity is zero, where the source divides
      by it. */
  function Utilization(capacity: int, tokens: int): (u: Option<real>)
    ensures u.Some? <==> capacity != 0
    ensures u.Some? ==> capacity as real * (1.0 - u.value) == tokens as real
  {
    if capacity == 0 then None
    else
      var u := (capacity - tokens) as real / capacity as real;
      assert capacity as real * u == (capacity - tokens) as real;
      Some(u)
  }

  /** On a limiter as the program configures it the utilisation lies between none and all. */
  lemma UtilizationInRange(b: Bucket)
    requires b.Valid() && 0 < b.capacity
    ensures var u := Utilization(b.capacity, b.tokens).value;
            && 0.0 <= u <= 1.0 && (u == 0.0 <==> b.tokens == b.capacity) && (u == 1.0 <==> b.tokens == 0)
  {
    var c, free := b.capacity as real, 1.0 - Utilization(b.capacity, b.tokens).value;
    assert free == b.tokens as real / c;
  }

  // ---------------------------------------------------------------- the classes

  class IPEntry {
    const bucket: TokenBucket
    var lastSeen: int

    constructor (bucket: TokenBucket, lastSeen: int)
      ensures this.bucket == bucket && this.lastSeen == lastSeen
    {
      this.bucket := bucket;
      this.lastSeen := lastSeen;
    }

    ghost function View(): Entry
      reads this, bucket
    {
      Entry(bucket.View(), lastSeen)
    }

    method Touch(now: int) returns (ok: bool)
      modifies this, bucket
      ensures lastSeen == now && (bucket.View(), ok) == AllowN(old(bucket.View()), 1, now)
    {
      lastSeen := now;
      ok := bucket.Allow(now);
    }
  }

  class RateLimiter {
    const config: Config
    const globalBucket: TokenBucket
    var ipBuckets: map<string, IPEntry>

    ghost function Entries(): set<object>
      reads this
    {
      set ip | ip in ipBuckets :: ipBuckets[ip] as object
    }

    ghost function Buckets(): set<object>
      reads this
    {
      set ip | ip in ipBuckets :: ipBuckets[ip].bucket as object
    }

    ghost function Repr(): set<object>
      reads this
    {
      {this, globalBucket} + Entries() + Buckets()
    }

    /** No two addresses share an entry or a bucket, and none shares the global bucket. */
    ghost predicate Valid()
      reads this
    {
      && (forall a, b | a in ipBuckets && b in ipBuckets && a != b ::
            ipBuckets[a] != ipBuckets[b] && ipBuckets[a].bucket != ipBuckets[b].bucket)
      && (forall a | a in ipBuckets :: ipBuckets[a].bucket != globalBucket)
    }

    ghost function View(): Limiter
      reads Repr()
    {
      Limiter(config, globalBucket.View(), map ip | ip in ipBuckets :: ipBuckets[ip].View())
    }

    constructor (config: Config, now: int)
      requires config.globalRefillRate != 0
      ensures Valid() && fresh(Repr()) && this.config == config
      ensures View() == New(config, now)
    {
      this.config := config;
      globalBucket := new TokenBucket(config.globalCapacity, config.globalRefillRate, now);
      ipBuckets := map[];
    }

    /** The entry of `ip`, created with a full bucket when the address is not tracked. */
    method GetOrCreate(ip: string, now: int) returns (entry: IPEntry)
      requires Valid() && config.perIPRefillRate != 0
      modifies this
      ensures Valid() && ip in ipBuckets && ipBuckets[ip] == entry
      ensures ip in old(ipBuckets) ==> ipBuckets == old(ipBuckets)
      ensures ip !in old(ipBuckets) ==> ipBuckets == old(ipBuckets)[ip := entry] && fresh(entry) && fresh(entry.bucket)
      ensures fresh(Repr() - old(Repr()))
      ensures entry.bucket.View() == BucketFor(old(View()), ip, now)
    {
      if ip !in ipBuckets {
        var bucket := new TokenBucket(config.perIPCapacity, config.perIPRefillRate, now);
        entry := new IPEntry(bucket, now);
        ipBuckets := ipBuckets[ip := entry];
      } else {
        entry := ipBuckets[ip];
      }
    }

    /** Tracking `ip` leaves what is known of the other addresses alone. */
    twostate lemma OthersUntouched(ip: string, new entry: IPEntry)
      requires ip in old(ipBuckets) ==> ipBuckets == old(ipBuckets)
      requires ip !in old(ipBuckets) ==> ipBuckets == old(ipBuckets)[ip := entry]
      requires forall other | other in old(ipBuckets) :: ipBuckets[other].View() == old(ipBuckets[other].View())
      ensures View().ips - {ip} == old(View().ips) - {ip}
    {
      assert (View().ips - {ip}).Keys == (old(View().ips) - {ip}).Keys;
    }

    /** The decision of the entry of `ip`; no other entry and no other bucket is touched. */
    method TouchEntry(ip: string, entry: IPEntry, now: int) returns (ok: bool)
      requires Valid() && ip in ipBuckets && ipBuckets[ip] == entry
      modifies entry, entry.bucket
      ensures Valid() && Repr() == old(Repr()) && View().global == old(View().global)
      ensures View().ips == old(View().ips)[ip := entry.View()]
      ensures entry.lastSeen == now && (entry.bucket.View(), ok) == AllowN(old(entry.bucket.View()), 1, now)
    {
      ok := entry.Touch(now);
      forall other | other in ipBuckets && other != ip
        ensures ipBuckets[other].View() == old(ipBuckets[other].View())
      {
        assert ipBuckets[other] != entry && ipBuckets[other].bucket != entry.bucket;
      }
      OnlyThisTouched(ip);
    }

    twostate lemma OnlyThisTouched(ip: string)
      requires ipBuckets == old(ipBuckets) && ip in ipBuckets
      requires forall other | other in ipBuckets && other != ip :: ipBuckets[other].View() == old(ipBuckets[other].View())
      ensures View().ips == old(View()).ips[ip := ipBuckets[ip].View()]
    {
      assert View().ips.Keys == old(View()).ips[ip := ipBuckets[ip].View()].Keys;
    }

    method AllowIPAt(ip: string, now: int) returns (ok: bool)
      requires Valid() && config.perIPRefillRate != 0
      modifies Repr()
      ensures Valid() && fresh(Repr() - old(Repr()))
      ensures (View(), ok) == AllowIP(old(View()), ip, now)
    {
      ghost var before := View();
      var entry := GetOrCreate(ip, now);
      ghost var created := View();
      OthersUntouched(ip, entry);
      ok := TouchEntry(ip, entry, now);
      SettleEntry(before, created, View(), ip, entry.View(), now, ok);
    }

    method ReturnToken()
      requires Valid()
      modifies globalBucket
      ensures Valid() && View() == ReturnGlobalToken(old(View()))
    {
      if globalBucket.tokens < globalBucket.capacity {
        globalBucket.tokens := globalBucket.tokens + 1;
      }
    }

    method AllowRequest(ip: string, t1: int, t2: int) returns (ok: bool)
      requires Valid() && config.perIPRefillRate != 0
      modifies Repr()
      ensures Valid() && fresh(Repr() - old(Repr()))
      ensures (View(), ok) == Allow(old(View()), ip, t1, t2)
    {
      var gotGlobal := globalBucket.Allow(t1);
      assert View() == TakeGlobal(old(View()), t1).0;
      if !gotGlobal {
        return false;
      }
      var gotIP := AllowIPAt(ip, t2);
      if !gotIP {
        ReturnToken();
        return false;
      }
      return true;
    }

    method CleanupAt(now: int)
      requires Valid()
      modifies this
      ensures Valid() && Repr() <= old(Repr())
      ensures View() == Cleanup(old(View()), now)
    {
      DropIdle(now - config.ipIdleTimeout);
      assert forall ip | ip in ipBuckets :: ipBuckets[ip].View() == old(ipBuckets[ip].View());
      assert View().ips.Keys == Cleanup(old(View()), now).ips.Keys;
    }

    /** The loop of the cleanup over a snapshot of the keys. */
    method DropIdle(cutoff: int)
      modifies `ipBuckets
      ensures forall ip :: ip in ipBuckets <==> ip in old(ipBuckets) && old(ipBuckets)[ip].lastSeen >= cutoff
      ensures forall ip | ip in ipBuckets :: ipBuckets[ip] == old(ipBuckets)[ip]
    {
      var pending := ipBuckets.Keys;
      while pending != {}
        invariant pending <= old(ipBuckets).Keys
        invariant forall ip ::
            ip in ipBuckets <==> ip in old(ipBuckets) && (ip in pending || old(ipBuckets)[ip].lastSeen >= cutoff)
        invariant forall ip | ip in ipBuckets :: ipBuckets[ip] == old(ipBuckets)[ip]
        decreases pending
      {
        var ip :| ip in pending;
        pending := pending - {ip};
        if ipBuckets[ip].lastSeen < cutoff {
          ipBuckets := ipBuckets - {ip};
        }
      }
    }

    method GetStats(now: int) returns (globalTokens: int, globalCapacity: int, trackedIPs: nat, utilization: Option<real>)
      requires Valid()
      modifies globalBucket
      ensures Valid() && View() == Stats(old(View()), now)
      ensures globalTokens == View().global.tokens && globalCapacity == View().global.capacity
      ensures trackedIPs == |View().ips| && utilization == Utilization(globalCapacity, globalTokens)
    {
      globalTokens := globalBucket.Tokens(now);
      globalCapacity := globalBucket.capacity;
      trackedIPs := |ipBuckets|;
      utilization := Utilization(globalCapacity, globalTokens);
      assert View().ips.Keys == ipBuckets.Keys;
    }
  }
}
