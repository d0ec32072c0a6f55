# Verification model of the LTP service

A Dafny 4.11 model of the stateful parts of a Go service that answers last-traced-price queries from
the Kraken exchange: the two-level rate limiter, the layered TTL cache and its background workers, the
price lookup with its pair strings, and the retry loop. `dafny verify dfyconfig.toml` checks it.

Objects that the Go code updates in place are classes whose methods carry out the same steps and are
proved against functions on plain values. The laws over whole runs are lemmas about those functions.
Concurrent code is a transition system with one label per locked step. A label that does not fit the
state does nothing (in the worker protocol: is refused), so theorems over all label sequences are
theorems over all interleavings.

| file | content |
|---|---|
| `TokenBucket.dfy` | one bucket: refill arithmetic, budgets over runs, the half-rate guarantee, the class |
| `RateLimiter.dfy` | global and per-address admission, refund, idle collection, the class |
| `LimiterRuns.dfy` | any number of calls in flight: conservation, invisible cleanup, sliding windows |
| `MemoryCache.dfy` | the bounded TTL map with oldest-tenth eviction, through its loops |
| `MemoryCacheRuns.dfy` | size bound over runs; removing expired entries cannot be noticed |
| `MemoryCacheSteps.dfy` | the same cache under every interleaving of its separately locked steps |
| `FallbackCache.dfy` | the primary that may fail, hide or lose anything, and the fallback behind it |
| `FallbackRuns.dfy` | how old a served value can be; when it is the value written last |
| `FallbackSteps.dfy` | both, under every interleaving of the accesses to the two layers |
| `RefreshWorkers.dfy` | start, workers, stop: wait group, stop channel, bounded refresh channel, mutex |
| `Pairs.dfy`, `LtpService.dfy` | the pair strings and `GetLTP` |
| `Backoff.dfy` | delays with jitter, their sum, and the retry loop |
| `Prelude.dfy`, `Sorting.dfy` | result types and small shared helpers; the sort that `sort.Slice` stands for |

Modelling choices:

- Time is an integer number of nanoseconds. Every locked step reads the clock once. In the source
  `allowIP` reads it for `lastSeen`, `NewTokenBucket` and `refill` (through `entry.bucket.Allow`) read it
  again, and `Set` and `SetMultiple` read it for the expiry and again for the creation time. With the second
  reading of `refill` the bucket's `lastRefill` can be slightly later than `lastSeen`; the exact nanosecond
  of `CleanupInvisibleExactly` and `WindowsBoundedExactly`, and the window bound without an extra token,
  hold under the single reading. An operation of the layered cache reads the clock once for each layer.
- The tokens a refill adds are the exact floor of rate times elapsed seconds, and delays are reals. The
  source computes both in `float64`; its rounding is not modelled.
- Integers are unbounded; 64-bit overflow is not modelled.
- The primary cache is any TTL store that may fail on any call, may apply a failed write to any
  of its keys, may report keys it holds as missing, and may lose entries.
- Which of several equally old entries an eviction picks is left open, as `sort.Slice` leaves it.
- A jitter draw is any value in [-1, 1), the exchange is a function from symbol lists to replies, and
  what an attempt of a retry yields is a function of its number. The service's cache is the `Get`/`Set`
  map its legacy interface shows.
- Strings are ASCII.

Where the code does something other than its documentation or names suggest, the code was followed:

- The repository's README promises prices accurate to the last minute. The layers serve a price for as
  long as both TTLs together, six minutes in the default configuration (`FreshnessExactly`,
  `StalenessBoundIsReached`).
- The "LRU" eviction removes the entries created first; reads do not matter.
- Batches are neither given the default TTL nor clamped to `MaxTTL`, and ignore the size limit up to ten
  batches (`ReachableSizesExactly`, `MaxSizeKeptExactly`).
- The background refresh never refreshes anything: the program caches only under symbols and under the
  probe key of its health check, and no such key is a pair (`RefreshHookAlwaysFails`,
  `CachedSymbolsAreNoPairs`).
- Different pairs can share a cache key (`SymbolSharedExactly`).
- Cleanup is invisible from one nanosecond below the idle timeout the rates suggest, because entries are
  dropped strictly after the cutoff (`CleanupInvisibleExactly`); with a shorter timeout it also breaks the
  bound on what an address is granted (`WindowsBoundedExactly`). `GetStats` does see it, in its count of
  tracked addresses.
- The per-address window bound holds without the extra token a single bucket would need, since every
  tracked bucket has been asked at least once since its last refill (`SlidingWindow`).
- Without any failing call, a slow `Get` or two crossing `Set` calls can leave an older value in the fallback
  than in the primary (`ReadIsOvertaken`, `WritesCross`).

## Model

| member | source | states |
|---|---|---|
| TokenBuckets.RefillMeaning | internal/ratelimit/bucket.go:63-81 | a refill credits exactly the whole tokens the elapsed time is worth, cut at the capacity, and leaves less than one token's worth of time uncredited |
| TokenBuckets.RefillBudget | internal/ratelimit/bucket.go:63-81 | whatever the clock reads, a refill keeps the bucket within its capacity and never credits more than elapsed time earned |
| TokenBuckets.RestedIsFresh | internal/ratelimit/bucket.go:19-28 | a bucket rested for its filling time refills to exactly a new bucket, clock included |
| TokenBuckets.NegativeRequestOverfillsExactly | internal/ratelimit/bucket.go:36-47 | a negative request is always granted and mints tokens; the capacity survives a request exactly when it is not negative beyond the room left |
| TokenBuckets.AllowNMeaning | internal/ratelimit/bucket.go:36-81 | a request of any size is granted if and only if that many tokens are there after adding the whole tokens earned up to the capacity, and takes exactly those |
| TokenBuckets.RunBudget | internal/ratelimit/bucket.go:36-81 | over any run of takes and polls, tokens taken plus kept never exceed the initial ones plus what time earned |
| TokenBuckets.HalfRate | internal/ratelimit/bucket.go:63-81 | over any run that is never clamped the bucket credits at most its nominal rate and at least half of it |
| TokenBuckets.HalfRateIsTight | internal/ratelimit/bucket.go:72-79 | the lower half is reached up to one nanosecond, since each credit drops the fraction of a token |
| TokenBuckets.TokenBucket.constructor | internal/ratelimit/bucket.go:19-28 | a new bucket is full and its clock starts now; a zero rate is excluded because the source divides by it |
| TokenBuckets.TokenBucket.RefillAt | internal/ratelimit/bucket.go:63-81 | the in-place refill yields the specified bucket |
| TokenBuckets.TokenBucket.AllowMany | internal/ratelimit/bucket.go:36-47 | takes `n` tokens exactly when they are there after a refill, otherwise only refills |
| TokenBuckets.TokenBucket.Tokens | internal/ratelimit/bucket.go:50-55 | reading the tokens refills and takes nothing |
| RateLimiters.AllowSettlesBothBuckets | internal/ratelimit/limiter.go:70-119 | an undisturbed call costs the global bucket one token if admitted and none if refused; the address pays only for what it was granted; no other address is touched |
| RateLimiters.RateLimiter.constructor | internal/ratelimit/limiter.go:55-67 | a new limiter has a full global bucket and tracks nobody |
| RateLimiters.RateLimiter.GetOrCreate | internal/ratelimit/limiter.go:96-105 | the entry of an address is its own one or a fresh full one that shares nothing |
| RateLimiters.RateLimiter.TouchEntry | internal/ratelimit/limiter.go:107-108 | the entry of an address is asked and stamped; no other entry or bucket changes |
| RateLimiters.RateLimiter.AllowIPAt | internal/ratelimit/limiter.go:90-109 | the in-place per-address decision changes exactly one entry, as specified |
| RateLimiters.RateLimiter.ReturnToken | internal/ratelimit/limiter.go:112-119 | a refund adds one token unless the global bucket is full |
| RateLimiters.RateLimiter.AllowRequest | internal/ratelimit/limiter.go:70-87 | the whole call over mutable objects equals the specified admission |
| RateLimiters.RateLimiter.CleanupAt | internal/ratelimit/limiter.go:137-151 | the deletion loop drops exactly the entries last seen before the cutoff |
| RateLimiters.RateLimiter.DropIdle | internal/ratelimit/limiter.go:143-147 | what is left are the entries not older than the cutoff, each the same object as before |
| RateLimiters.RateLimiter.GetStats | internal/ratelimit/limiter.go:159-172 | reports refilled global tokens, capacity, tracked addresses and the utilisation |
| RateLimiters.Utilization | internal/ratelimit/limiter.go:170 | the utilisation solves capacity (1 - u) = tokens, and is none exactly for capacity zero |
| RateLimiters.UtilizationInRange | internal/ratelimit/limiter.go:170 | the utilisation lies in [0, 1], is 0 exactly for a full bucket and 1 exactly for an empty one |
| LimiterRuns.UndisturbedCall | internal/ratelimit/limiter.go:70-87 | the three locked steps run without interference are the sequential call, and report which limit decided |
| LimiterRuns.RunConserves | internal/ratelimit/limiter.go:70-119 | over any interleaving, admitted calls, calls in flight and tokens grow by no more than time earned |
| LimiterRuns.GlobalConservation | internal/ratelimit/limiter.go:70-119 | from the start of any run: tokens lie between 0 and the capacity, and 10^9 (admitted + in flight + tokens - capacity) is at most rate times time, so a racing refund never creates a token |
| LimiterRuns.GlobalAdmissions | internal/ratelimit/limiter.go:70-87 | the admissions an observer counts never exceed the global capacity plus what the global rate earned |
| LimiterRuns.ObservedExactly | internal/ratelimit/limiter.go:55-172 | in every reachable state the statistics show the tokens last left plus what the configured global rate earned since, up to the configured capacity |
| LimiterRuns.GlobalAdmissionsExactly | internal/ratelimit/limiter.go:55-119 | for every configuration, within the time that fills the bucket, a run can admit `n` calls if and only if `n` is at most the capacity plus the whole tokens earned |
| LimiterRuns.RefundKeptExactly | internal/ratelimit/limiter.go:112-119 | a refund leaves the tokens accounted for unchanged if and only if the bucket has room when it arrives |
| LimiterRuns.RunLedger | internal/ratelimit/limiter.go:70-119 | over any interleaving, admitted + in flight + tokens change by exactly what refills credited less one per lost refund |
| LimiterRuns.UncreditedRunKeepsTokens | internal/ratelimit/limiter.go:70-119 | from tokens + in flight <= capacity, a run whose refills credit nothing loses no refund and no token |
| LimiterRuns.ShortRunIsUncredited | internal/ratelimit/bucket.go:63-81 | such a run is recognised by the clock: it ends before one global token is earned |
| LimiterRuns.RefundsLostExactly | internal/ratelimit/limiter.go:112-119 | of several refunds in a row exactly max(0, tokens + refunds - capacity) are lost |
| LimiterRuns.RefillOvertakesRefund | internal/ratelimit/limiter.go:112-119 | in every state, a refill that fills the bucket before a refund costs exactly that refund's token |
| LimiterRuns.RacingRefundLosesAToken | internal/ratelimit/limiter.go:112-119 | a run from the start in which exactly one refund is lost |
| LimiterRuns.RunShadows | internal/ratelimit/limiter.go:90-151 | bisimulation: a limiter with cleanup and one without stay in step, every collected entry being worth a full bucket by now |
| LimiterRuns.CleanupInvisibleExactly | internal/ratelimit/limiter.go:137-151 | cleanup changes no outcome of any interleaving if and only if 10^9 capacity <= rate (idle timeout + 1) |
| LimiterRuns.WitnessDecision | internal/ratelimit/limiter.go:137-151 | with a shorter timeout a schedule exists whose last decision flips when cleanup runs |
| LimiterRuns.TrackedBudget | internal/ratelimit/limiter.go:90-109 | while an address is tracked, what it is granted and keeps is bounded by what it had and earned |
| LimiterRuns.SlidingWindow | internal/ratelimit/limiter.go:90-109 | from any decision about an address on, it is granted at most capacity + rate * duration requests, whatever other calls and (when invisible) cleanups are interleaved |
| LimiterRuns.SlidingWindowIsAttained | internal/ratelimit/limiter.go:90-109 | a run meets the bound with equality |
| LimiterRuns.WindowsBoundedExactly | internal/ratelimit/limiter.go:90-151 | with the cleanup routine running, all windows of all runs keep the bound if and only if 10^9 capacity <= rate (idle timeout + 1) |
| Sorting.Sort | internal/cache/memory.go:281-283 | a sort by a strict weak order returns a sorted permutation |
| MemoryCaches.SortByCreation | internal/cache/memory.go:281-283 | all entries of the store, each once, in order of creation |
| MemoryCaches.VictimsAreOldest | internal/cache/memory.go:291-293 | no removed entry was created after one that stays |
| MemoryCaches.InMemoryCache.EvictLRU | internal/cache/memory.go:265-296 | removes exactly max(1, n/10) keys, none younger than a survivor, leaves survivors unchanged and counts the removals; an empty store is left alone |
| MemoryCaches.RoomCanBeMade | internal/cache/memory.go:265-296 | an eviction always has victims to pick |
| MemoryCaches.InMemoryCache.DeleteFirst | internal/cache/memory.go:291-293 | deletes exactly the first `n` keys of the sorted entries |
| MemoryCaches.InMemoryCache.Collect | internal/cache/memory.go:276-279 | lists every entry of the map once |
| MemoryCaches.InMemoryCache.Get | internal/cache/memory.go:38-58 | returns the value if present and unexpired, drops an expired entry, and counts exactly one hit or miss |
| MemoryCaches.InMemoryCache.GetWithMetadata | internal/cache/memory.go:151-171 | the same with the whole entry |
| MemoryCaches.InMemoryCache.Set | internal/cache/memory.go:61-85 | stores under the defaulted and clamped TTL, after an eviction when full |
| MemoryCaches.InMemoryCache.SetWithMetadata | internal/cache/memory.go:174-185 | stores the entry as given, after an eviction when full |
| MemoryCaches.InMemoryCache.SetMultiple | internal/cache/memory.go:125-148 | stores a batch under the TTL as given, after at most one eviction |
| MemoryCaches.InMemoryCache.StoreItems | internal/cache/memory.go:138-145 | the loop overwrites exactly the keys of the batch |
| MemoryCaches.InMemoryCache.GetMultiple | internal/cache/memory.go:106-122 | returns exactly the present, unexpired keys asked for |
| MemoryCaches.InMemoryCache.Expire | internal/cache/memory.go:188-197 | moves the expiry of an entry that is still in the map, expired or not |
| MemoryCaches.InMemoryCache.EvictExpired | internal/cache/memory.go:215-232 | keeps exactly the unexpired entries and returns the drop in size |
| MemoryCaches.InMemoryCache.CollectExpired | internal/cache/memory.go:219-224 | the sweep's first loop finds exactly the expired keys, each once |
| MemoryCacheRuns.ReadExactly | internal/cache/memory.go:38-58 | a read shows the entry up to its last moment and removes it exactly when that has passed; other entries stay |
| MemoryCacheRuns.BatchReadExactly | internal/cache/memory.go:106-122 | a batch read is the single reads of its keys, leaving out those not found |
| MemoryCacheRuns.SweepExactly | internal/cache/memory.go:215-232 | a sweep keeps every entry whose last moment has not passed, as it is, and no other |
| MemoryCacheRuns.SetLifetimeExactly | internal/cache/memory.go:61-85 | what a `Set` stores can be read until now + min(requested TTL, or the default one if none is requested, MaxTTL); other keys stay unless evicted |
| MemoryCacheRuns.BatchLifetimeExactly | internal/cache/memory.go:125-148 | what a batch stores can be read for its TTL as given |
| MemoryCacheRuns.SetIsReadUntil | internal/cache/memory.go:38-85 | after a `Set`, in any run of reads and sweeps each read of the key finds the value exactly until then |
| MemoryCacheRuns.WritesEvictOldest | internal/cache/memory.go:75-296 | a write costs another entry only when the store is full with it, and never one younger than an entry it spares |
| MemoryCacheRuns.SizeBound | internal/cache/memory.go:61-185 | with batches of at most B keys no run takes the store above the larger of its start, MaxSize and 10 B (or 1 when B is at most 1) |
| MemoryCacheRuns.ReachableSizesExactly | internal/cache/memory.go:61-185 | from the empty store, legal runs with batches of at most B keys reach precisely the sizes up to that limit |
| MemoryCacheRuns.MaxSizeKeptExactly | internal/cache/memory.go:75-145 | MaxSize itself is kept by all runs if and only if it is positive and B is at most 1 or at most a tenth of it |
| MemoryCacheRuns.ExpireRevivesExactly | internal/cache/memory.go:188-197 | an expired entry can be read again if and only if it is still in the map and its new expiry covers the moment; its value and all other keys are untouched |
| MemoryCacheRuns.RemovalIsUnobservable | internal/cache/memory.go:38-232 | in any run of reads and sweeps each read answers as if nothing expired had ever been removed |
| MemoryCacheSteps.RunExplained | internal/cache/memory.go:38-94 | in every reachable state each stored entry is the one stored last, and each reader in flight holds what was current at its read step |
| MemoryCacheSteps.UndisturbedGet | internal/cache/memory.go:38-58 | the steps of a `Get` that nothing interferes with drop the entry found expired and count one hit or one miss |
| MemoryCacheSteps.UndisturbedOperation | internal/cache/memory.go:38-232 | the steps of any operation that nothing interferes with do to the store what the sequential operation does |
| MemoryCacheSteps.StoreBatchShows | internal/cache/memory.go:125-148 | a stored batch is what the reference map holds for its keys, with the TTL as given |
| MemoryCacheSteps.OtherShows | internal/cache/memory.go:88-103 | of the other steps only a delete and a clear touch the reference map, by emptying it for their keys |
| MemoryCacheSteps.HitsAreLatest | internal/cache/memory.go:38-58 | under every interleaving a hit returns the entry stored last for its key before its read step, unexpired when checked |
| MemoryCacheSteps.EveryReadIsCounted | internal/cache/memory.go:38-58 | under every interleaving, hits + misses + reads under way are exactly the reads begun, hits being the reads that returned an entry |
| MemoryCacheSteps.HitsAreYoung | internal/cache/memory.go:61-73 | without a layer below, no hit is older than the largest effective TTL in use, batches included |
| MemoryCacheSteps.AgeExactly | internal/cache/memory.go:38-85 | a promised age of hits is kept by all interleavings if and only if it covers that TTL |
| MemoryCacheSteps.DropsWhatItReadOrNewer | internal/cache/memory.go:39-52 | in every reachable state, what a reader of an expired entry is about to delete is that entry or one stored after its read step |
| MemoryCacheSteps.DropNoticedExactly | internal/cache/memory.go:39-52 | the delete changes a later read if and only if the store holds, unexpired then, an entry stored since the reader's first step |
| MemoryCacheSteps.ReaderDropsANewerEntry | internal/cache/memory.go:39-52 | a run from the empty cache in which a fresh entry is lost that way |
| FallbackCaches.FallbackCache.constructor | internal/cache/fallback.go:22-33 | the fallback starts empty under the primary's configuration with the fallback TTL as default |
| FallbackCaches.FallbackCache.Get | internal/cache/fallback.go:36-63 | primary hit copied to the fallback; on error or miss the fallback answers |
| FallbackCaches.FallbackCache.GetWithMetadata | internal/cache/fallback.go:151-167 | the same with entries, copied with their own expiry |
| FallbackCaches.FallbackCache.GetMultiple | internal/cache/fallback.go:109-135 | the primary's values, and the fallback's for the keys the primary did not return |
| FallbackCaches.FallbackCache.Set | internal/cache/fallback.go:66-80 | the fallback is written whether or not the primary failed |
| FallbackCaches.FallbackCache.SetMultiple | internal/cache/fallback.go:138-148 | the same for a batch |
| FallbackCaches.FallbackCache.SetWithMetadata | internal/cache/fallback.go:170-180 | the same for a whole entry |
| FallbackCaches.FallbackCache.Delete | internal/cache/fallback.go:83-93 | the fallback forgets the key whether or not the primary failed |
| FallbackCaches.FallbackCache.Clear | internal/cache/fallback.go:96-106 | the fallback is emptied whether or not the primary failed |
| FallbackCaches.FallbackCache.EvictExpired | internal/cache/fallback.go:208-220 | sweeps both layers, or the fallback alone, and returns how many entries went |
| FallbackRuns.StalenessBound | internal/cache/fallback.go:36-167 | whatever fails, every value read was written by a `Set` or a batch at most P + F earlier, plus the time between the two layers |
| FallbackRuns.FreshnessExactly | internal/cache/fallback.go:36-167 | a promised age holds over all runs if and only if it covers P, min(FallbackTTL, MaxTTL) and that time |
| FallbackRuns.StalenessBoundIsReached | internal/cache/interface.go:88-102 | under the default configuration a one-minute price is served six minutes later |
| FallbackRuns.BatchIsEachRead | internal/cache/fallback.go:36-135 | a batch read answers for every key what a single read at the same moments would |
| FallbackRuns.SetServedExactly | internal/cache/fallback.go:66-80 | a `Set` that reached the primary is served until now + min(TTL, MaxTTL) by the primary, if that reports the key, or until now + min(FallbackTTL, MaxTTL) by the fallback, and no longer |
| FallbackRuns.BatchServedExactly | internal/cache/fallback.go:138-148 | the same for a batch, its TTL and the fallback TTL taken as given |
| FallbackRuns.EntryServedExactly | internal/cache/fallback.go:170-180 | an entry stored whole is served until its own expiry by either layer |
| FallbackRuns.HitIsCopied | internal/cache/fallback.go:36-167 | a primary hit is in the fallback afterwards, for the fallback TTL or with its own expiry; other keys stay unless evicted |
| FallbackRuns.MissDropsExpired | internal/cache/fallback.go:36-63 | a read the primary does not answer drops what it finds expired in the layers it asks and changes nothing else |
| FallbackRuns.SweepBothExactly | internal/cache/fallback.go:208-220 | a sweep takes from each layer exactly what has expired by its clock, from the primary only if the call goes through |
| FallbackRuns.WriteLeavesOthers | internal/cache/fallback.go:66-180 | a write leaves the keys it does not name alone, in the primary however the call goes and in the fallback but for the eviction |
| FallbackRuns.LastWriteCoherence | internal/cache/fallback.go:36-180 | a value read is the one written last, never an overwritten or deleted one, if the earlier writes that concern its key went through, whatever else fails |
| FallbackRuns.CoherenceExactly | internal/cache/fallback.go:36-180 | after any run with any failures, all reads until the next write are coherent if and only if neither layer holds an unexpired entry of the key that disagrees with the last write |
| FallbackRuns.FailedOverwriteResurfaces | internal/cache/fallback.go:48-71 | the premise is needed: after a failed overwrite a primary hit returns the old value and puts it back over the new one |
| FallbackRuns.FailedWriteNoticedExactly | internal/cache/fallback.go:66-180 | a set, batch, delete or clear can be missed by later reads if and only if it failed without effect on the key and the primary holds an unexpired entry that disagrees with it |
| FallbackSteps.UndisturbedRead | internal/cache/fallback.go:36-63 | the interleaved steps of a read run without interference are the sequential operation |
| FallbackSteps.UndisturbedAnswer | internal/cache/fallback.go:36-63 | what its steps serve is what the sequential read answers |
| FallbackSteps.UndisturbedBatchRead | internal/cache/fallback.go:109-135 | the same for a batch read, which changes nothing |
| FallbackSteps.UndisturbedSweep | internal/cache/fallback.go:208-220 | the two steps of a sweep are the sequential one |
| FallbackSteps.UndisturbedWrite | internal/cache/fallback.go:66-180 | so are those of a set, batch, delete or clear |
| FallbackSteps.RunFollows | internal/cache/fallback.go:36-180 | in every reachable state the primary holds nothing but the last write of a key whose writes went through, and the fallback what was last written when the operation that put it there was at the primary |
| FallbackSteps.InterleavedCoherenceExactly | internal/cache/fallback.go:36-180 | under every interleaving, all that is read until the next step of a write is the last write if and only if neither the unexpired entry of the fallback nor a copy under way stems from an operation that was at the primary when the last write was another |
| FallbackSteps.UndisturbedIsCoherent | internal/cache/fallback.go:36-180 | at rest reads are coherent if no operation on the key was overtaken by a write between its two layers |
| FallbackSteps.ReadIsOvertaken | internal/cache/fallback.go:38-53 | the condition is needed in every state: a read overtaken by a set puts the older value over the newer one though no call fails |
| FallbackSteps.WritesCross | internal/cache/fallback.go:66-80 | two crossing sets leave different values in the two layers |
| FallbackSteps.InterleavedStaleness | internal/cache/fallback.go:36-180 | under every interleaving each value served was written at most P + F earlier, plus the time an operation takes between its layers |
| RefreshWorkers.Reachable | internal/cache/fallback.go:238-335 | in every reachable state the wait group counts the live and announced workers, the stop channel was closed at most once, the refresh channel holds at most 1000 keys, and the mutex is held by the one call past its lock |
| RefreshWorkers.StopReturnsAfterTheLastWorker | internal/cache/fallback.go:257-271 | once any stop call has returned no worker is alive or still to come |
| RefreshWorkers.StartSpawnsExactly | internal/cache/fallback.go:238-255 | from every state, a start call that is through has brought exactly max(0, RefreshWorkers) refresh workers and one cleanup worker and left the others as they were |
| RefreshWorkers.StartCanFinish | internal/cache/fallback.go:238-255 | a start call is never held up |
| RefreshWorkers.RunFits | internal/cache/fallback.go:274-316 | over any run only refresh workers refresh and queue keys, only the cleanup worker sweeps, and no worker leaves before a stop or a cancellation |
| RefreshWorkers.ChannelIsQueue | internal/cache/fallback.go:282-335 | over any run, what was in the refresh channel and what it accepted is, in order, what was received and what is left; a key is refused only while 1000 are queued |
| RefreshWorkers.TickQueues | internal/cache/fallback.go:325-335 | a tick queues the keys about to expire in order as far as there is room, passes the rest over and leaves the worker free |
| RefreshWorkers.RefreshTakesFirst | internal/cache/fallback.go:282-285 | a worker takes the oldest queued key, and no other while it refreshes it |
| RefreshWorkers.WorkerCanLeave | internal/cache/fallback.go:274-335 | after the stop channel is closed or the context cancelled a worker reaches its end by its own steps in a number bounded by its pending keys: no send blocks and no step needs the mutex |
| RefreshWorkers.CancelledWorkerCanLeave | internal/cache/fallback.go:282-312 | once the context has been cancelled, in every reachable state every worker can end without any stop call |
| RefreshWorkers.StopCannotDeadlock | internal/cache/fallback.go:257-271 | from every reachable state all pending stop calls can run to their return although one holds the mutex across its wait |
| RefreshWorkers.StartIsAwaitedExactly | internal/cache/fallback.go:238-271 | in every reachable state a start call is awaited by all stops to come, however the pool goes on, if and only if no stop has been called yet (or the fallback is disabled) |
| RefreshWorkers.LateStartIsNotAwaited | internal/cache/fallback.go:238-271 | after any stop call, however far it got, the pool can run on from a start call, without another call, until every stop has returned and a worker is alive |
| RefreshWorkers.LateStartOutlivesStop | internal/cache/fallback.go:238-271 | such a run from the idle pool, past a further stop call |
| Pairs.NormalizeExactly | internal/pairs/pairs.go:10-20 | accepts exactly the strings that, upper-cased and trimmed, are a non-empty base and quote around one slash, and returns that form |
| Pairs.NormalFormExactly | internal/pairs/pairs.go:10-20 | a pair is the normal form of a string if and only if the string is the pair, its letters in any case, with any white space around |
| Pairs.NormalizeErrors | internal/pairs/pairs.go:12-18 | which of the two errors is returned depends on whether there is a slash |
| Pairs.NormalizeIdempotent | internal/pairs/pairs.go:10-20 | normalising a normal form returns it |
| Pairs.SymbolFactorsThroughNormalize | internal/pairs/pairs.go:24-53 | the symbol map is defined exactly on user pairs and depends only on the normal form |
| Pairs.SymbolExactly | internal/pairs/pairs.go:33-50 | the base becomes XBT exactly for BTC against CHF and XXBT exactly for BTC against anything else, the quote ZUSD or ZEUR exactly for USD or EUR; anything else is kept |
| Pairs.SupportedSymbols | internal/pairs/pairs.go:24-53 | the symbols of BTC/USD, BTC/EUR and BTC/CHF are XXBTZUSD, XXBTZEUR and XBTCHF |
| Pairs.SymbolIsNoUserPair | internal/pairs/pairs.go:24-53 | a symbol contains no slash and is never itself a user pair |
| Pairs.ReadBackExactly | internal/pairs/pairs.go:56-88 | a symbol reads back if and only if it is one of the two codes of Bitcoin followed by one of the three codes of quotes, and then as Bitcoin against that quote |
| Pairs.ReadBackIsStable | internal/pairs/pairs.go:56-88 | whenever a symbol reads back as a pair, mapping the pair out and back returns it |
| Pairs.RoundTripExactly | internal/pairs/pairs.go:24-88 | a user pair survives the round trip if and only if it is BTC against USD, EUR or CHF |
| Pairs.SymbolSharedExactly | internal/pairs/pairs.go:24-53 | a normal pair shares its symbol, hence its cache key, with another normal pair if and only if it is longer than three characters |
| Pairs.SymbolsCollide | internal/pairs/pairs.go:33-50 | a pair and its spelling in the exchange's codes share a symbol, and differ exactly when the map renames the base or the quote |
| LtpService.Service.GetLTP | internal/ltp/service.go:55-130 | the loops over slices, maps and the cache compute the specified outcome; the quotes list its prices strictly increasing by pair |
| LtpService.Service.NormalizeAll | internal/ltp/service.go:60-72 | the first loop yields the distinct normal forms in first-seen order, or the first error |
| LtpService.Service.ReadCache | internal/ltp/service.go:74-89 | splits the pairs into cached prices and misses, in order |
| LtpService.Service.Store | internal/ltp/service.go:104-115 | writes prices back one by one and stops at the first missing one |
| LtpService.Service.SortedQuotes | internal/ltp/service.go:117-129 | each result once, strictly increasing by pair |
| LtpService.ListingUnique | internal/ltp/service.go:117-129 | there is only one such listing, so the response is a function of the prices |
| LtpService.LessExactly | internal/ltp/service.go:123 | the order of the listing is that of dictionaries: the first difference decides, and a beginning comes first |
| LtpService.NormalizedMeaning | internal/ltp/service.go:60-72 | succeeds exactly when every input has a normal form, and lists those forms without repetition |
| LtpService.NormalizedInFirstSeenOrder | internal/ltp/service.go:60-72 | an earlier pair was first seen earlier |
| LtpService.NormalizedPairsHaveSymbols | internal/ltp/service.go:79-82 | the second mapping step never fails |
| LtpService.SuccessExactly | internal/ltp/service.go:55-130 | succeeds if and only if there are inputs, all normal, and every miss is priced; the pairs are then exactly the normal forms, each at its cached price, else at the exchange's |
| LtpService.ErrorExactly | internal/ltp/service.go:56-110 | which error is reported: no pairs, the first input without a normal form, a failed request, or the first missed pair without a price, each exactly when that is the case |
| LtpService.AskedOnceForTheMissed | internal/ltp/service.go:91-100 | the exchange is asked at most once, for exactly the missed pairs, each once |
| LtpService.AskedInFirstSeenOrder | internal/ltp/service.go:77-95 | the request lists them in the order they are first seen among the inputs |
| LtpService.RequestRepeatsExactly | internal/ltp/service.go:93-96 | a request repeats a symbol if and only if two different pairs of the call share it and the cache does not hold it |
| LtpService.CacheAfterSuccess | internal/ltp/service.go:104-115 | the cache gained exactly the missed pairs at the exchange's prices |
| LtpService.CacheAfterFailure | internal/ltp/service.go:104-115 | the cache gained exactly the misses before the first unpriced one, or nothing |
| LtpService.SecondCallIsCached | internal/ltp/service.go:74-129 | a successful call repeated asks nothing, changes nothing and answers the same |
| LtpService.OrderDoesNotMatter | internal/ltp/service.go:55-130 | permuting or repeating inputs changes neither success nor response |
| LtpService.CacheIsTransparent | internal/ltp/service.go:74-129 | if what is cached for the pairs agrees with an exchange that answers every request for known symbols, a call that would succeed without the cache succeeds with the same response; the exchange may refuse anything else |
| LtpService.ClientQuotes | internal/kraken/client.go:49-101 | a client that refuses empty requests and unknown symbols is such an exchange |
| LtpService.UncachedSuccessExactly | internal/ltp/service.go:55-130 | without a cache a call succeeds if and only if it has inputs, all normal, all known to the exchange |
| LtpService.RefreshHookAlwaysFails | cmd/server/main.go:58-69 | the refresh passes a cache key where a user pair is expected and is refused for every key without a slash |
| LtpService.CachedSymbolsAreNoPairs | internal/ltp/service.go:104-115 | every key a call caches is one without a slash |
| Backoffs.JitteredRange | internal/backoff/backoff.go:109-118 | jitter moves a delay by at most its share and never below zero, so the fallback to the base delay is not taken |
| Backoffs.DelayBounds | internal/backoff/backoff.go:100-121 | a delay lies within the jitter's share of its capped value, up to the dropped fraction |
| Backoffs.DelaysGrow | internal/backoff/backoff.go:100-107 | the first capped delay is min(BaseDelay, MaxDelay) and each next one min(m times the last, MaxDelay) |
| Backoffs.DelayExactly | internal/backoff/backoff.go:109-121 | for any jitter factor, the wait is the capped delay scaled by 1 + j times the draw, without its fraction, or the base delay if that is negative |
| Backoffs.TotalBackoffBound | internal/backoff/backoff.go:59-121 | no wait is negative or above (1 + j) MaxDelay, and n waits add up to at most (1 + j) min(n MaxDelay, BaseDelay (m^n - 1)/(m - 1)) |
| Backoffs.SeriesClosed | internal/backoff/backoff.go:100-107 | the closed form of the geometric sum |
| Backoffs.Retry | internal/backoff/backoff.go:56-97 | the loop calls the function exactly up to the first attempt that does not continue and returns what that attempt decides, with exactly the specified waits |
| Backoffs.FirstDecisiveUnique | internal/backoff/backoff.go:59-94 | there is one such attempt, so that contract fixes the result |
| Backoffs.SuccessExactly | internal/backoff/backoff.go:63-67 | it succeeds if and only if some allowed attempt succeeds after only retryable failures and undisturbed waits |
| Backoffs.ExhaustedExactly | internal/backoff/backoff.go:76-96 | it gives up if and only if every allowed attempt failed retryably undisturbed, with the last error |
| Backoffs.FailureExactly | internal/backoff/backoff.go:69-88 | a refused call returns the decisive attempt's own error, and a cancelled one had its wait cut after a retryable failure |
| Backoffs.OnlyTransientFailuresAreRetried | internal/backoff/backoff.go:124-132 | with the HTTP policy only 429 and 5xx failures precede the decisive attempt, and exactly other errors are refused |
| Backoffs.RetryStaysWithinBudget | internal/backoff/backoff.go:56-97 | however a call ends, its waits stay within the bound for all its attempts |

## Left out

- FallbackRuns.StalenessBound: here and in `InterleavedStaleness` `SetWithMetadata` is excluded, because its caller chooses the expiry; `Expire` is not part of the layered runs, because it extends the life of entries, expired ones included, at will.
- FallbackSteps.InterleavedCoherenceExactly: one access to one layer is one step; the gap between the two locks of the in-memory layer itself is the subject of `MemoryCacheSteps`. `steps` and `began` number the steps for the statements only; nothing depends on them.
- MemoryCacheSteps.HitsAreLatest: `Expire` is not among the interleaved steps.
- FallbackCaches.FallbackCache.GetWithMetadata: entries are values here; in the source both caches share the pointer, so a later `Expire` through one in-memory layer shows in the other.
- FallbackCaches.FallbackCache.Get: the hit and miss counters of the fallback are not specified at this level.
- RefreshWorkers.Reachable: starts come before the first stop (`StartIsAwaitedExactly` shows why); the keys about to expire are an arbitrary list, so the expiry ratio of `getExpiringKeys` is not modelled, and what a refresh or a sweep does to the layers is modelled in the caches instead.
- RefreshWorkers.StopCannotDeadlock: states that the return stays possible from every reachable state; fairness of the scheduler is not modelled.
- LtpService.CacheIsTransparent: assumes that a request for known symbols alone is answered; with a failing network a cached and an uncached call can differ.
- LtpService.OrderDoesNotMatter: assumes an exchange that prices a request by the set of its symbols.
- Backoffs.TotalBackoffBound: real arithmetic in place of `float64`; multipliers above one and jitter factors from zero to one.
- LimiterRuns.GlobalAdmissionsExactly: over longer times every refill drops a fraction of a token and can be cut at the capacity; `GlobalAdmissions` stays the bound, and how closely it is approached depends on when refills happen.
- LimiterRuns.GlobalConservation: positive rates and capacities, as every configuration of the program has.
- `internal/cache/redis.go` (client calls, JSON), replaced by the unreliable primary.
- `FallbackCache.Expire`, `TTL`, `Size`, `Ping` and `Close`: each follows directly from the layers.
- `internal/kraken` apart from which requests its client refuses, `internal/httpserver`, `internal/resp`, `internal/metrics`, `internal/health`, `cmd/server` apart from the refresh hook, and `internal/cache/factory.go`: HTTP, metrics, signals and environment variables.
- Texts of errors: an error is a tag. Tickers and scheduling are any order of steps.
