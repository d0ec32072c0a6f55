/** The last-traced-price service of internal/ltp/service.go: normalise and deduplicate the pairs,
    take what the cache has, ask the exchange once for the rest, write it back, and sort. */
module LtpService {
  import opened Prelude
  import opened Sorting
  import opened Pairs

  type Prices = map<string, real>

  datatype Quote = Quote(pair: string, amount: real)

  datatype LtpError = NoPairs | BadPair(error: PairError) | ApiFailed | PairNotFound(pair: string)

  /** What one call does: its answer as prices by pair, the cache it leaves, the requests it sends. */
  datatype Outcome = Outcome(answer: Result<Prices, LtpError>, cache: Prices, calls: seq<seq<string>>)

  /** The exchange: a reply to each list of symbols, or nothing when the request fails. */
  type Exchange = seq<string> -> Option<Prices>

  // ---------------------------------------------------------------- the call on values

  /** The distinct normal forms of the inputs in the order they are first seen. */
  function Normalized(inputs: seq<string>): Result<seq<string>, LtpError>
    decreases inputs
  {
    if inputs == [] then Ok([])
    else
      match Normalized(inputs[..|inputs| - 1])
      case Err(e) => Err(e)
      case Ok(ns) =>
        match NormalizeUserPair(inputs[|inputs| - 1])
        case Err(e) => Err(BadPair(e))
        case Ok(n) => Ok(if n in ns then ns else ns + [n])
  }

  /** The symbol a normal pair is cached and requested under. */
  function SymbolOf(pair: string): string {
    match ToKrakenSymbol(pair)
    case Ok(sym) => sym
    case Err(_) => ""
  }

  function Symbols(pairs: seq<string>): seq<string> {
    seq(|pairs|, i requires 0 <= i < |pairs| => SymbolOf(pairs[i]))
  }

  /** The pairs whose symbol the cache does not hold. */
  function Missed(pairs: seq<string>, cache: Prices): seq<string>
    decreases pairs
  {
    if pairs == [] then []
    else
      var p := pairs[|pairs| - 1];
      Missed(pairs[..|pairs| - 1], cache) + (if SymbolOf(p) in cache then [] else [p])
  }

  /** The pairs a call deals with, and those of them it must ask the exchange for. */
  function PairsIn(inputs: seq<string>): seq<string> {
    match Normalized(inputs)
    case Ok(ns) => ns
    case Err(_) => []
  }

  function Needed(inputs: seq<string>, cache: Prices): seq<string> {
    Missed(PairsIn(inputs), cache)
  }

  function Reply(exchange: Exchange, needed: seq<string>): Prices {
    match exchange(Symbols(needed))
    case Some(prices) => prices
    case None => map[]
  }

  /** How many of the leading symbols the exchange priced. */
  function Found(syms: seq<string>, prices: Prices): (n: nat)
    ensures n <= |syms|
    ensures forall i | 0 <= i < n :: syms[i] in prices
    ensures n < |syms| ==> syms[n] !in prices
    decreases syms
  {
    if syms == [] then 0
    else
      var n := Found(syms[..|syms| - 1], prices);
      if n == |syms| - 1 && syms[n] in prices then n + 1 else n
  }

  /** The cache after writing back the prices of `syms`. */
  function WriteBack(cache: Prices, syms: seq<string>, prices: Prices): Prices
    requires forall s | s in syms :: s in prices
  {
    cache + map s | s in syms :: prices[s]
  }

  /** The prices by pair that the cache has. */
  function CachedOf(pairs: seq<string>, cache: Prices): Prices {
    map p | p in pairs && SymbolOf(p) in cache :: cache[SymbolOf(p)]
  }

  /** The fetched prices by pair; `syms` are the symbols of `pairs`. */
  function FetchedOf(pairs: seq<string>, syms: seq<string>, prices: Prices): Prices
    requires |pairs| == |syms| && forall s | s in syms :: s in prices
    decreases pairs
  {
    if pairs == [] then map[]
    else
      var n := |pairs| - 1;
      FetchedOf(pairs[..n], syms[..n], prices)[pairs[n] := prices[syms[n]]]
  }

  /** Asking the exchange for the needed pairs and writing its prices back until one is missing. */
  function Fetch(needed: seq<string>, cached: Prices, cache: Prices, exchange: Exchange): (Result<Prices, LtpError>, Prices) {
    var syms := Symbols(needed);
    match exchange(syms)
    case None => (Err(ApiFailed), cache)
    case Some(prices) =>
      var n := Found(syms, prices);
      if n < |needed| then (Err(PairNotFound(needed[n])), WriteBack(cache, syms[..n], prices))
      else (Ok(cached + FetchedOf(needed, syms, prices)), WriteBack(cache, syms, prices))
  }

  function Ltp(inputs: seq<string>, cache: Prices, exchange: Exchange): Outcome {
    if inputs == [] then Outcome(Err(NoPairs), cache, [])
    else
      match Normalized(inputs)
      case Err(e) => Outcome(Err(e), cache, [])
      case Ok(pairs) =>
        var needed, cached := Missed(pairs, cache), CachedOf(pairs, cache);
        if needed == [] then Outcome(Ok(cached), cache, [])
        else
          var (answer, cache') := Fetch(needed, cached, cache, exchange);
          Outcome(answer, cache', [Symbols(needed)])
  }

  /** The missed pairs are those whose symbol is not cached, each once. */
  lemma {:induction false} MissedMeaning(pairs: seq<string>, cache: Prices)
    ensures forall p :: p in Missed(pairs, cache) <==> p in pairs && SymbolOf(p) !in cache
    ensures NoDuplicates(pairs) ==> NoDuplicates(Missed(pairs, cache))
    decreases pairs
  {
    if pairs != [] {
      var before, last := pairs[..|pairs| - 1], pairs[|pairs| - 1];
      MissedMeaning(before, cache);
      SplitLast(pairs);
      if NoDuplicates(pairs) {
        assert last !in before;
      }
    }
  }

  /** They keep the order the pairs had. */
  lemma {:induction false} MissedKeepsOrder(pairs: seq<string>, cache: Prices, i: nat, j: nat) returns (x: nat, y: nat)
    requires i < j < |Missed(pairs, cache)|
    ensures x < y < |pairs| && pairs[x] == Missed(pairs, cache)[i] && pairs[y] == Missed(pairs, cache)[j]
    decreases pairs
  {
    var before := pairs[..|pairs| - 1];
    if j < |Missed(before, cache)| {
      x, y := MissedKeepsOrder(before, cache, i, j);
    } else {
      x := MissedPosition(before, cache, i);
      y := |before|;
    }
  }

  lemma {:induction false} MissedPosition(pairs: seq<string>, cache: Prices, i: nat) returns (x: nat)
    requires i < |Missed(pairs, cache)|
    ensures x < |pairs| && pairs[x] == Missed(pairs, cache)[i]
    decreases pairs
  {
    var before := pairs[..|pairs| - 1];
    if i < |Missed(before, cache)| {
      x := MissedPosition(before, cache, i);
    } else {
      x := |before|;
    }
  }

  lemma SymbolMembers(pairs: seq<string>, s: string)
    ensures s in Symbols(pairs) <==> exists p :: p in pairs && SymbolOf(p) == s
  {
    if s in Symbols(pairs) {
      var i :| 0 <= i < |pairs| && Symbols(pairs)[i] == s;
      assert pairs[i] in pairs;
    }
    if p :| p in pairs && SymbolOf(p) == s {
      var i :| 0 <= i < |pairs| && pairs[i] == p;
      assert Symbols(pairs)[i] == s;
    }
  }

  // ---------------------------------------------------------------- the order of the response

  /** `strings.Compare(a, b) < 0`. */
  predicate Less(a: string, b: string)
    decreases a
  {
    b != "" && (a == "" || a[0] < b[0] || (a[0] == b[0] && Less(a[1..], b[1..])))
  }

  lemma {:induction false} LessAsymmetric(a: string, b: string)
    requires Less(a, b)
    ensures !Less(b, a) && a != b
    decreases a
  {
    if a != "" && a[0] == b[0] {
      LessAsymmetric(a[1..], b[1..]);
    }
  }

  lemma {:induction false} LessTotal(a: string, b: string)
    requires !Less(a, b) && !Less(b, a)
    ensures a == b
    decreases a
  {
    if a != "" && b != "" {
      LessTotal(a[1..], b[1..]);
      assert a == [a[0]] + a[1..] && b == [b[0]] + b[1..];
    }
  }

  lemma {:induction false} LessTransitive(a: string, b: string, c: string)
    requires Less(a, b) && Less(b, c)
    ensures Less(a, c)
    decreases a
  {
    if a != "" && a[0] == b[0] == c[0] {
      LessTransitive(a[1..], b[1..], c[1..]);
    }
  }

  lemma LessIsStrictOrder()
    ensures StrictWeakOrder(Less)
  {
    forall a, b | Less(a, b)
      ensures !Less(b, a)
    {
      LessAsymmetric(a, b);
    }
    forall a, b, c | !Less(a, b) && !Less(b, c)
      ensures !Less(a, c)
    {
      if Less(a, c) {
        if Less(b, a) {
          LessTransitive(b, a, c);
        } else {
          LessTotal(a, b);
        }
      }
    }
  }

  /** `a` and `b` agree before position `k`, where `a` ends or has the smaller character. */
  predicate BreaksAt(a: string, b: string, k: nat) {
    k <= |a| && k < |b| && a[..k] == b[..k] && (k == |a| || a[k] < b[k])
  }

  /** The order is the one of dictionaries: the first difference decides, and a beginning comes first. */
  lemma {:induction false} LessExactly(a: string, b: string)
    ensures Less(a, b) <==> exists k: nat :: BreaksAt(a, b, k)
    decreases a
  {
    if a != "" && b != "" {
      LessExactly(a[1..], b[1..]);
      if k: nat :| BreaksAt(a[1..], b[1..], k) {
        BreaksLater(a, b, k);
      }
      if k: nat :| BreaksAt(a, b, k) {
        if k > 0 {
          assert a[..k][0] == a[0] && b[..k][0] == b[0];
          BreaksLater(a, b, k - 1);
        }
      }
    }
    if b != "" && (a == "" || a[0] < b[0]) {
      assert BreaksAt(a, b, 0);
    }
  }

  lemma BreaksLater(a: string, b: string, k: nat)
    requires a != "" && b != ""
    ensures a[0] == b[0] ==> (BreaksAt(a, b, k + 1) <==> BreaksAt(a[1..], b[1..], k))
  {
    if a[0] == b[0] && k <= |a[1..]| && k < |b[1..]| {
      assert a[..k + 1] == [a[0]] + a[1..][..k] && b[..k + 1] == [b[0]] + b[1..][..k];
      assert a[..k + 1][1..] == a[1..][..k] && b[..k + 1][1..] == b[1..][..k];
    }
  }

  predicate StrictlyIncreasing(quotes: seq<Quote>) {
    forall i, j | 0 <= i < j < |quotes| :: Less(quotes[i].pair, quotes[j].pair)
  }

  /** `quotes` lists the prices once each, strictly increasing by pair. */
  ghost predicate IsListing(prices: Prices, quotes: seq<Quote>) {
    && StrictlyIncreasing(quotes)
    && (forall q | q in quotes :: q.pair in prices && prices[q.pair] == q.amount)
    && (forall p | p in prices :: Quote(p, prices[p]) in quotes)
  }

  /** There is only one such listing, so the response is a function of the prices by pair. */
  lemma {:induction false} ListingUnique(prices: Prices, a: seq<Quote>, b: seq<Quote>)
    requires IsListing(prices, a) && IsListing(prices, b)
    ensures a == b
    decreases a
  {
    if a == [] || b == [] {
      EmptyListing(prices, a);
      EmptyListing(prices, b);
    } else {
      HeadsAgree(prices, a, b);
      TailIsListing(prices, a);
      TailIsListing(prices, b);
      ListingUnique(prices - {a[0].pair}, a[1..], b[1..]);
      SameHeadAndTail(a, b);
    }
  }

  lemma SameHeadAndTail(a: seq<Quote>, b: seq<Quote>)
    requires a != [] && b != [] && a[0] == b[0] && a[1..] == b[1..]
    ensures a == b
  {
    assert a == [a[0]] + a[1..] && b == [b[0]] + b[1..];
  }

  lemma EmptyListing(prices: Prices, a: seq<Quote>)
    requires IsListing(prices, a)
    ensures a == [] <==> prices == map[]
  {
    if a != [] {
      assert a[0] in a;
    }
    if p :| p in prices {
      assert Quote(p, prices[p]) in a;
    }
  }

  lemma HeadIsLeast(prices: Prices, a: seq<Quote>, p: string)
    requires IsListing(prices, a) && p in prices
    ensures a != [] && (p == a[0].pair || Less(a[0].pair, p))
  {
    assert Quote(p, prices[p]) in a;
    var i :| 0 <= i < |a| && a[i] == Quote(p, prices[p]);
  }

  lemma HeadsAgree(prices: Prices, a: seq<Quote>, b: seq<Quote>)
    requires IsListing(prices, a) && IsListing(prices, b) && a != [] && b != []
    ensures a[0] == b[0]
  {
    assert a[0] in a && b[0] in b;
    HeadIsLeast(prices, a, b[0].pair);
    HeadIsLeast(prices, b, a[0].pair);
    if Less(a[0].pair, b[0].pair) {
      LessAsymmetric(a[0].pair, b[0].pair);
    }
  }

  lemma TailIsListing(prices: Prices, a: seq<Quote>)
    requires IsListing(prices, a) && a != []
    ensures IsListing(prices - {a[0].pair}, a[1..])
  {
    var rest := prices - {a[0].pair};
    forall q | q in a[1..]
      ensures q.pair in rest && rest[q.pair] == q.amount
    {
      var i :| 0 <= i < |a[1..]| && a[1..][i] == q;
      assert a[i + 1] == q && q in a;
      LessAsymmetric(a[0].pair, q.pair);
    }
    forall p | p in rest
      ensures Quote(p, rest[p]) in a[1..]
    {
      var i :| 0 <= i < |a| && a[i] == Quote(p, prices[p]);
      assert i > 0 && a[1..][i - 1] == a[i];
    }
  }

  // ---------------------------------------------------------------- the classes

  class PriceCache {
    var data: Prices

    constructor ()
      ensures data == map[]
    {
      data := map[];
    }

    method Get(key: string) returns (v: Option<real>)
      ensures v == if key in data then Some(data[key]) else None
    {
      v := if key in data then Some(data[key]) else None;
    }

    method Set(key: string, v: real)
      modifies this
      ensures data == old(data)[key := v]
    {
      data := data[key := v];
    }
  }

  class KrakenAPI {
    const exchange: Exchange
    var calls: seq<seq<string>>

    constructor (exchange: Exchange)
      ensures this.exchange == exchange && calls == []
    {
      this.exchange := exchange;
      calls := [];
    }

    method GetTickerPrices(symbols: seq<string>) returns (reply: Option<Prices>)
      modifies this
      ensures reply == exchange(symbols) && calls == old(calls) + [symbols]
    {
      calls := calls + [symbols];
      reply := exchange(symbols);
    }
  }

  class Service {
    const api: KrakenAPI
    const cache: PriceCache

    constructor (api: KrakenAPI, cache: PriceCache)
      ensures this.api == api && this.cache == cache
    {
      this.api := api;
      this.cache := cache;
    }

    method GetLTP(userPairs: seq<string>) returns (r: Result<seq<Quote>, LtpError>)
      modifies api, cache
      ensures var o := Ltp(userPairs, old(cache.data), api.exchange);
              && cache.data == o.cache
              && api.calls == old(api.calls) + o.calls
              && (match o.answer
                  case Err(e) => r == Err(e)
                  case Ok(prices) => r.Ok? && IsListing(prices, r.value))
    {
      if |userPairs| == 0 {
        return Err(NoPairs);
      }
      var normalized := NormalizeAll(userPairs);
      if normalized.Err? {
        return Err(normalized.error);
      }
      var pairs := normalized.value;
      var needed, results := ReadCache(pairs);
      if |needed| > 0 {
        var fetched := FetchMissed(needed, results);
        if fetched.Err? {
          return Err(fetched.error);
        }
        results := fetched.value;
      }
      var quotes := SortedQuotes(results);
      return Ok(quotes);
    }

    method FetchMissed(needed: seq<string>, cached: Prices) returns (r: Result<Prices, LtpError>)
      modifies api, cache
      ensures (r, cache.data) == Fetch(needed, cached, old(cache.data), api.exchange)
      ensures api.calls == old(api.calls) + [Symbols(needed)]
    {
      var syms := Symbols(needed);
      var reply := api.GetTickerPrices(syms);
      if reply.None? {
        return Err(ApiFailed);
      }
      var missing, results := Store(needed, syms, reply.value, cached);
      if missing.Some? {
        return Err(PairNotFound(missing.value));
      }
      return Ok(results);
    }

    method NormalizeAll(userPairs: seq<string>) returns (r: Result<seq<string>, LtpError>)
      ensures r == Normalized(userPairs)
    {
      var normalized: seq<string> := [];
      var seen: set<string> := {};
      for i := 0 to |userPairs|
        invariant Normalized(userPairs[..i]) == Ok(normalized)
        invariant forall n :: n in seen <==> n in normalized
      {
        assert userPairs[..i + 1][..i] == userPairs[..i];
        match NormalizeUserPair(userPairs[i]) {
          case Err(e) =>
            ErrorStays(userPairs, i + 1);
            return Err(BadPair(e));
          case Ok(n) =>
            if n !in seen {
              seen := seen + {n};
              normalized := normalized + [n];
            }
        }
      }
      assert userPairs[..|userPairs|] == userPairs;
      return Ok(normalized);
    }

    /** Looks every pair up; what the cache has goes into the results, the rest is needed. */
    method ReadCache(pairs: seq<string>) returns (needed: seq<string>, results: Prices)
      ensures needed == Missed(pairs, cache.data)
      ensures results == CachedOf(pairs, cache.data)
    {
      needed, results := [], map[];
      for i := 0 to |pairs|
        invariant needed == Missed(pairs[..i], cache.data)
        invariant results == CachedOf(pairs[..i], cache.data)
      {
        CachedStep(pairs, i, cache.data);
        var cached := cache.Get(SymbolOf(pairs[i]));
        if cached.Some? {
          results := results[pairs[i] := cached.value];
        } else {
          needed := needed + [pairs[i]];
        }
      }
      assert pairs[..|pairs|] == pairs;
    }

    /** Writes the prices of the needed pairs back one by one until one of them is missing. */
    method Store(needed: seq<string>, syms: seq<string>, prices: Prices, cached: Prices)
      returns (missing: Option<string>, results: Prices)
      requires |needed| == |syms|
      modifies cache
      ensures var n := Found(syms, prices);
              if n < |needed| then missing == Some(needed[n]) && cache.data == WriteBack(old(cache.data), syms[..n], prices)
              else missing == None && cache.data == WriteBack(old(cache.data), syms, prices)
                   && results == cached + FetchedOf(needed, syms, prices)
    {
      results := cached;
      missing := None;
      for i := 0 to |needed|
        invariant Found(syms[..i], prices) == i
        invariant cache.data == WriteBack(old(cache.data), syms[..i], prices)
        invariant results == cached + FetchedOf(needed[..i], syms[..i], prices)
      {
        assert syms[..i + 1][..i] == syms[..i];
        if syms[i] !in prices {
          FoundStops(syms, prices, i);
          missing := Some(needed[i]);
          return;
        }
        StoreStep(old(cache.data), cached, needed, syms, i, prices);
        cache.Set(syms[i], prices[syms[i]]);
        results := results[needed[i] := prices[syms[i]]];
      }
      assert syms[..|syms|] == syms && needed[..|needed|] == needed;
    }

    method SortedQuotes(results: Prices) returns (quotes: seq<Quote>)
      ensures IsListing(results, quotes)
    {
      var keys: seq<string> := [];
      var pending := results.Keys;
      while pending != {}
        invariant pending <= results.Keys
        invariant NoDuplicates(keys)
        invariant forall k :: k in keys <==> k in results && k !in pending
        decreases pending
      {
        var k :| k in pending;
        pending := pending - {k};
        keys := keys + [k];
      }
      LessIsStrictOrder();
      keys := Sort(keys, Less);
      forall i, j | 0 <= i < j < |keys|
        ensures Less(keys[i], keys[j])
      {
        if !Less(keys[i], keys[j]) {
          LessTotal(keys[i], keys[j]);
        }
      }
      quotes := [];
      for i := 0 to |keys|
        invariant |quotes| == i
        invariant forall j | 0 <= j < i :: keys[j] in results && quotes[j] == Quote(keys[j], results[keys[j]])
      {
        assert keys[i] in keys;
        quotes := quotes + [Quote(keys[i], results[keys[i]])];
      }
      forall p | p in results
        ensures Quote(p, results[p]) in quotes
      {
        assert p in keys;
        var i :| 0 <= i < |keys| && keys[i] == p;
        assert quotes[i] == Quote(p, results[p]);
      }
    }
  }

  lemma {:induction false} ErrorStays(inputs: seq<string>, n: nat)
    requires n <= |inputs| && Normalized(inputs[..n]).Err?
    ensures Normalized(inputs) == Normalized(inputs[..n])
    decreases |inputs| - n
  {
    if n < |inputs| {
      assert inputs[..n + 1][..n] == inputs[..n];
      ErrorStays(inputs, n + 1);
    } else {
      assert inputs[..n] == inputs;
    }
  }

  lemma FoundStops(syms: seq<string>, prices: Prices, n: nat)
    requires n < |syms| && Found(syms[..n], prices) == n && syms[n] !in prices
    ensures Found(syms, prices) == n
  {
    forall i | 0 <= i < n
      ensures syms[i] in prices
    {
      assert syms[..n][i] == syms[i];
    }
  }

  lemma CachedStep(pairs: seq<string>, i: nat, cache: Prices)
    requires i < |pairs|
    ensures var p, sym := pairs[i], SymbolOf(pairs[i]);
            && Missed(pairs[..i + 1], cache) == Missed(pairs[..i], cache) + (if sym in cache then [] else [p])
            && CachedOf(pairs[..i + 1], cache)
               == if sym in cache then CachedOf(pairs[..i], cache)[p := cache[sym]] else CachedOf(pairs[..i], cache)
  {
    assert pairs[..i + 1][..i] == pairs[..i];
    CachedSnoc(pairs[..i], pairs[i], cache);
    assert pairs[..i + 1] == pairs[..i] + [pairs[i]];
  }

  lemma CachedSnoc(pairs: seq<string>, p: string, cache: Prices)
    ensures CachedOf(pairs + [p], cache)
         == if SymbolOf(p) in cache then CachedOf(pairs, cache)[p := cache[SymbolOf(p)]] else CachedOf(pairs, cache)
  {
    assert forall k :: k in pairs + [p] <==> k in pairs || k == p;
  }

  lemma WriteStep(cache: Prices, syms: seq<string>, i: nat, prices: Prices)
    requires i < |syms| && forall s | s in syms[..i] + [syms[i]] :: s in prices
    ensures syms[..i + 1] == syms[..i] + [syms[i]]
    ensures WriteBack(cache, syms[..i + 1], prices) == WriteBack(cache, syms[..i], prices)[syms[i] := prices[syms[i]]]
  {
    assert syms[..i + 1] == syms[..i] + [syms[i]];
  }

  lemma FetchedStep(pairs: seq<string>, syms: seq<string>, i: nat, prices: Prices)
    requires i < |pairs| == |syms| && forall s | s in syms[..i] + [syms[i]] :: s in prices
    ensures syms[..i + 1] == syms[..i] + [syms[i]]
    ensures FetchedOf(pairs[..i + 1], syms[..i + 1], prices)
         == FetchedOf(pairs[..i], syms[..i], prices)[pairs[i] := prices[syms[i]]]
  {
    assert syms[..i + 1] == syms[..i] + [syms[i]];
    assert pairs[..i + 1][..i] == pairs[..i] && syms[..i + 1][..i] == syms[..i];
  }

  lemma MergeStep(x: Prices, y: Prices, k: string, v: real)
    ensures x + y[k := v] == (x + y)[k := v]
  {
  }

  /** One round of the loop that writes back. */
  lemma StoreStep(cache: Prices, cached: Prices, needed: seq<string>, syms: seq<string>, i: nat, prices: Prices)
    requires i < |needed| == |syms| && Found(syms[..i], prices) == i && syms[i] in prices
    ensures Found(syms[..i + 1], prices) == i + 1
    ensures WriteBack(cache, syms[..i + 1], prices) == WriteBack(cache, syms[..i], prices)[syms[i] := prices[syms[i]]]
    ensures cached + FetchedOf(needed[..i + 1], syms[..i + 1], prices)
         == (cached + FetchedOf(needed[..i], syms[..i], prices))[needed[i] := prices[syms[i]]]
  {
    assert syms[..i + 1][..i] == syms[..i];
    WriteStep(cache, syms, i, prices);
    FetchedStep(needed, syms, i, prices);
    MergeStep(cached, FetchedOf(needed[..i], syms[..i], prices), needed[i], prices[syms[i]]);
  }

  lemma {:induction false} FetchedMeaning(pairs: seq<string>, prices: Prices)
    requires forall s | s in Symbols(pairs) :: s in prices
    ensures var f := FetchedOf(pairs, Symbols(pairs), prices);
            && (forall p :: p in f <==> p in pairs)
            && (forall p | p in f :: SymbolOf(p) in prices && f[p] == prices[SymbolOf(p)])
    decreases pairs
  {
    if pairs != [] {
      var n := |pairs| - 1;
      assert Symbols(pairs)[..n] == Symbols(pairs[..n]);
      FetchedMeaning(pairs[..n], prices);
      assert pairs == pairs[..n] + [pairs[n]];
      assert Symbols(pairs)[n] == SymbolOf(pairs[n]);
    }
  }

  lemma SamePrices(x: Prices, y: Prices)
    requires forall p :: p in x <==> p in y
    requires forall p | p in x :: x[p] == y[p]
    ensures x == y
  {
  }

  // ---------------------------------------------------------------- the specification of a call

  /** Every input has a normal form. */
  predicate AllNormal(inputs: seq<string>) {
    forall p | p in inputs :: NormalizeUserPair(p).Ok?
  }

  /** `n` is the normal form of some input. */
  predicate FormOf(inputs: seq<string>, n: string) {
    exists i | 0 <= i < |inputs| :: NormalizeUserPair(inputs[i]) == Ok(n)
  }

  /** Where a normal form is first seen. */
  ghost predicate SeenFirst(inputs: seq<string>, n: string, i: nat) {
    i < |inputs| && NormalizeUserPair(inputs[i]) == Ok(n)
    && forall j | 0 <= j < i :: NormalizeUserPair(inputs[j]) != Ok(n)
  }

  lemma AllNormalSnoc(before: seq<string>, last: string)
    ensures AllNormal(before + [last]) <==> AllNormal(before) && NormalizeUserPair(last).Ok?
  {
    assert last in before + [last];
  }

  lemma FormOfSnoc(before: seq<string>, last: string, n: string)
    ensures FormOf(before + [last], n) <==> FormOf(before, n) || NormalizeUserPair(last) == Ok(n)
  {
    var all := before + [last];
    assert all[|before|] == last;
    if FormOf(before, n) {
      var i :| 0 <= i < |before| && NormalizeUserPair(before[i]) == Ok(n);
      assert all[i] == before[i];
    }
  }

  /** Normalisation with deduplication: it succeeds exactly when every input has a normal form, and
      then lists the normal forms of the inputs without repetition. */
  lemma {:induction false} NormalizedMeaning(inputs: seq<string>)
    ensures Normalized(inputs).Ok? <==> AllNormal(inputs)
    ensures Normalized(inputs).Err? ==> Normalized(inputs).error.BadPair?
    ensures AllNormal(inputs) ==>
              NoDuplicates(PairsIn(inputs)) && forall n :: n in PairsIn(inputs) <==> FormOf(inputs, n)
    decreases inputs
  {
    if inputs != [] {
      var before, last := inputs[..|inputs| - 1], inputs[|inputs| - 1];
      NormalizedMeaning(before);
      SplitLast(inputs);
      AllNormalSnoc(before, last);
      forall n
        ensures FormOf(inputs, n) <==> FormOf(before, n) || NormalizeUserPair(last) == Ok(n)
      {
        FormOfSnoc(before, last, n);
      }
    }
  }

  /** Every pair that survives normalisation has a symbol, so the second mapping step of a call never
      fails and `SymbolOf` stands for it. */
  lemma NormalizedPairsHaveSymbols(inputs: seq<string>, n: string)
    requires AllNormal(inputs) && n in PairsIn(inputs)
    ensures NormalizeUserPair(n) == Ok(n) && ToKrakenSymbol(n) == Ok(SymbolOf(n))
  {
    NormalizedMeaning(inputs);
    var i :| 0 <= i < |inputs| && NormalizeUserPair(inputs[i]) == Ok(n);
    NormalizeIdempotent(inputs[i]);
    SymbolFactorsThroughNormalize(n);
  }

  /** The order is the one in which the normal forms are first seen. */
  lemma {:induction false} NormalizedInFirstSeenOrder(inputs: seq<string>, i: nat, j: nat, a: nat, b: nat)
    requires AllNormal(inputs) && i < j < |PairsIn(inputs)|
    requires SeenFirst(inputs, PairsIn(inputs)[i], a) && SeenFirst(inputs, PairsIn(inputs)[j], b)
    ensures a < b
    decreases inputs
  {
    var before, last := inputs[..|inputs| - 1], inputs[|inputs| - 1];
    SplitLast(inputs);
    NormalizedMeaning(before);
    NormalizedMeaning(inputs);
    var ns, all := PairsIn(before), PairsIn(inputs);
    assert all[i] == ns[i] && ns[i] in ns;
    FirstSeenBefore(inputs, all[i], a);
    if j < |ns| {
      assert all[j] == ns[j] && ns[j] in ns;
      FirstSeenBefore(inputs, all[j], b);
      NormalizedInFirstSeenOrder(before, i, j, a, b);
    } else {
      LastFormIsNew(inputs);
    }
  }

  lemma LastFormIsNew(inputs: seq<string>)
    requires inputs != [] && AllNormal(inputs)
    requires |PairsIn(inputs)| > |PairsIn(inputs[..|inputs| - 1])|
    ensures !FormOf(inputs[..|inputs| - 1], PairsIn(inputs)[|PairsIn(inputs)| - 1])
  {
    var before := inputs[..|inputs| - 1];
    SplitLast(inputs);
    assert AllNormal(before);
    NormalizedMeaning(before);
    NormalizedMeaning(inputs);
  }

  lemma FirstSeenBefore(inputs: seq<string>, n: string, a: nat)
    requires inputs != [] && FormOf(inputs[..|inputs| - 1], n) && SeenFirst(inputs, n, a)
    ensures SeenFirst(inputs[..|inputs| - 1], n, a)
  {
    var before := inputs[..|inputs| - 1];
    var k :| 0 <= k < |before| && NormalizeUserPair(before[k]) == Ok(n);
    assert inputs[k] == before[k];
  }

  /** The exchange, if anything has to be asked of it, answers and prices every missed pair. */
  predicate Priced(needed: seq<string>, exchange: Exchange) {
    needed == [] || (exchange(Symbols(needed)).Some? && forall p | p in needed :: SymbolOf(p) in Reply(exchange, needed))
  }

  lemma FetchMeaning(pairs: seq<string>, cache: Prices, exchange: Exchange)
    requires Missed(pairs, cache) != []
    ensures var needed := Missed(pairs, cache);
            var answer := Fetch(needed, CachedOf(pairs, cache), cache, exchange).0;
            && (answer.Ok? <==> Priced(needed, exchange))
            && (answer.Ok? ==>
                  && (forall n :: n in answer.value <==> n in pairs)
                  && (forall n | n in answer.value && SymbolOf(n) in cache :: answer.value[n] == cache[SymbolOf(n)])
                  && (forall n | n in answer.value && SymbolOf(n) !in cache ::
                        SymbolOf(n) in Reply(exchange, needed) && answer.value[n] == Reply(exchange, needed)[SymbolOf(n)]))
  {
    var needed := Missed(pairs, cache);
    MissedMeaning(pairs, cache);
    if exchange(Symbols(needed)).Some? {
      var prices := Reply(exchange, needed);
      var n := Found(Symbols(needed), prices);
      if n < |needed| {
        assert needed[n] in needed && SymbolOf(needed[n]) == Symbols(needed)[n];
      } else {
        FetchedMeaning(needed, prices);
      }
    }
  }

  /** A call succeeds exactly when there is an input, every input has a normal form, and every missed
      pair is priced. On success the pairs of the response are exactly the normal forms of the inputs,
      each at its cached price, else at the exchange's. */
  lemma SuccessExactly(inputs: seq<string>, cache: Prices, exchange: Exchange)
    ensures Ltp(inputs, cache, exchange).answer.Ok?
            <==> inputs != [] && AllNormal(inputs) && Priced(Needed(inputs, cache), exchange)
    ensures Ltp(inputs, cache, exchange).answer.Ok? ==>
              var prices := Ltp(inputs, cache, exchange).answer.value;
              && (forall n :: n in prices <==> FormOf(inputs, n))
              && (forall n | n in prices && SymbolOf(n) in cache :: prices[n] == cache[SymbolOf(n)])
              && (forall n | n in prices && SymbolOf(n) !in cache ::
                    SymbolOf(n) in Reply(exchange, Needed(inputs, cache))
                    && prices[n] == Reply(exchange, Needed(inputs, cache))[SymbolOf(n)])
  {
    NormalizedMeaning(inputs);
    MissedMeaning(PairsIn(inputs), cache);
    if AllNormal(inputs) && Needed(inputs, cache) != [] {
      FetchMeaning(PairsIn(inputs), cache, exchange);
    }
  }

  /** Input `i` is the first one without a normal form, and `e` says why. */
  ghost predicate FirstBad(inputs: seq<string>, i: nat, e: PairError) {
    i < |inputs| && NormalizeUserPair(inputs[i]) == Err(e)
    && forall j | 0 <= j < i :: NormalizeUserPair(inputs[j]).Ok?
  }

  ghost predicate FirstBadIs(inputs: seq<string>, e: PairError) {
    exists i: nat :: FirstBad(inputs, i, e)
  }

  lemma FirstBadSnoc(before: seq<string>, last: string, e: PairError)
    ensures FirstBadIs(before + [last], e)
            <==> FirstBadIs(before, e) || (AllNormal(before) && NormalizeUserPair(last) == Err(e))
  {
    var all := before + [last];
    assert forall j | 0 <= j < |before| :: all[j] == before[j];
    if i: nat :| FirstBad(before, i, e) {
      assert FirstBad(all, i, e);
    }
    if AllNormal(before) && NormalizeUserPair(last) == Err(e) {
      assert FirstBad(all, |before|, e);
    }
    if i: nat :| FirstBad(all, i, e) {
      if i < |before| {
        assert FirstBad(before, i, e);
      } else {
        assert forall j | 0 <= j < |before| :: NormalizeUserPair(before[j]).Ok?;
      }
    }
  }

  lemma {:induction false} NormalizedError(inputs: seq<string>, e: PairError)
    ensures Normalized(inputs) == Err(BadPair(e)) <==> FirstBadIs(inputs, e)
    decreases inputs
  {
    if inputs != [] {
      var before, last := inputs[..|inputs| - 1], inputs[|inputs| - 1];
      NormalizedError(before, e);
      NormalizedMeaning(before);
      FirstBadSnoc(before, last, e);
      SplitLast(inputs);
    }
  }

  /** Pair `n` of the needed ones is the first without a price. */
  ghost predicate FirstUnpriced(needed: seq<string>, prices: Prices, n: nat) {
    n < |needed| && SymbolOf(needed[n]) !in prices && forall i | 0 <= i < n :: SymbolOf(needed[i]) in prices
  }

  /** Some needed pair without a price has only priced ones before it, and it is `p`. */
  ghost predicate FirstUnpricedIs(needed: seq<string>, prices: Prices, p: string) {
    exists n: nat :: FirstUnpriced(needed, prices, n) && needed[n] == p
  }

  lemma FoundIsFirstUnpriced(needed: seq<string>, prices: Prices, p: string)
    ensures var n := Found(Symbols(needed), prices);
            FirstUnpricedIs(needed, prices, p) <==> n < |needed| && needed[n] == p
  {
    var n := Found(Symbols(needed), prices);
    assert forall i | 0 <= i < |needed| :: Symbols(needed)[i] == SymbolOf(needed[i]);
    if n < |needed| {
      assert FirstUnpriced(needed, prices, n);
    }
    if m: nat :| FirstUnpriced(needed, prices, m) && needed[m] == p {
      assert m == n;
    }
  }

  lemma FetchError(needed: seq<string>, cached: Prices, cache: Prices, exchange: Exchange, p: string)
    ensures var answer := Fetch(needed, cached, cache, exchange).0;
            && (answer == Err(ApiFailed) <==> exchange(Symbols(needed)).None?)
            && (answer.Err? ==> answer.error.ApiFailed? || answer.error.PairNotFound?)
            && (answer == Err(PairNotFound(p)) <==>
                  exchange(Symbols(needed)).Some? && FirstUnpricedIs(needed, Reply(exchange, needed), p))
  {
    FoundIsFirstUnpriced(needed, Reply(exchange, needed), p);
  }

  /** Which error a call reports, exactly: no pairs were given; or some input has no normal form, and the
      first such one decides; or the exchange was asked and failed; or it answered, and the first missed pair
      without a price is named. */
  lemma ErrorExactly(inputs: seq<string>, cache: Prices, exchange: Exchange, e: PairError, p: string)
    ensures var answer, needed := Ltp(inputs, cache, exchange).answer, Needed(inputs, cache);
            && (answer == Err(NoPairs) <==> inputs == [])
            && (answer == Err(BadPair(e)) <==> FirstBadIs(inputs, e))
            && (answer == Err(ApiFailed) <==> AllNormal(inputs) && needed != [] && exchange(Symbols(needed)).None?)
            && (answer == Err(PairNotFound(p)) <==>
                  AllNormal(inputs) && needed != [] && exchange(Symbols(needed)).Some?
                  && FirstUnpricedIs(needed, Reply(exchange, needed), p))
  {
    NormalizedMeaning(inputs);
    NormalizedError(inputs, e);
    FetchError(Needed(inputs, cache), CachedOf(PairsIn(inputs), cache), cache, exchange, p);
  }

  /** The exchange is asked at most once, and only for pairs the cache misses: each exactly once. */
  lemma AskedOnceForTheMissed(inputs: seq<string>, cache: Prices, exchange: Exchange)
    ensures var o, needed := Ltp(inputs, cache, exchange), Needed(inputs, cache);
            && o.calls == (if AllNormal(inputs) && needed != [] then [Symbols(needed)] else [])
            && (AllNormal(inputs) ==>
                  NoDuplicates(needed) && forall p :: p in needed <==> FormOf(inputs, p) && SymbolOf(p) !in cache)
  {
    NormalizedMeaning(inputs);
    MissedMeaning(PairsIn(inputs), cache);
  }

  /** The request lists the missed pairs in the order in which they are first seen among the inputs. */
  lemma AskedInFirstSeenOrder(inputs: seq<string>, cache: Prices, i: nat, j: nat, a: nat, b: nat)
    requires AllNormal(inputs) && i < j < |Needed(inputs, cache)|
    requires SeenFirst(inputs, Needed(inputs, cache)[i], a) && SeenFirst(inputs, Needed(inputs, cache)[j], b)
    ensures a < b
  {
    var x, y := MissedKeepsOrder(PairsIn(inputs), cache, i, j);
    NormalizedInFirstSeenOrder(inputs, x, y, a, b);
  }

  /** Two different pairs of the call are missed under one symbol. */
  ghost predicate SharesMissedSymbol(inputs: seq<string>, cache: Prices) {
    exists p, q :: FormOf(inputs, p) && FormOf(inputs, q) && p != q
                   && SymbolOf(p) == SymbolOf(q) && SymbolOf(p) !in cache
  }

  /** Each pair is requested once, but a symbol can be requested twice: exactly when two
      different pairs of the call share it and the cache does not hold it. */
  lemma RequestRepeatsExactly(inputs: seq<string>, cache: Prices)
    requires AllNormal(inputs)
    ensures !NoDuplicates(Symbols(Needed(inputs, cache))) <==> SharesMissedSymbol(inputs, cache)
  {
    var needed := Needed(inputs, cache);
    NormalizedMeaning(inputs);
    MissedMeaning(PairsIn(inputs), cache);
    if SharesMissedSymbol(inputs, cache) {
      var p, q :| FormOf(inputs, p) && FormOf(inputs, q) && p != q && SymbolOf(p) == SymbolOf(q) && SymbolOf(p) !in cache;
      TwiceAsked(needed, p, q);
    }
    if !NoDuplicates(Symbols(needed)) {
      var i, j :| 0 <= i < j < |Symbols(needed)| && Symbols(needed)[i] == Symbols(needed)[j];
      var p, q := needed[i], needed[j];
      assert p in needed && q in needed && p != q;
      assert FormOf(inputs, p) && FormOf(inputs, q);
    }
  }

  lemma TwiceAsked(needed: seq<string>, p: string, q: string)
    requires p in needed && q in needed && p != q && SymbolOf(p) == SymbolOf(q)
    ensures !NoDuplicates(Symbols(needed))
  {
    var i :| 0 <= i < |needed| && needed[i] == p;
    var j :| 0 <= j < |needed| && needed[j] == q;
    assert Symbols(needed)[i] == Symbols(needed)[j];
  }

  lemma FetchSuccess(needed: seq<string>, cached: Prices, cache: Prices, exchange: Exchange)
    requires forall p | p in needed :: SymbolOf(p) !in cache
    requires Fetch(needed, cached, cache, exchange).0.Ok?
    ensures var after, prices := Fetch(needed, cached, cache, exchange).1, Reply(exchange, needed);
            && (forall s :: s in after <==> s in cache || s in Symbols(needed))
            && (forall s | s in after :: if s in cache then after[s] == cache[s] else s in prices && after[s] == prices[s])
  {
    SymbolsAreUncached(needed, cache, |needed|);
    assert Symbols(needed)[..|needed|] == Symbols(needed);
  }

  /** A successful call leaves in the cache what it held and every missed pair at the exchange's price. */
  lemma CacheAfterSuccess(inputs: seq<string>, cache: Prices, exchange: Exchange)
    ensures var after, needed := Ltp(inputs, cache, exchange).cache, Needed(inputs, cache);
            Ltp(inputs, cache, exchange).answer.Ok? ==>
            && (forall s :: s in after <==> s in cache || exists p :: p in needed && SymbolOf(p) == s)
            && (forall s | s in after ::
                  if s in cache then after[s] == cache[s]
                  else s in Reply(exchange, needed) && after[s] == Reply(exchange, needed)[s])
  {
    var o, needed := Ltp(inputs, cache, exchange), Needed(inputs, cache);
    SuccessExactly(inputs, cache, exchange);
    MissedMeaning(PairsIn(inputs), cache);
    if o.answer.Ok? && needed != [] {
      FetchSuccess(needed, CachedOf(PairsIn(inputs), cache), cache, exchange);
    }
    forall s
      ensures s in Symbols(needed) <==> exists p :: p in needed && SymbolOf(p) == s
    {
      SymbolMembers(needed, s);
    }
  }

  /** A successful call repeated at once asks the exchange nothing, changes nothing and answers the same. */
  lemma SecondCallIsCached(inputs: seq<string>, cache: Prices, exchange: Exchange, later: Exchange)
    ensures var o := Ltp(inputs, cache, exchange);
            o.answer.Ok? ==> Ltp(inputs, o.cache, later) == Outcome(o.answer, o.cache, [])
  {
    var o := Ltp(inputs, cache, exchange);
    if o.answer.Ok? {
      RepeatAfterSuccess(inputs, cache, exchange, later);
    }
  }

  lemma RepeatAfterSuccess(inputs: seq<string>, cache: Prices, exchange: Exchange, later: Exchange)
    requires Ltp(inputs, cache, exchange).answer.Ok?
    ensures var o := Ltp(inputs, cache, exchange);
            Ltp(inputs, o.cache, later) == Outcome(o.answer, o.cache, [])
  {
    var o := Ltp(inputs, cache, exchange);
    SuccessExactly(inputs, cache, exchange);
    CacheAfterSuccess(inputs, cache, exchange);
    NormalizedMeaning(inputs);
    AskedOnceForTheMissed(inputs, cache, exchange);
    forall p | p in PairsIn(inputs)
      ensures SymbolOf(p) in o.cache
    {
      if SymbolOf(p) !in cache {
        assert p in Needed(inputs, cache);
      }
    }
    NothingNeeded(inputs, o.cache);
    SuccessExactly(inputs, o.cache, later);
    SamePrices(o.answer.value, Ltp(inputs, o.cache, later).answer.value);
  }

  lemma NothingNeeded(inputs: seq<string>, cache: Prices)
    requires forall p | p in PairsIn(inputs) :: SymbolOf(p) in cache
    ensures Needed(inputs, cache) == []
  {
    var needed := Needed(inputs, cache);
    assert needed != [] ==> needed[0] in needed;
    MissedMeaning(PairsIn(inputs), cache);
  }

  /** The cache holds what it held, and of the missed pairs the leading `n`, which were priced while
      the next was not. */
  ghost predicate StoppedAt(before: Prices, after: Prices, needed: seq<string>, prices: Prices, n: nat) {
    && n < |needed| && SymbolOf(needed[n]) !in prices
    && (forall i | 0 <= i < n :: SymbolOf(needed[i]) in prices)
    && (forall s :: s in after <==> s in before || s in Symbols(needed)[..n])
    && (forall s | s in after :: if s in before then after[s] == before[s] else s in prices && after[s] == prices[s])
  }

  lemma FetchFailure(needed: seq<string>, cached: Prices, cache: Prices, exchange: Exchange)
    requires forall p | p in needed :: SymbolOf(p) !in cache
    requires Fetch(needed, cached, cache, exchange).0.Err?
    ensures var (answer, after) := Fetch(needed, cached, cache, exchange);
            var n := Found(Symbols(needed), Reply(exchange, needed));
            if answer.error.PairNotFound?
            then StoppedAt(cache, after, needed, Reply(exchange, needed), n) && answer.error.pair == needed[n]
            else after == cache
  {
    var n := Found(Symbols(needed), Reply(exchange, needed));
    SymbolsAreUncached(needed, cache, n);
    assert forall i | 0 <= i < |needed| :: Symbols(needed)[i] == SymbolOf(needed[i]);
  }

  /** A failed call leaves in the cache exactly the missed pairs priced before the first unpriced one,
      and nothing when the request itself was refused or failed. */
  lemma CacheAfterFailure(inputs: seq<string>, cache: Prices, exchange: Exchange)
    requires Ltp(inputs, cache, exchange).answer.Err?
    ensures var o, needed := Ltp(inputs, cache, exchange), Needed(inputs, cache);
            if o.answer.error.PairNotFound?
            then exists n: nat :: StoppedAt(cache, o.cache, needed, Reply(exchange, needed), n) && o.answer.error.pair == needed[n]
            else o.cache == cache
  {
    NormalizedMeaning(inputs);
    MissedMeaning(PairsIn(inputs), cache);
    if inputs != [] && AllNormal(inputs) {
      FetchFailure(Needed(inputs, cache), CachedOf(PairsIn(inputs), cache), cache, exchange);
    }
  }

  lemma SymbolsAreUncached(needed: seq<string>, cache: Prices, n: nat)
    requires n <= |needed| && forall p | p in needed :: SymbolOf(p) !in cache
    ensures forall s | s in Symbols(needed)[..n] :: s !in cache
  {
    forall s | s in Symbols(needed)[..n]
      ensures s !in cache
    {
      var i :| 0 <= i < n && Symbols(needed)[i] == s;
      assert needed[i] in needed;
    }
  }

  // ---------------------------------------------------------------- order and repetition do not matter

  ghost predicate SameElements(a: seq<string>, b: seq<string>) {
    forall p :: p in a <==> p in b
  }

  /** The exchange prices a request by the set of its symbols. */
  ghost predicate OrderInsensitive(exchange: Exchange) {
    forall a, b | SameElements(a, b) :: exchange(a) == exchange(b)
  }

  lemma SameSymbols(a: seq<string>, b: seq<string>)
    requires SameElements(a, b)
    ensures SameElements(Symbols(a), Symbols(b))
  {
    forall s
      ensures s in Symbols(a) <==> s in Symbols(b)
    {
      SymbolMembers(a, s);
      SymbolMembers(b, s);
    }
  }

  lemma SameForms(a: seq<string>, b: seq<string>, n: string)
    requires SameElements(a, b) && FormOf(a, n)
    ensures FormOf(b, n)
  {
    var i :| 0 <= i < |a| && NormalizeUserPair(a[i]) == Ok(n);
    assert a[i] in a;
    var j :| 0 <= j < |b| && b[j] == a[i];
  }

  lemma SameNeeded(a: seq<string>, b: seq<string>, cache: Prices)
    requires SameElements(a, b) && AllNormal(a) && AllNormal(b)
    ensures forall n :: FormOf(a, n) <==> FormOf(b, n)
    ensures SameElements(Needed(a, cache), Needed(b, cache))
  {
    forall n
      ensures FormOf(a, n) <==> FormOf(b, n)
    {
      if FormOf(a, n) {
        SameForms(a, b, n);
      }
      if FormOf(b, n) {
        SameForms(b, a, n);
      }
    }
    NormalizedMeaning(a);
    NormalizedMeaning(b);
    MissedMeaning(PairsIn(a), cache);
    MissedMeaning(PairsIn(b), cache);
  }

  lemma SameEmptiness(a: seq<string>, b: seq<string>)
    requires SameElements(a, b) && a != []
    ensures b != []
  {
    assert a[0] in b;
  }

  lemma SamePriced(x: seq<string>, y: seq<string>, exchange: Exchange)
    requires SameElements(x, y) && OrderInsensitive(exchange) && Priced(x, exchange)
    ensures Priced(y, exchange) && Reply(exchange, x) == Reply(exchange, y)
  {
    SameSymbols(x, y);
    assert exchange(Symbols(x)) == exchange(Symbols(y));
    if y != [] {
      SameEmptiness(y, x);
    }
  }

  lemma SuccessCarriesOver(a: seq<string>, b: seq<string>, cache: Prices, exchange: Exchange)
    requires SameElements(a, b) && OrderInsensitive(exchange)
    requires Ltp(a, cache, exchange).answer.Ok?
    ensures Ltp(b, cache, exchange).answer == Ltp(a, cache, exchange).answer
  {
    SuccessExactly(a, cache, exchange);
    SameEmptiness(a, b);
    assert AllNormal(b);
    SameNeeded(a, b, cache);
    SamePriced(Needed(a, cache), Needed(b, cache), exchange);
    SuccessExactly(b, cache, exchange);
    SamePrices(Ltp(a, cache, exchange).answer.value, Ltp(b, cache, exchange).answer.value);
  }

  /** Permuting or repeating the inputs changes neither whether a call succeeds nor its response. */
  lemma OrderDoesNotMatter(a: seq<string>, b: seq<string>, cache: Prices, exchange: Exchange)
    requires SameElements(a, b) && OrderInsensitive(exchange)
    ensures var x, y := Ltp(a, cache, exchange).answer, Ltp(b, cache, exchange).answer;
            && (x.Ok? <==> y.Ok?)
            && (x.Ok? ==> forall q, r | IsListing(x.value, q) && IsListing(y.value, r) :: q == r)
  {
    var x, y := Ltp(a, cache, exchange).answer, Ltp(b, cache, exchange).answer;
    if x.Ok? {
      SuccessCarriesOver(a, b, cache, exchange);
      forall q, r | IsListing(x.value, q) && IsListing(y.value, r)
        ensures q == r
      {
        ListingUnique(x.value, q, r);
      }
    } else if y.Ok? {
      SuccessCarriesOver(b, a, cache, exchange);
    }
  }

  // ---------------------------------------------------------------- the cache does not show

  /** The exchange has the prices of `base`: whenever it replies, it prices exactly the known ones of the
      symbols asked for, and it replies to every request for known symbols. It may refuse any other
      request, such as one without symbols or with an unknown one. */
  ghost predicate QuotesFrom(exchange: Exchange, base: Prices) {
    && (forall syms | exchange(syms).Some? :: AgreesOn(exchange(syms).value, base, syms))
    && (forall syms | syms != [] && Known(syms, base) :: exchange(syms).Some?)
  }

  predicate AgreesOn(reply: Prices, base: Prices, syms: seq<string>) {
    forall s | s in syms :: (s in reply <==> s in base) && (s in base ==> reply[s] == base[s])
  }

  predicate Known(syms: seq<string>, base: Prices) {
    forall s | s in syms :: s in base
  }

  /** The service's own client: it refuses a request without symbols, and Kraken refuses unknown ones. */
  function Client(base: Prices): Exchange {
    (syms: seq<string>) => if syms != [] && Known(syms, base) then Some(base) else None
  }

  lemma ClientQuotes(base: Prices)
    ensures QuotesFrom(Client(base), base)
  {
    forall syms | Client(base)(syms).Some?
      ensures AgreesOn(Client(base)(syms).value, base, syms)
    {
      assert Known(syms, base);
    }
  }

  /** What the cache holds for the pairs of this call is what `base` says. */
  predicate CacheAgrees(inputs: seq<string>, cache: Prices, base: Prices) {
    forall p | p in PairsIn(inputs) && SymbolOf(p) in cache :: SymbolOf(p) in base && cache[SymbolOf(p)] == base[SymbolOf(p)]
  }

  lemma ReplyAgrees(needed: seq<string>, exchange: Exchange, base: Prices, p: string)
    requires QuotesFrom(exchange, base) && exchange(Symbols(needed)).Some? && p in needed
    ensures SymbolOf(p) in Reply(exchange, needed) <==> SymbolOf(p) in base
    ensures SymbolOf(p) in base ==> Reply(exchange, needed)[SymbolOf(p)] == base[SymbolOf(p)]
  {
    SymbolMembers(needed, SymbolOf(p));
    assert AgreesOn(exchange(Symbols(needed)).value, base, Symbols(needed));
  }

  lemma KnownIsPriced(needed: seq<string>, exchange: Exchange, base: Prices)
    requires QuotesFrom(exchange, base) && forall p | p in needed :: SymbolOf(p) in base
    ensures Priced(needed, exchange)
  {
    if needed != [] {
      forall s | s in Symbols(needed)
        ensures s in base
      {
        SymbolMembers(needed, s);
      }
      assert Known(Symbols(needed), base) && |Symbols(needed)| > 0;
      forall p | p in needed
        ensures SymbolOf(p) in Reply(exchange, needed)
      {
        ReplyAgrees(needed, exchange, base, p);
      }
    }
  }

  /** Under such an exchange and an agreeing cache a successful call gives the prices of `base`. */
  lemma AnswerIsBase(inputs: seq<string>, cache: Prices, exchange: Exchange, base: Prices, n: string)
    requires QuotesFrom(exchange, base) && CacheAgrees(inputs, cache, base)
    requires Ltp(inputs, cache, exchange).answer.Ok? && n in Ltp(inputs, cache, exchange).answer.value
    ensures SymbolOf(n) in base && Ltp(inputs, cache, exchange).answer.value[n] == base[SymbolOf(n)]
  {
    SuccessExactly(inputs, cache, exchange);
    NormalizedMeaning(inputs);
    AskedOnceForTheMissed(inputs, cache, exchange);
    if SymbolOf(n) !in cache {
      assert n in Needed(inputs, cache);
      ReplyAgrees(Needed(inputs, cache), exchange, base, n);
    }
  }

  /** Cache transparency: if what is cached for the pairs agrees with the exchange and the call would
      succeed without a cache, then it succeeds with it and gives the same response. */
  lemma CacheIsTransparent(inputs: seq<string>, cache: Prices, exchange: Exchange, base: Prices)
    requires QuotesFrom(exchange, base) && CacheAgrees(inputs, cache, base)
    ensures Ltp(inputs, map[], exchange).answer.Ok? ==>
              Ltp(inputs, cache, exchange).answer == Ltp(inputs, map[], exchange).answer
  {
    if Ltp(inputs, map[], exchange).answer.Err? {
      return;
    }
    SuccessExactly(inputs, map[], exchange);
    SuccessExactly(inputs, cache, exchange);
    AskedOnceForTheMissed(inputs, cache, exchange);
    forall p | p in Needed(inputs, cache)
      ensures SymbolOf(p) in base
    {
      AnswerIsBase(inputs, map[], exchange, base, p);
    }
    KnownIsPriced(Needed(inputs, cache), exchange, base);
    var x, y := Ltp(inputs, cache, exchange).answer.value, Ltp(inputs, map[], exchange).answer.value;
    forall n | n in x
      ensures n in y && x[n] == y[n]
    {
      AnswerIsBase(inputs, cache, exchange, base, n);
      AnswerIsBase(inputs, map[], exchange, base, n);
    }
    SamePrices(x, y);
  }

  /** Under such an exchange a call succeeds without a cache exactly when it has inputs, all of them have
      normal forms, and the exchange knows their symbols. */
  lemma UncachedSuccessExactly(inputs: seq<string>, exchange: Exchange, base: Prices)
    requires QuotesFrom(exchange, base)
    ensures Ltp(inputs, map[], exchange).answer.Ok?
            <==> inputs != [] && AllNormal(inputs) && forall n | FormOf(inputs, n) :: SymbolOf(n) in base
  {
    SuccessExactly(inputs, map[], exchange);
    AskedOnceForTheMissed(inputs, map[], exchange);
    if Ltp(inputs, map[], exchange).answer.Ok? {
      forall n | FormOf(inputs, n)
        ensures SymbolOf(n) in base
      {
        AnswerIsBase(inputs, map[], exchange, base, n);
      }
    } else if AllNormal(inputs) && forall n | FormOf(inputs, n) :: SymbolOf(n) in base {
      KnownIsPriced(Needed(inputs, map[]), exchange, base);
    }
  }

  // ---------------------------------------------------------------- the refresh hook

  /** The background refresh asks for a cache key where a user pair is expected. The program caches under
      Kraken symbols and under the probe key of its health check; none contains a slash, so every refresh
      is refused before it reaches the cache or the exchange. */
  lemma RefreshHookAlwaysFails(key: string, cache: Prices, exchange: Exchange)
    requires NoSlash(key)
    ensures var o := Ltp([key], cache, exchange);
            o.answer.Err? && o.answer.error.BadPair? && o.cache == cache && o.calls == []
  {
    NoSlashIsNoPair(key);
    assert [key][..0] == [];
    assert Normalized([]) == Ok([]);
    assert Normalized([key]) == Err(BadPair(NormalizeUserPair(key).error));
  }

  /** The keys a call writes: every symbol the cache gains is one the hook then fails on. */
  lemma CachedSymbolsAreNoPairs(inputs: seq<string>, cache: Prices, exchange: Exchange, sym: string)
    requires sym in Ltp(inputs, cache, exchange).cache && sym !in cache
    ensures NoSlash(sym)
  {
    var o := Ltp(inputs, cache, exchange);
    var p := GainedSymbol(inputs, cache, exchange, sym);
    NormalizedMeaning(inputs);
    NormalizedPairsHaveSymbols(inputs, p);
    SymbolIsNoUserPair(p);
  }

  /** Whatever a request adds to the cache is one of its symbols. */
  lemma FetchGains(needed: seq<string>, cached: Prices, cache: Prices, exchange: Exchange, sym: string)
    ensures sym in Fetch(needed, cached, cache, exchange).1 && sym !in cache ==> sym in Symbols(needed)
  {
  }

  lemma GainedIsNeeded(inputs: seq<string>, cache: Prices, exchange: Exchange, sym: string)
    requires sym in Ltp(inputs, cache, exchange).cache && sym !in cache
    ensures AllNormal(inputs) && sym in Symbols(Needed(inputs, cache))
  {
    NormalizedMeaning(inputs);
    FetchGains(Needed(inputs, cache), CachedOf(PairsIn(inputs), cache), cache, exchange, sym);
  }

  lemma GainedSymbol(inputs: seq<string>, cache: Prices, exchange: Exchange, sym: string) returns (p: string)
    requires sym in Ltp(inputs, cache, exchange).cache && sym !in cache
    ensures AllNormal(inputs) && p in PairsIn(inputs) && SymbolOf(p) == sym
  {
    GainedIsNeeded(inputs, cache, exchange, sym);
    SymbolMembers(Needed(inputs, cache), sym);
    p :| p in Needed(inputs, cache) && SymbolOf(p) == sym;
    MissedMeaning(PairsIn(inputs), cache);
  }
}
