/** The currency-pair strings of internal/pairs/pairs.go, over ASCII. */
module Pairs {
  import opened Prelude

  datatype PairError = ExpectedBaseQuote | InvalidPair | InvalidSymbol | UnsupportedSymbol | UnsupportedQuote

  // ---------------------------------------------------------------- string helpers

  function UpperChar(c: char): char {
    if 'a' <= c <= 'z' then c - 'a' + 'A' else c
  }

  function Upper(s: string): (u: string) {
    seq(|s|, i requires 0 <= i < |s| => UpperChar(s[i]))
  }

  predicate IsSpace(c: char) {
    c == ' ' || '\t' <= c <= '\r'
  }

  function TrimLeft(s: string): string {
    if s != "" && IsSpace(s[0]) then TrimLeft(s[1..]) else s
  }

  function TrimRight(s: string): string {
    if s != "" && IsSpace(s[|s| - 1]) then TrimRight(s[..|s| - 1]) else s
  }

  function Trim(s: string): string {
    TrimRight(TrimLeft(s))
  }

  function Split(s: string): (parts: seq<string>)
    ensures |parts| > 0
  {
    if s == "" then [""]
    else
      var rest := Split(s[1..]);
      if s[0] == '/' then [""] + rest else [[s[0]] + rest[0]] + rest[1..]
  }

  // ---------------------------------------------------------------- the maps

  function NormalizeUserPair(p: string): Result<string, PairError> {
    var q := Trim(Upper(p));
    if q == "" || '/' !in q then Err(ExpectedBaseQuote)
    else
      var parts := Split(q);
      if |parts| != 2 || parts[0] == "" || parts[1] == "" then Err(InvalidPair)
      else Ok(parts[0] + "/" + parts[1])
  }

  function KrakenBase(base: string, quote: string): string {
    if base != "BTC" then base else if quote == "CHF" then "XBT" else "XXBT"
  }

  function KrakenQuote(quote: string): string {
    if quote == "USD" then "ZUSD" else if quote == "EUR" then "ZEUR" else quote
  }

  function ToKrakenSymbol(userPair: string): Result<string, PairError> {
    match NormalizeUserPair(userPair)
    case Err(e) => Err(e)
    case Ok(n) =>
      var parts := Split(n);
      if |parts| < 2 then Err(InvalidPair)
      else Ok(KrakenBase(parts[0], parts[1]) + KrakenQuote(parts[1]))
  }

  predicate HasPrefix(s: string, prefix: string) {
    prefix <= s
  }

  function FromKrakenSymbol(sym: string): Result<string, PairError> {
    if |sym| < 6 then Err(InvalidSymbol)
    else if HasPrefix(sym, "XXBT") then FromQuote(sym[4..])
    else if HasPrefix(sym, "XBT") then FromQuote(sym[3..])
    else Err(UnsupportedSymbol)
  }

  function FromQuote(quote: string): Result<string, PairError> {
    if quote == "ZUSD" then Ok("BTC/USD")
    else if quote == "ZEUR" then Ok("BTC/EUR")
    else if quote == "CHF" then Ok("BTC/CHF")
    else Err(UnsupportedQuote)
  }

  // ---------------------------------------------------------------- trimming and upper case

  predicate AllUpper(s: string) {
    forall i | 0 <= i < |s| :: UpperChar(s[i]) == s[i]
  }

  predicate Trimmed(s: string) {
    s == "" || (!IsSpace(s[0]) && !IsSpace(s[|s| - 1]))
  }

  lemma {:induction false} TrimLeftMeaning(s: string) returns (i: nat)
    ensures i <= |s| && TrimLeft(s) == s[i..] && forall k | 0 <= k < i :: IsSpace(s[k])
    ensures TrimLeft(s) == "" || !IsSpace(TrimLeft(s)[0])
    decreases s
  {
    i := 0;
    if s != "" && IsSpace(s[0]) {
      i := TrimLeftMeaning(s[1..]);
      assert s[1..][i..] == s[i + 1..];
      assert forall k | 0 < k <= i :: s[k] == s[1..][k - 1];
      i := i + 1;
    }
  }

  lemma {:induction false} TrimRightMeaning(s: string) returns (j: nat)
    ensures j <= |s| && TrimRight(s) == s[..j] && forall k | j <= k < |s| :: IsSpace(s[k])
    ensures j == 0 || !IsSpace(s[j - 1])
    decreases s
  {
    j := |s|;
    if s != "" && IsSpace(s[|s| - 1]) {
      j := TrimRightMeaning(s[..|s| - 1]);
      assert s[..|s| - 1][..j] == s[..j];
      assert forall k | j <= k < |s| - 1 :: s[k] == s[..|s| - 1][k];
    } else {
      assert s[..|s|] == s;
    }
  }

  /** Trimming cuts spaces off both ends, and nothing else, until none remains to cut. */
  lemma TrimMeaning(s: string) returns (i: nat, j: nat)
    ensures Trimmed(Trim(s))
    ensures i <= j <= |s| && Trim(s) == s[i..j]
    ensures forall k | 0 <= k < |s| && !(i <= k < j) :: IsSpace(s[k])
  {
    i := TrimLeftMeaning(s);
    var t := TrimLeft(s);
    j := TrimRightMeaning(t);
    assert Trim(s) == t[..j] == s[i..i + j];
    assert forall k | i <= k < |s| :: s[k] == t[k - i];
    j := i + j;
  }

  /** Normal strings are left alone. */
  lemma NormalStaysPut(s: string)
    requires AllUpper(s) && Trimmed(s)
    ensures Trim(Upper(s)) == s
  {
    assert Upper(s) == s;
  }

  lemma CleanIsNormal(p: string)
    ensures AllUpper(Trim(Upper(p))) && Trimmed(Trim(Upper(p)))
  {
    var i, j := TrimMeaning(Upper(p));
  }

  // ---------------------------------------------------------------- splitting

  predicate NoSlash(s: string) {
    '/' !in s
  }

  lemma {:induction false} SplitOne(s: string)
    requires NoSlash(s)
    ensures Split(s) == [s]
    decreases s
  {
    if s != "" {
      SplitOne(s[1..]);
      assert [s[0]] + s[1..] == s;
    }
  }

  lemma {:induction false} SplitTwo(base: string, quote: string)
    requires NoSlash(base) && NoSlash(quote)
    ensures Split(base + "/" + quote) == [base, quote]
    decreases base
  {
    var s := base + "/" + quote;
    if base == "" {
      assert s[1..] == quote;
      SplitOne(quote);
    } else {
      assert s[1..] == base[1..] + "/" + quote;
      SplitTwo(base[1..], quote);
      assert [base[0]] + base[1..] == base;
    }
  }

  /** The first part ends at the first slash, and two parts mean there is exactly one. */
  lemma {:induction false} SplitMeaning(s: string)
    ensures NoSlash(Split(s)[0])
    ensures |Split(s)| == 1 ==> s == Split(s)[0]
    ensures |Split(s)| == 2 ==> s == Split(s)[0] + "/" + Split(s)[1] && NoSlash(Split(s)[1])
    decreases s
  {
    if s != "" {
      SplitMeaning(s[1..]);
      assert s == [s[0]] + s[1..];
    }
  }

  // ---------------------------------------------------------------- laws

  ghost predicate IsPair(s: string) {
    exists base, quote :: base != "" && quote != "" && NoSlash(base) && NoSlash(quote) && s == base + "/" + quote
  }

  /** Normalisation accepts exactly the strings that, upper-cased and trimmed, are a non-empty base
      and a non-empty quote around a single slash; the accepted form is that string. */
  lemma NormalizeExactly(p: string)
    ensures NormalizeUserPair(p).Ok? <==> IsPair(Trim(Upper(p)))
    ensures NormalizeUserPair(p).Ok? ==> NormalizeUserPair(p).value == Trim(Upper(p))
  {
    var q := Trim(Upper(p));
    SplitMeaning(q);
    if IsPair(q) {
      var base, quote :| base != "" && quote != "" && NoSlash(base) && NoSlash(quote) && q == base + "/" + quote;
      SplitTwo(base, quote);
      assert q[|base|] == '/';
    }
  }

  // ---------------------------------------------------------------- the normal form, character by character

  /** White space by its codes. */
  predicate Blank(c: char) {
    c as int == 32 || 9 <= c as int <= 13
  }

  /** `d` is what `c` becomes: a lower-case letter its upper-case one, anything else itself. */
  predicate Raised(c: char, d: char) {
    d as int == if 97 <= c as int <= 122 then c as int - 32 else c as int
  }

  /** `n` is `p` from `i` to `j` with its letters raised, and nothing but white space is around it. */
  predicate Core(p: string, n: string, i: nat, j: nat) {
    && i <= j <= |p| && |n| == j - i
    && (forall k | 0 <= k < |p| && !(i <= k < j) :: Blank(p[k]))
    && (forall k | 0 <= k < |n| :: Raised(p[i + k], n[k]))
  }

  lemma {:induction false} TrimLeftTo(s: string, i: nat)
    requires i < |s| && !IsSpace(s[i]) && forall k | 0 <= k < i :: IsSpace(s[k])
    ensures TrimLeft(s) == s[i..]
    decreases i
  {
    if i > 0 {
      TrimLeftTo(s[1..], i - 1);
      assert s[1..][i - 1..] == s[i..];
    }
  }

  lemma {:induction false} TrimRightTo(s: string, j: nat)
    requires 0 < j <= |s| && !IsSpace(s[j - 1]) && forall k | j <= k < |s| :: IsSpace(s[k])
    ensures TrimRight(s) == s[..j]
    decreases |s|
  {
    if j < |s| {
      TrimRightTo(s[..|s| - 1], j);
      assert s[..|s| - 1][..j] == s[..j];
    } else {
      assert s[..j] == s;
    }
  }

  lemma RaisedIsUpper(c: char, d: char)
    ensures Raised(c, d) <==> d == UpperChar(c)
    ensures Blank(c) <==> IsSpace(UpperChar(c))
  {
  }

  /** What trimming and raising leave. */
  lemma CoreOf(p: string) returns (i: nat, j: nat)
    ensures Core(p, Trim(Upper(p)), i, j)
  {
    var u := Upper(p);
    i, j := TrimMeaning(u);
    forall k | 0 <= k < |p| && !(i <= k < j)
      ensures Blank(p[k])
    {
      RaisedIsUpper(p[k], u[k]);
    }
    forall k | 0 <= k < |Trim(u)|
      ensures Raised(p[i + k], Trim(u)[k])
    {
      RaisedIsUpper(p[i + k], u[i + k]);
    }
  }

  lemma CoreIsTrimmed(p: string, n: string, i: nat, j: nat)
    requires Core(p, n, i, j) && n != "" && !Blank(n[0]) && !Blank(n[|n| - 1])
    ensures Trim(Upper(p)) == n
  {
    var u := Upper(p);
    forall k | 0 <= k < |p|
      ensures u[k] == UpperChar(p[k]) && (Blank(p[k]) <==> IsSpace(u[k])) && (i <= k < j ==> u[k] == n[k - i])
    {
      RaisedIsUpper(p[k], u[k]);
      assert i <= k < j ==> Raised(p[i + (k - i)], n[k - i]);
    }
    RaisedIsUpper(n[0], n[0]);
    RaisedIsUpper(n[|n| - 1], n[|n| - 1]);
    assert u[i] == n[0] && u[j - 1] == n[|n| - 1];
    TrimLeftTo(u, i);
    TrimRightTo(u[i..], |n|);
    assert u[i..][..|n|] == n;
  }

  /** The normal form of a string, exactly: `n` is it if and only if `n` is a base and a quote around one slash,
      without white space at its ends, and the string is `n`, its letters in any case, with any white space around. */
  lemma NormalFormExactly(p: string, n: string)
    ensures NormalizeUserPair(p) == Ok(n)
            <==> IsPair(n) && !Blank(n[0]) && !Blank(n[|n| - 1]) && exists i, j :: Core(p, n, i, j)
  {
    NormalizeExactly(p);
    if NormalizeUserPair(p) == Ok(n) {
      var i, j := CoreOf(p);
      CleanIsNormal(p);
      RaisedIsUpper(n[0], n[0]);
      RaisedIsUpper(n[|n| - 1], n[|n| - 1]);
    }
    if IsPair(n) && !Blank(n[0]) && !Blank(n[|n| - 1]) && exists i, j :: Core(p, n, i, j) {
      var i, j :| Core(p, n, i, j);
      CoreIsTrimmed(p, n, i, j);
    }
  }

  /** Which error a string without a normal form gets: whether or not there is a slash in it decides. */
  lemma NormalizeErrors(p: string)
    ensures NormalizeUserPair(p) == Err(ExpectedBaseQuote) <==> '/' !in p
    ensures NormalizeUserPair(p).Err? && '/' in p ==> NormalizeUserPair(p) == Err(InvalidPair)
  {
    var n := Trim(Upper(p));
    var i, j := CoreOf(p);
    if '/' in p {
      var k :| 0 <= k < |p| && p[k] == '/';
      assert i <= k < j && Raised(p[i + (k - i)], n[k - i]);
    }
    if '/' in n {
      var k :| 0 <= k < |n| && n[k] == '/';
      assert Raised(p[i + k], n[k]);
    }
  }

  lemma NormalizeIdempotent(p: string)
    requires NormalizeUserPair(p).Ok?
    ensures NormalizeUserPair(NormalizeUserPair(p).value) == NormalizeUserPair(p)
  {
    NormalizeExactly(p);
    CleanIsNormal(p);
    NormalStaysPut(NormalizeUserPair(p).value);
  }

  /** The symbol map is defined exactly on user pairs and sees only their normal form. */
  lemma SymbolFactorsThroughNormalize(u: string)
    ensures ToKrakenSymbol(u).Ok? <==> NormalizeUserPair(u).Ok?
    ensures NormalizeUserPair(u).Ok? ==> ToKrakenSymbol(u) == ToKrakenSymbol(NormalizeUserPair(u).value)
  {
    if NormalizeUserPair(u).Ok? {
      NormalizeIdempotent(u);
      NormalizeExactly(u);
      SplitMeaning(NormalizeUserPair(u).value);
      var base, quote := PartsOf(u);
    }
  }

  lemma PartsOf(u: string) returns (base: string, quote: string)
    requires NormalizeUserPair(u).Ok?
    ensures base != "" && quote != "" && NoSlash(base) && NoSlash(quote)
    ensures NormalizeUserPair(u).value == base + "/" + quote
    ensures ToKrakenSymbol(u) == Ok(KrakenBase(base, quote) + KrakenQuote(quote))
  {
    NormalizeExactly(u);
    base, quote :| base != "" && quote != "" && NoSlash(base) && NoSlash(quote) && Trim(Upper(u)) == base + "/" + quote;
    SplitTwo(base, quote);
  }

  /** A Kraken symbol never contains a slash, so it is never itself accepted as a user pair. */
  lemma SymbolIsNoUserPair(u: string)
    requires ToKrakenSymbol(u).Ok?
    ensures NoSlash(ToKrakenSymbol(u).value)
    ensures NormalizeUserPair(ToKrakenSymbol(u).value).Err?
  {
    SymbolFactorsThroughNormalize(u);
    var base, quote := PartsOf(u);
    var sym := ToKrakenSymbol(u).value;
    assert NoSlash(KrakenBase(base, quote)) && NoSlash(KrakenQuote(quote));
    NoSlashIsNoPair(sym);
  }

  lemma NoSlashIsNoPair(s: string)
    requires NoSlash(s)
    ensures NormalizeUserPair(s).Err?
  {
    var i, j := TrimMeaning(Upper(s));
    forall k | 0 <= k < |Trim(Upper(s))|
      ensures Trim(Upper(s))[k] != '/'
    {
      assert Trim(Upper(s))[k] == UpperChar(s[i + k]) && s[i + k] in s;
    }
  }

  /** The quotes of the three pairs the service is for; the base is always BTC. */
  predicate Supported(quote: string) {
    quote == "USD" || quote == "EUR" || quote == "CHF"
  }

  ghost predicate SupportedPair(n: string) {
    exists quote :: Supported(quote) && n == "BTC" + "/" + quote
  }

  /** A base, and a quote, that may stand in a normal pair. */
  predicate BaseText(base: string) {
    base != "" && NoSlash(base) && AllUpper(base) && !IsSpace(base[0])
  }

  predicate QuoteText(quote: string) {
    quote != "" && NoSlash(quote) && AllUpper(quote) && !IsSpace(quote[|quote| - 1])
  }

  lemma PlainPair(base: string, quote: string)
    requires BaseText(base) && QuoteText(quote)
    ensures NormalizeUserPair(base + "/" + quote) == Ok(base + "/" + quote)
    ensures ToKrakenSymbol(base + "/" + quote) == Ok(KrakenBase(base, quote) + KrakenQuote(quote))
  {
    var n := base + "/" + quote;
    NormalStaysPut(n);
    assert IsPair(n);
    NormalizeExactly(n);
    SplitTwo(base, quote);
  }

  /** The table of symbols: only BTC is renamed as a base, to the short code against CHF and to the long one
      against anything else, and only USD and EUR as quotes; whatever else there is stays. */
  lemma SymbolExactly(u: string, base: string, quote: string)
    requires NoSlash(base) && NoSlash(quote) && NormalizeUserPair(u) == Ok(base + "/" + quote)
    ensures ToKrakenSymbol(u) == Ok((if base == "BTC" && quote == "CHF" then "XBT" else if base == "BTC" then "XXBT" else base)
                                    + (if quote == "USD" then "ZUSD" else if quote == "EUR" then "ZEUR" else quote))
  {
    SplitTwo(base, quote);
  }

  lemma BitcoinSymbol(base: string, quote: string)
    requires base == "BTC" && Supported(quote)
    ensures ToKrakenSymbol(base + "/" + quote) == Ok(if quote == "USD" then "XXBTZUSD" else if quote == "EUR" then "XXBTZEUR" else "XBTCHF")
  {
    PlainBitcoin(base, quote);
    CodesJoined();
  }

  lemma PlainBitcoin(base: string, quote: string)
    requires base == "BTC" && Supported(quote)
    ensures ToKrakenSymbol(base + "/" + quote)
         == Ok(if quote == "USD" then "XXBT" + "ZUSD" else if quote == "EUR" then "XXBT" + "ZEUR" else "XBT" + "CHF")
  {
    SupportedIsText(base, quote);
    PlainPair(base, quote);
  }

  lemma SupportedIsText(base: string, quote: string)
    requires base == "BTC" && Supported(quote)
    ensures BaseText(base) && QuoteText(quote)
  {
  }

  lemma CodesJoined()
    ensures "XXBT" + "ZUSD" == "XXBTZUSD" && "XXBT" + "ZEUR" == "XXBTZEUR" && "XBT" + "CHF" == "XBTCHF"
  {
  }

  lemma JoinedBitcoin(base: string, quote: string)
    requires base == "BTC" && Supported(quote)
    ensures base + "/" + quote == if quote == "USD" then "BTC/USD" else if quote == "EUR" then "BTC/EUR" else "BTC/CHF"
  {
  }

  /** The symbols of the three pairs the service is for. */
  lemma SupportedSymbols()
    ensures ToKrakenSymbol("BTC/USD") == Ok("XXBTZUSD")
    ensures ToKrakenSymbol("BTC/EUR") == Ok("XXBTZEUR")
    ensures ToKrakenSymbol("BTC/CHF") == Ok("XBTCHF")
  {
    BitcoinSymbol("BTC", "USD");
    BitcoinSymbol("BTC", "EUR");
    BitcoinSymbol("BTC", "CHF");
    JoinedBitcoin("BTC", "USD");
    JoinedBitcoin("BTC", "EUR");
    JoinedBitcoin("BTC", "CHF");
  }

  /** Reading back, exactly: a symbol reads back if and only if it is one of the two codes of Bitcoin followed
      by one of the codes of the three quotes, in any combination, and then as Bitcoin against that quote. */
  lemma ReadBackExactly(sym: string, p: string)
    ensures FromKrakenSymbol(sym) == Ok(p)
            <==> exists b, q, quote :: CodeOf(b, q, quote) && sym == b + q && p == "BTC" + "/" + quote
  {
    if FromKrakenSymbol(sym) == Ok(p) {
      var b := if HasPrefix(sym, "XXBT") then sym[..4] else sym[..3];
      var q := sym[|b|..];
      assert sym == b + q;
      ReadQuote(q, p);
    }
    if b, q, quote :| CodeOf(b, q, quote) && sym == b + q && p == "BTC" + "/" + quote {
      ReadCodes(b, q, quote);
    }
  }

  /** `b` and `q` are codes of Bitcoin and of the quote. */
  predicate CodeOf(b: string, q: string, quote: string) {
    (b == "XXBT" || b == "XBT")
    && ((q == "ZUSD" && quote == "USD") || (q == "ZEUR" && quote == "EUR") || (q == "CHF" && quote == "CHF"))
  }

  lemma ReadQuote(q: string, p: string)
    requires FromQuote(q) == Ok(p)
    ensures exists quote :: CodeOf("XBT", q, quote) && p == "BTC" + "/" + quote
  {
    var quote := if q == "ZUSD" then "USD" else if q == "ZEUR" then "EUR" else "CHF";
    JoinedBitcoin("BTC", quote);
    assert CodeOf("XBT", q, quote);
  }

  lemma ReadCodes(b: string, q: string, quote: string)
    requires CodeOf(b, q, quote)
    ensures FromKrakenSymbol(b + q) == Ok("BTC" + "/" + quote)
  {
    var sym := b + q;
    assert sym[..|b|] == b && sym[|b|..] == q;
    if b == "XBT" {
      assert sym[1] == 'B' && !HasPrefix(sym, "XXBT");
    }
    JoinedBitcoin("BTC", quote);
  }

  lemma ReadBackSupported(quote: string)
    requires Supported(quote)
    ensures FromQuote(KrakenQuote(quote)) == Ok("BTC" + "/" + quote)
  {
    if quote == "USD" {
      assert "BTC" + "/" + quote == "BTC/USD";
    } else if quote == "EUR" {
      assert "BTC" + "/" + quote == "BTC/EUR";
    } else {
      assert "BTC" + "/" + quote == "BTC/CHF";
    }
  }

  lemma FromSupported(b: string, q: string)
    requires if q == "CHF" then b == "XBT" else b == "XXBT" && |q| == 4
    ensures FromKrakenSymbol(b + q) == FromQuote(q)
  {
    var sym := b + q;
    assert sym[..|b|] == b && sym[|b|..] == q;
    if q == "CHF" {
      assert sym[1] == 'B' && !HasPrefix(sym, "XXBT");
    }
  }

  lemma SupportedSymbol(base: string, quote: string)
    requires base == "BTC" && Supported(quote)
    ensures NormalizeUserPair(base + "/" + quote) == Ok(base + "/" + quote)
    ensures ToKrakenSymbol(base + "/" + quote) == Ok(KrakenBase(base, quote) + KrakenQuote(quote))
    ensures FromKrakenSymbol(KrakenBase(base, quote) + KrakenQuote(quote)) == Ok(base + "/" + quote)
  {
    PlainPair(base, quote);
    FromSupported(KrakenBase(base, quote), KrakenQuote(quote));
    ReadBackSupported(quote);
  }

  /** Whenever a symbol reads back as a pair, it is a supported one, and mapping that pair out and
      back again returns it. */
  lemma ReadBackIsStable(sym: string)
    requires FromKrakenSymbol(sym).Ok?
    ensures var p := FromKrakenSymbol(sym).value;
            SupportedPair(p) && ToKrakenSymbol(p).Ok? && FromKrakenSymbol(ToKrakenSymbol(p).value) == Ok(p)
  {
    var p := FromKrakenSymbol(sym).value;
    var base := p[..3];
    var quote := p[4..];
    assert p == base + "/" + quote;
    SupportedSymbol(base, quote);
  }

  /** The round trip of a user pair succeeds exactly for the three pairs the service is for. */
  lemma RoundTripExactly(u: string)
    requires NormalizeUserPair(u).Ok?
    ensures ToKrakenSymbol(u).Ok?
    ensures FromKrakenSymbol(ToKrakenSymbol(u).value) == NormalizeUserPair(u) <==> SupportedPair(NormalizeUserPair(u).value)
  {
    SymbolFactorsThroughNormalize(u);
    var n := NormalizeUserPair(u).value;
    if SupportedPair(n) {
      var quote :| Supported(quote) && n == "BTC" + "/" + quote;
      SupportedSymbol("BTC", quote);
    }
    if FromKrakenSymbol(ToKrakenSymbol(u).value) == Ok(n) {
      ReadBackIsStable(ToKrakenSymbol(u).value);
    }
  }

  // ---------------------------------------------------------------- which pairs share a symbol

  /** `p` is a user pair in normal form. */
  predicate Normal(p: string) {
    NormalizeUserPair(p) == Ok(p)
  }

  /** The symbol is cut before position `k` into a base and a quote that the map leaves alone. */
  function CutAt(sym: string, k: nat): string
    requires k <= |sym|
  {
    sym[..k] + "/" + sym[k..]
  }

  predicate Cuttable(sym: string, k: nat) {
    0 < k < |sym| && sym[..k] != "BTC" && sym[k..] != "USD" && sym[k..] != "EUR"
  }

  lemma PartsAreText(base: string, quote: string, p: string)
    requires p == base + "/" + quote && base != "" && quote != "" && NoSlash(base) && NoSlash(quote)
    requires AllUpper(p) && Trimmed(p)
    ensures BaseText(base) && QuoteText(quote)
  {
    assert p[0] == base[0] && p[|p| - 1] == quote[|quote| - 1];
    assert forall i | 0 <= i < |base| :: base[i] == p[i];
    assert forall i | 0 <= i < |quote| :: quote[i] == p[|base| + 1 + i];
  }

  lemma PartsOfNormal(p: string) returns (base: string, quote: string)
    requires Normal(p)
    ensures BaseText(base) && QuoteText(quote) && p == base + "/" + quote
    ensures ToKrakenSymbol(p) == Ok(KrakenBase(base, quote) + KrakenQuote(quote))
  {
    base, quote := PartsOf(p);
    NormalizeExactly(p);
    CleanIsNormal(p);
    PartsAreText(base, quote, p);
  }

  predicate SymbolText(sym: string) {
    |sym| >= 2 && NoSlash(sym) && AllUpper(sym) && !IsSpace(sym[0]) && !IsSpace(sym[|sym| - 1])
  }

  lemma KrakenPartsAreText(base: string, quote: string)
    requires BaseText(base) && QuoteText(quote)
    ensures BaseText(KrakenBase(base, quote)) && QuoteText(KrakenQuote(quote))
    ensures |KrakenBase(base, quote)| >= |base| && (|base| == 1 ==> KrakenBase(base, quote) == base)
    ensures |KrakenQuote(quote)| >= |quote| && (|quote| == 1 ==> KrakenQuote(quote) == quote)
  {
  }

  lemma JoinedIsText(b: string, q: string)
    requires BaseText(b) && QuoteText(q)
    ensures SymbolText(b + q)
  {
    assert (b + q)[0] == b[0] && (b + q)[|b| + |q| - 1] == q[|q| - 1];
  }

  lemma SymbolIsText(p: string)
    requires Normal(p)
    ensures ToKrakenSymbol(p).Ok? && SymbolText(ToKrakenSymbol(p).value)
    ensures |ToKrakenSymbol(p).value| == 2 <==> |p| == 3
    ensures |p| >= 3
  {
    var base, quote := PartsOfNormal(p);
    KrakenPartsAreText(base, quote);
    JoinedIsText(KrakenBase(base, quote), KrakenQuote(quote));
  }

  lemma CutIsText(sym: string, k: nat)
    requires SymbolText(sym) && 0 < k < |sym|
    ensures BaseText(sym[..k]) && QuoteText(sym[k..])
  {
    assert forall i | 0 <= i < |sym| - k :: sym[k..][i] == sym[k + i];
    assert sym[k..][|sym| - k - 1] == sym[|sym| - 1];
  }

  lemma JoinedAtCut(sym: string, k: nat)
    requires k <= |sym|
    ensures sym[..k] + sym[k..] == sym
  {
  }

  /** A pair the map leaves alone. */
  lemma UnmappedPair(base: string, quote: string, sym: string)
    requires BaseText(base) && QuoteText(quote) && base != "BTC" && quote != "USD" && quote != "EUR"
    requires sym == base + quote
    ensures NormalizeUserPair(base + "/" + quote) == Ok(base + "/" + quote)
    ensures ToKrakenSymbol(base + "/" + quote) == Ok(sym)
  {
    PlainPair(base, quote);
  }

  /** A cut symbol is a normal pair with that symbol. */
  lemma CutIsPair(sym: string, k: nat)
    requires SymbolText(sym) && Cuttable(sym, k)
    ensures Normal(CutAt(sym, k)) && ToKrakenSymbol(CutAt(sym, k)) == Ok(sym)
  {
    CutIsText(sym, k);
    JoinedAtCut(sym, k);
    UnmappedPair(sym[..k], sym[k..], sym);
  }

  lemma CutsDiffer(sym: string, k: nat, m: nat)
    requires NoSlash(sym) && k < m <= |sym|
    ensures CutAt(sym, k) != CutAt(sym, m)
  {
    assert CutAt(sym, k)[k] == '/' && CutAt(sym, m)[k] == sym[k];
    assert sym[k] in sym;
  }

  /** A symbol of three or more characters can be cut in two places. */
  lemma TwoCuts(sym: string) returns (k: nat, m: nat)
    requires |sym| >= 3
    ensures k < m && Cuttable(sym, k) && Cuttable(sym, m)
  {
    if |sym| != 4 {
      k, m := 1, |sym| - 1;
    } else if sym[1..] == "USD" || sym[1..] == "EUR" {
      k, m := 2, 3;
      assert sym[..3][1] == sym[1] && sym[1..][0] == sym[1];
    } else {
      k, m := 1, 2;
    }
  }

  /** Exactly the normal pairs of more than three characters share their symbol, and with it their cache
      key, with another normal pair: only a base and a quote of one character each are told apart. */
  lemma SymbolSharedExactly(p: string)
    requires Normal(p)
    ensures (exists p' :: p' != p && Normal(p') && ToKrakenSymbol(p') == ToKrakenSymbol(p)) <==> |p| > 3
  {
    SymbolIsText(p);
    var sym := ToKrakenSymbol(p).value;
    if |p| > 3 {
      var k, m := TwoCuts(sym);
      CutIsPair(sym, k);
      CutIsPair(sym, m);
      CutsDiffer(sym, k, m);
    } else if p' :| p' != p && Normal(p') && ToKrakenSymbol(p') == ToKrakenSymbol(p) {
      SymbolIsText(p');
      ShortPair(p);
      ShortPair(p');
    }
  }

  lemma ShortPair(p: string)
    requires Normal(p) && |p| == 3
    ensures ToKrakenSymbol(p) == Ok([p[0], p[2]]) && p == [p[0], '/', p[2]]
  {
    var base, quote := PartsOfNormal(p);
    assert |base| == 1 && |quote| == 1;
    assert base == [p[0]] && quote == [p[2]];
    assert KrakenBase(base, quote) == base && KrakenQuote(quote) == quote;
    assert base + quote == [p[0], p[2]];
  }

  lemma SameParts(b: string, q: string, base: string, quote: string)
    requires NoSlash(b) && NoSlash(q) && NoSlash(base) && NoSlash(quote)
    ensures b + "/" + q == base + "/" + quote <==> b == base && q == quote
  {
    SplitTwo(b, q);
    SplitTwo(base, quote);
    assert [b, q][0] == b && [b, q][1] == q && [base, quote][0] == base && [base, quote][1] == quote;
  }

  /** The collision a user can meet: a pair and its spelling in the exchange's own codes have the same
      symbol, and the two are different pairs exactly when the map renames the base or the quote. */
  lemma SymbolsCollide(base: string, quote: string)
    requires BaseText(base) && QuoteText(quote)
    ensures var p, p' := base + "/" + quote, KrakenBase(base, quote) + "/" + KrakenQuote(quote);
            && Normal(p) && Normal(p') && ToKrakenSymbol(p) == ToKrakenSymbol(p')
            && (p != p' <==> base == "BTC" || quote == "USD" || quote == "EUR")
  {
    var b, q := KrakenBase(base, quote), KrakenQuote(quote);
    KrakenPartsAreText(base, quote);
    PlainPair(base, quote);
    PlainPair(b, q);
    SameParts(b, q, base, quote);
  }
}
