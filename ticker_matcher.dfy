/**
 * The greedy ticker matcher `get_ticker` and the marked-ticker test
 * `check_ticker_presence`.
 *
 * The `tickers` dict is a sequence of listings in its iteration order, so the
 * "first listing that matches" is well defined.  The search order of
 * `get_ticker` is stated three ways: as the specification functions
 * `GetTicker` / `ScanSizes` / `ScanStarts` / `FindInCatalog`, as the
 * lexicographic "first hit" of `IsFirstHit`, and as the loop method
 * `FindTicker`; lemmas connect all three.
 */
module TickerMatcher {
  import opened Wrappers
  import opened PythonStrings

  /** One `(company, ticker)` item of the `tickers` dict. */
  datatype Listing = Listing(company: string, ticker: string)

  /** The dict's items in iteration order. */
  type Catalog = seq<Listing>

  function Min(a: int, b: int): int
  {
    if a < b then a else b
  }

  /** Every ticker value of the catalog. */
  function Tickers(catalog: Catalog): set<string>
  {
    set i | 0 <= i < |catalog| :: catalog[i].ticker
  }

  /** `size` consecutive words from `start`, re-joined: `' '.join(company_words[index : index+word_count])`. */
  function Window(words: seq<string>, start: nat, size: nat): string
    requires start + size <= |words|
  {
    Join(words[start..start + size])
  }

  /** The two tests made against one listing: the phrase is a case-insensitive
      substring of the company name, or case-insensitively equals the ticker. */
  predicate Matches(subset: string, listing: Listing)
  {
    IsSubstring(Lower(subset), Lower(listing.company)) || Lower(subset) == Lower(listing.ticker)
  }

  /** The ticker of the first listing from index `k` on that the phrase matches. */
  function FindInCatalog(subset: string, catalog: Catalog, k: nat): (r: Option<string>)
    requires k <= |catalog|
    ensures r.Some? ==> r.value in Tickers(catalog)
    decreases |catalog| - k
  {
    if k == |catalog| then None
    else if Matches(subset, catalog[k]) then Some(catalog[k].ticker)
    else FindInCatalog(subset, catalog, k + 1)
  }

  /** The first match among the windows of `size` words that start at `start` or later. */
  function ScanStarts(words: seq<string>, size: nat, start: nat, catalog: Catalog): (r: Option<string>)
    requires 1 <= size <= |words| && start <= |words| - size + 1
    ensures r.Some? ==> r.value in Tickers(catalog)
    decreases |words| - size + 1 - start
  {
    if start == |words| - size + 1 then None
    else OrElse(FindInCatalog(Window(words, start, size), catalog, 0), ScanStarts(words, size, start + 1, catalog))
  }

  /** The first match among the windows of at most `size` words, longest first. */
  function ScanSizes(words: seq<string>, size: int, catalog: Catalog): (r: Option<string>)
    requires size <= |words|
    ensures r.Some? ==> r.value in Tickers(catalog)
    decreases size
  {
    if size < 1 then None
    else OrElse(ScanStarts(words, size, 0, catalog), ScanSizes(words, size - 1, catalog))
  }

  /** `get_ticker(name, tickers, max_words)`; `None` is Python's `None`. */
  function GetTicker(name: string, catalog: Catalog, maxWords: int): (r: Option<string>)
    ensures r.Some? ==> r.value in Tickers(catalog)
    ensures maxWords <= 0 || |catalog| == 0 ==> r == None
  {
    var words := Split(name);
    ScanSizes(words, Min(maxWords, |words|), catalog)
  }

  /** The window of `size` words at `start` matches listing `k`. */
  ghost predicate Hit(words: seq<string>, catalog: Catalog, size: int, start: int, k: int)
  {
    && 1 <= size <= |words|
    && 0 <= start <= |words| - size
    && 0 <= k < |catalog|
    && Matches(Window(words, start, size), catalog[k])
  }

  /** The search order: longer windows first, then leftmost start, then catalog order. */
  predicate Precedes(size': int, start': int, k': int, size: int, start: int, k: int)
  {
    size' > size || (size' == size && (start' < start || (start' == start && k' < k)))
  }

  /** `(size, start, k)` is the earliest hit in search order among windows of at most `maxSize` words. */
  ghost predicate IsFirstHit(words: seq<string>, catalog: Catalog, maxSize: int, size: int, start: int, k: int)
  {
    && size <= maxSize
    && Hit(words, catalog, size, start, k)
    && forall s, st, j :: s <= maxSize && Precedes(s, st, j, size, start, k) ==> !Hit(words, catalog, s, st, j)
  }

  lemma {:induction false} FindInCatalogFirst(subset: string, catalog: Catalog, from: nat) returns (k: int)
    requires from <= |catalog|
    ensures FindInCatalog(subset, catalog, from).None? ==>
              forall j :: from <= j < |catalog| ==> !Matches(subset, catalog[j])
    ensures FindInCatalog(subset, catalog, from).Some? ==>
              && from <= k < |catalog|
              && Matches(subset, catalog[k])
              && catalog[k].ticker == FindInCatalog(subset, catalog, from).value
              && forall j :: from <= j < k ==> !Matches(subset, catalog[j])
    decreases |catalog| - from
  {
    k := 0;
    if from < |catalog| {
      if Matches(subset, catalog[from]) {
        k := from;
      } else {
        k := FindInCatalogFirst(subset, catalog, from + 1);
      }
    }
  }

  lemma {:induction false} ScanStartsFirst(words: seq<string>, size: nat, start: nat, catalog: Catalog) returns (st: int, k: int)
    requires 1 <= size <= |words| && start <= |words| - size + 1
    ensures ScanStarts(words, size, start, catalog).None? ==>
              forall st', j :: start <= st' ==> !Hit(words, catalog, size, st', j)
    ensures ScanStarts(words, size, start, catalog).Some? ==>
              && start <= st
              && Hit(words, catalog, size, st, k)
              && catalog[k].ticker == ScanStarts(words, size, start, catalog).value
              && forall st', j :: start <= st' && Precedes(size, st', j, size, st, k) ==> !Hit(words, catalog, size, st', j)
    decreases |words| - size + 1 - start
  {
    st, k := 0, 0;
    if start <= |words| - size {
      var w := Window(words, start, size);
      var j := FindInCatalogFirst(w, catalog, 0);
      var st2, k2 := ScanStartsFirst(words, size, start + 1, catalog);
      if FindInCatalog(w, catalog, 0).Some? {
        st, k := start, j;
      } else {
        st, k := st2, k2;
      }
    }
  }

  lemma {:induction false} ScanSizesFirst(words: seq<string>, size: int, catalog: Catalog) returns (s: int, st: int, k: int)
    requires size <= |words|
    ensures ScanSizes(words, size, catalog).None? ==>
              forall s', st', j :: s' <= size ==> !Hit(words, catalog, s', st', j)
    ensures ScanSizes(words, size, catalog).Some? ==>
              && IsFirstHit(words, catalog, size, s, st, k)
              && catalog[k].ticker == ScanSizes(words, size, catalog).value
    decreases size
  {
    s, st, k := 0, 0, 0;
    if size >= 1 {
      var a, b := ScanStartsFirst(words, size, 0, catalog);
      var s2, st2, k2 := ScanSizesFirst(words, size - 1, catalog);
      if ScanStarts(words, size, 0, catalog).Some? {
        s, st, k := size, a, b;
      } else {
        s, st, k := s2, st2, k2;
      }
    }
  }

  /** `get_ticker` returns `None` exactly when no window of at most
      `min(max_words, len(words))` words matches any listing. */
  lemma GetTickerNoneIff(name: string, catalog: Catalog, maxWords: int)
    ensures var words := Split(name);
            GetTicker(name, catalog, maxWords) == None <==>
            forall s, st, j :: s <= Min(maxWords, |words|) ==> !Hit(words, catalog, s, st, j)
  {
    var words := Split(name);
    var s, st, k := ScanSizesFirst(words, Min(maxWords, |words|), catalog);
  }

  /** A ticker returned by `get_ticker` belongs to the earliest hit in search order. */
  lemma GetTickerIsFirstHit(name: string, catalog: Catalog, maxWords: int) returns (s: int, st: int, k: int)
    requires GetTicker(name, catalog, maxWords).Some?
    ensures var words := Split(name);
            && IsFirstHit(words, catalog, Min(maxWords, |words|), s, st, k)
            && catalog[k].ticker == GetTicker(name, catalog, maxWords).value
  {
    var words := Split(name);
    s, st, k := ScanSizesFirst(words, Min(maxWords, |words|), catalog);
  }

  /** Conversely, the earliest hit in search order decides the result. */
  lemma FirstHitDecidesTicker(name: string, catalog: Catalog, maxWords: int, s: int, st: int, k: int)
    requires var words := Split(name); IsFirstHit(words, catalog, Min(maxWords, |words|), s, st, k)
    ensures GetTicker(name, catalog, maxWords) == Some(catalog[k].ticker)
  {
    var words := Split(name);
    var m := Min(maxWords, |words|);
    GetTickerNoneIff(name, catalog, maxWords);
    var s2, st2, k2 := GetTickerIsFirstHit(name, catalog, maxWords);
    // Neither hit can precede the other, so they are the same hit.
    assert !Precedes(s, st, k, s2, st2, k2);
    assert !Precedes(s2, st2, k2, s, st, k);
  }

  /** Longest window first: when some window of `size` words matches, the
      returned ticker comes from a window at least that long. */
  lemma LongerWindowWins(name: string, catalog: Catalog, maxWords: int, size: int, start: int, k: int)
    requires var words := Split(name); size <= Min(maxWords, |words|) && Hit(words, catalog, size, start, k)
    ensures GetTicker(name, catalog, maxWords).Some?
    ensures var words := Split(name);
            exists s, st, j :: && size <= s <= Min(maxWords, |words|)
                               && Hit(words, catalog, s, st, j)
                               && catalog[j].ticker == GetTicker(name, catalog, maxWords).value
  {
    var words := Split(name);
    GetTickerNoneIff(name, catalog, maxWords);
    var s, st, j := GetTickerIsFirstHit(name, catalog, maxWords);
    assert !Precedes(size, start, k, s, st, j);
    assert Hit(words, catalog, s, st, j);
  }

  /** A name of at most `maxWords` words is first tried whole, so the first
      listing the whole name matches decides the ticker. */
  lemma WholeNameFirst(name: string, catalog: Catalog, maxWords: int, k: int)
    requires |Split(name)| <= maxWords
    requires 0 <= k < |catalog| && Matches(name, catalog[k])
    requires forall j :: 0 <= j < k ==> !Matches(name, catalog[j])
    ensures GetTicker(name, catalog, maxWords) == Some(catalog[k].ticker)
  {
    var words := Split(name);
    var n := |words|;
    assert words[0..n] == words;
    JoinSplit(name);
    assert Window(words, 0, n) == name;
    assert IsFirstHit(words, catalog, n, n, 0, k);
    FirstHitDecidesTicker(name, catalog, maxWords, n, 0, k);
  }

  /** A phrase longer than a listing's company name and of another length than
      its ticker cannot match it. */
  lemma ShorterNeverMatches(subset: string, listing: Listing)
    requires |listing.company| < |subset| && |listing.ticker| != |subset|
    ensures !Matches(subset, listing)
  {
    if IsSubstring(Lower(subset), Lower(listing.company)) {
      SubstringNoLonger(Lower(subset), Lower(listing.company));
    }
  }

  /** Longest window first, as a policy: a name of at most `maxWords` words
      gets the ticker of the first listing it matches whole, even when listings
      with shorter company names (and tickers of another length) come before it. */
  lemma WholeNameBeatsShorterListings(name: string, catalog: Catalog, maxWords: int, k: int)
    requires |Split(name)| <= maxWords
    requires 0 <= k < |catalog| && Matches(name, catalog[k])
    requires forall j :: 0 <= j < k ==> |catalog[j].company| < |name| && |catalog[j].ticker| != |name|
    ensures GetTicker(name, catalog, maxWords) == Some(catalog[k].ticker)
  {
    forall j | 0 <= j < k
      ensures !Matches(name, catalog[j])
    {
      ShorterNeverMatches(name, catalog[j]);
    }
    WholeNameFirst(name, catalog, maxWords, k);
  }

  /** `get_ticker` as written: three nested loops that return on the first match. */
  method FindTicker(name: string, catalog: Catalog, maxWords: int) returns (r: Option<string>)
    ensures r == GetTicker(name, catalog, maxWords)
  {
    var companyWords := Split(name);
    var wordCount := Min(maxWords, |companyWords|);
    while wordCount >= 1
      invariant wordCount <= |companyWords|
      invariant ScanSizes(companyWords, wordCount, catalog) == GetTicker(name, catalog, maxWords)
      decreases wordCount
    {
      for index := 0 to |companyWords| - wordCount + 1
        invariant OrElse(ScanStarts(companyWords, wordCount, index, catalog),
                         ScanSizes(companyWords, wordCount - 1, catalog)) == GetTicker(name, catalog, maxWords)
      {
        var subset := Join(companyWords[index..index + wordCount]);
        for k := 0 to |catalog|
          invariant OrElse(FindInCatalog(subset, catalog, k),
                           OrElse(ScanStarts(companyWords, wordCount, index + 1, catalog),
                                  ScanSizes(companyWords, wordCount - 1, catalog))) == GetTicker(name, catalog, maxWords)
        {
          var company, ticker := catalog[k].company, catalog[k].ticker;
          if IsSubstring(Lower(subset), Lower(company)) {
            return Some(ticker);
          }
          if Lower(subset) == Lower(ticker) {
            return Some(ticker);
          }
        }
      }
      wordCount := wordCount - 1;
    }
    return None;
  }

  /** The marker prepended to a substituted ticker: `'__{}'.format(ticker)`. */
  function Mark(ticker: string): (r: string)
    ensures Space !in ticker ==> Space !in r
  {
    "__" + ticker
  }

  /** Different tickers get different marks, so a mark names its ticker. */
  lemma MarkInjective(a: string, b: string)
    ensures Mark(a) == Mark(b) ==> a == b
  {
    assert a == Mark(a)[2..] && b == Mark(b)[2..];
  }

  /** `formatted_tickers`: every ticker of the catalog with its marker. */
  function MarkedTickers(catalog: Catalog): set<string>
  {
    set i | 0 <= i < |catalog| :: Mark(catalog[i].ticker)
  }

  /** A marked string is one of `formatted_tickers` exactly when its ticker is one of the dict's. */
  lemma MarkedTickersIff(catalog: Catalog, t: string)
    ensures Mark(t) in MarkedTickers(catalog) <==> t in Tickers(catalog)
  {
    if Mark(t) in MarkedTickers(catalog) {
      var i :| 0 <= i < |catalog| && Mark(catalog[i].ticker) == Mark(t);
      MarkInjective(catalog[i].ticker, t);
    }
    if t in Tickers(catalog) {
      var i :| 0 <= i < |catalog| && catalog[i].ticker == t;
      assert Mark(catalog[i].ticker) in MarkedTickers(catalog);
    }
  }

  /** Some space-separated word of `name` is one of `formatted`. */
  predicate TickerPresent(name: string, formatted: set<string>)
  {
    exists w :: w in Split(name) && w in formatted
  }

  /** `check_ticker_presence(name, formatted_tickers)`. */
  method CheckTickerPresence(name: string, formattedTickers: set<string>) returns (present: bool)
    ensures present == TickerPresent(name, formattedTickers)
  {
    var words := Split(name);
    for i := 0 to |words|
      invariant forall j :: 0 <= j < i ==> words[j] !in formattedTickers
    {
      if words[i] in formattedTickers {
        return true;
      }
    }
    return false;
  }
}
