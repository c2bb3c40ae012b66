# Headline ticker annotation, modelled in Dafny

`headers_to_tickers.py` rewrites news headlines so that the companies they
name are replaced by their stock tickers. A named-entity tagger labels each
token of a headline. Runs of tokens labelled PERSON or ORGANIZATION are
grouped into one ORGANIZATION phrase. Each phrase is looked up in a
company-to-ticker dictionary by `get_ticker`, and a phrase that matches is
replaced by the ticker marked with a `__` prefix. `check_ticker_presence`
then tells whether the rewritten line holds a marked ticker.

The model has four modules:

- `Wrappers` (`wrappers.dfy`): Python's `None`-or-value as `Option`, and the
  "first search that finds something" combinator.
- `PythonStrings` (`python_strings.dfy`): `str.split(' ')`, `' '.join`,
  ASCII `str.lower()` and the substring test `p in s`, with their algebra.
- `TickerMatcher` (`ticker_matcher.dfy`): `get_ticker` and
  `check_ticker_presence`.
  - `get_ticker` is defined three ways, with lemmas connecting them: as
    specification functions, as the earliest hit in a lexicographic search
    order, and as the source's three nested loops with early returns
    (`FindTicker`).
  - The dictionary is a sequence of `(company, ticker)` listings in its
    iteration order.
- `HeaderParser` (`header_parser.dfy`): `parse_header` once the tagger has
  run.
  - The grouping loop with its lookahead index is a method (`GroupEntities`).
    It is proved equal to a run-length reference definition (`Group`), and
    the grouping properties are proved about that definition.
  - The in-place substitution loop is a method (`SubstituteTickers`).
  - The final join is part of `ParseHeader`.
  - The tagger's output is a parameter. `None` for it stands for the
    `OSError` that makes `parse_header` return `None`.

`Scenarios` (`scenarios.dfy`) proves single steps of the model on the
headline "Apple reports record profit": the lookup of "Apple", its grouping
and the detection of the marked ticker.

## Model

| member | source | states |
|---|---|---|
| TickerMatcher.GetTicker | headers_to_tickers.py:15-39 | A returned ticker is always one of the dictionary's tickers. The result is `None` when `max_words` is at most 0 (empty `range`) or the dictionary is empty. |
| TickerMatcher.FindTicker | headers_to_tickers.py:15-39 | The three nested loops, with their two early `return ticker` statements, compute exactly `GetTicker`. Windows are tried longest first, then leftmost start, then dictionary order. |
| TickerMatcher.GetTickerNoneIff | headers_to_tickers.py:27-39 | `get_ticker` returns `None` if and only if no window of 1 to `min(max_words, len(words))` words matches any listing, either as a case-insensitive substring of the company or as equal to the ticker. |
| TickerMatcher.GetTickerIsFirstHit | headers_to_tickers.py:27-37 | A returned ticker belongs to a matching window and listing that no other match precedes in the search order. |
| TickerMatcher.FirstHitDecidesTicker | headers_to_tickers.py:27-37 | Conversely, the earliest match in search order determines the returned ticker. |
| TickerMatcher.LongerWindowWins | headers_to_tickers.py:27-29 | If a window of `n` words matches, a ticker is returned, and it comes from a matching window of at least `n` words. |
| TickerMatcher.WholeNameFirst | headers_to_tickers.py:25-33 | A name of at most `max_words` words is tried whole first. So the first listing that the whole name matches decides the ticker, whatever shorter windows match before it. |
| TickerMatcher.WholeNameBeatsShorterListings | headers_to_tickers.py:27-37 | The longest-window policy: a name of at most `max_words` words gets the ticker of the first listing it matches whole. This holds even when listings come first whose company names are shorter than the name and whose tickers are of another length ("Bank of America" against an earlier "Bank"). |
| TickerMatcher.FindInCatalog | headers_to_tickers.py:30-37 | The `for company, ticker in tickers.items()` loop with its two `return ticker` statements, from listing `k` on. A `Some` result is one of the dictionary's tickers. `FindInCatalogFirst` proves it is the ticker of the first matching listing, and that `None` means no listing from `k` on matches. |
| TickerMatcher.ScanStarts | headers_to_tickers.py:28-37 | The `for index` loop over the windows of one size, from start `start` on. A `Some` result is one of the dictionary's tickers. `ScanStartsFirst` proves it comes from the first matching window in start order, and that `None` means no such window matches. |
| TickerMatcher.ScanSizes | headers_to_tickers.py:27-37 | The `for word_count in reversed(range(...))` loop, longest windows first. A `Some` result is one of the dictionary's tickers. `ScanSizesFirst` proves it comes from the first hit in size-then-start-then-listing order, and that `None` means no window of at most `size` words matches. |
| TickerMatcher.Window | headers_to_tickers.py:29 | `' '.join(company_words[index : index+word_count])`: the phrase tested in one step. |
| TickerMatcher.Matches | headers_to_tickers.py:32-37 | The two tests against one listing: the lower-cased phrase is a substring of the lower-cased company, or equals the lower-cased ticker. |
| TickerMatcher.ShorterNeverMatches | headers_to_tickers.py:32-37 | A phrase longer than a company name, and of a different length than its ticker, fails both tests against that listing. |
| TickerMatcher.Mark | headers_to_tickers.py:87 | `'__{}'.format(ticker)`. Marking a ticker without spaces gives a string without spaces, so the marked ticker stays one word of the output line. |
| TickerMatcher.MarkInjective | headers_to_tickers.py:87 | Two tickers with the same mark are the same ticker. |
| TickerMatcher.MarkedTickers | headers_to_tickers.py:101 | `formatted_tickers`: the marks of all the dict's tickers, here as a set. |
| TickerMatcher.MarkedTickersIff | headers_to_tickers.py:101 | A mark is one of `formatted_tickers` exactly when its ticker is one of the dict's tickers. |
| TickerMatcher.TickerPresent | headers_to_tickers.py:8-13 | `check_ticker_presence` as a predicate: some element of `name.split(' ')` is one of the marked tickers. `CheckTickerPresence` is proved equal to it. |
| TickerMatcher.CheckTickerPresence | headers_to_tickers.py:8-13 | The result is true exactly when some element of `name.split(' ')` is one of the marked tickers. |
| HeaderParser.Flush | headers_to_tickers.py:73-74 | `complete_organisation = [' '.join(words_to_classify), 'ORGANIZATION']` for a pending run, and nothing when no run is pending. It gives at most one entry, and every entry is ORGANIZATION. `JoinFlush` proves the entry's text is the run's words joined. |
| HeaderParser.JoinTexts | headers_to_tickers.py:89 | `' '.join(x[0] for x in parsed_words)`: the entries' texts joined by single spaces. `ParseTagged` ends with it, and `GroupKeepsLine` is stated in terms of it. |
| HeaderParser.GroupFrom | headers_to_tickers.py:54-79 | The run-length reading of the grouping loop, carrying the words of the run in progress: a PERSON or ORGANIZATION token extends the run, and any other token closes it into one ORGANIZATION entry and is kept itself. The result is empty exactly when there are no tokens and no pending words. |
| HeaderParser.Group | headers_to_tickers.py:54-79 | The grouping of a whole tagged line, `GroupFrom` with no pending words. It is empty exactly when the tagging is empty. `GroupKeepsLine`, `GroupKeepsWords`, `UngroupGroup`, `GroupRunsAreMaximal` and `GroupLabels` state its properties. |
| HeaderParser.GroupEntities | headers_to_tickers.py:50-79 | The outer `while i < len` loop and the inner `while True` lookahead loop produce exactly the run-length grouping `Group` of the tagged tokens. |
| HeaderParser.GroupKeepsLine | headers_to_tickers.py:54-79 | Grouping never changes the line: joining the groups' texts with spaces gives the tokens' texts joined with spaces. |
| HeaderParser.GroupKeepsWords | headers_to_tickers.py:59-74 | Splitting every group's text on spaces gives back the token texts, in order. |
| HeaderParser.UngroupGroup | headers_to_tickers.py:54-79 | Grouping only merges runs. Expanding every ORGANIZATION group into its words gives back the tokens, with PERSON and ORGANIZATION tokens relabelled ORGANIZATION and every other token unchanged. |
| HeaderParser.GroupRunsAreMaximal | headers_to_tickers.py:61-68 | Every run is taken whole: no two neighbouring groups are both ORGANIZATION. |
| HeaderParser.GroupLabels | headers_to_tickers.py:73-78 | Every group is either an ORGANIZATION entry or a token whose label is not company-like. |
| HeaderParser.Substitute | headers_to_tickers.py:82-87 | One step of the substitution loop. The label is kept, and the entry changes only when it is ORGANIZATION and `get_ticker` returns a ticker. |
| HeaderParser.SubstituteAll | headers_to_tickers.py:81-87 | The whole substitution loop as a function. The entry count and every label are kept, and entries that are not ORGANIZATION are unchanged. |
| HeaderParser.SubstituteTickers | headers_to_tickers.py:81-87 | The entry count and every label are kept. An ORGANIZATION entry for which `get_ticker` returns a ticker gets `__` plus that ticker as its text. Every other entry is unchanged. |
| HeaderParser.ParseTagged | headers_to_tickers.py:41-89 | `parse_header` as a function of the tagger output: `None` exactly when tagging failed. Otherwise it is the joined line built from `Group` and the substitution. |
| HeaderParser.ParseHeader | headers_to_tickers.py:41-89 | The result is `None` exactly when tagging fails. Otherwise it is the grouped, substituted entries joined with single spaces. |
| HeaderParser.NoMatchKeepsLine | headers_to_tickers.py:81-89 | When no ORGANIZATION group has a ticker, the output line is the token texts joined with spaces. |
| HeaderParser.SubstitutionIsDetected | headers_to_tickers.py:81-89 | When some group was replaced by its marked ticker, `check_ticker_presence` on the output line finds a marked ticker. |
| PythonStrings.Split | headers_to_tickers.py:25 | `s.split(' ')`: split at every single space, keeping empty pieces. The result always has at least one piece (`''.split(' ') == ['']`). Its other properties are the lemmas below. |
| PythonStrings.Join | headers_to_tickers.py:89 | `' '.join(ws)`: the strings with one space between neighbours, and `''` for an empty list (also used at lines 29 and 73). Its properties are `JoinSplit`, `SplitJoin`, `JoinAppend` and `PieceOfJoin`. |
| PythonStrings.IsSubstring | headers_to_tickers.py:32 | Python's `p in s` on strings. `IsSubstringAt` characterizes it by occurrence at an index. |
| PythonStrings.JoinSplit | headers_to_tickers.py:25-29 | Joining the pieces of `s.split(' ')` with spaces gives `s` back. |
| PythonStrings.SplitWithoutSpace | headers_to_tickers.py:25 | A string without a space splits into the one-element list of itself. |
| PythonStrings.SplitAroundSpace | headers_to_tickers.py:25 | Splitting `a + ' ' + b` gives the pieces of `a` followed by the pieces of `b`. |
| PythonStrings.SplitPiecesHaveNoSpace | headers_to_tickers.py:9 | No piece of a split contains a space. |
| PythonStrings.SplitJoin | headers_to_tickers.py:89 | Splitting a non-empty join gives the pieces of every joined string, in order. |
| PythonStrings.SplitAllWithoutSpaces | headers_to_tickers.py:89 | When no joined string holds a space, splitting undoes joining. |
| PythonStrings.JoinAppend | headers_to_tickers.py:89 | Joining two lists is joining each, with one space between them when both are non-empty. |
| PythonStrings.PieceOfJoin | headers_to_tickers.py:89 | A string without spaces that was joined into a line is one of the pieces when that line is split. |
| PythonStrings.Lower | headers_to_tickers.py:32 | Lower-casing keeps the length and maps every character through the ASCII lower-case map. |
| PythonStrings.LowerChar | headers_to_tickers.py:32 | The result is never an upper-case letter. An upper-case ASCII letter becomes the character 32 code points higher, its lower-case form. Any other character is unchanged. |
| PythonStrings.LowerPrefix | headers_to_tickers.py:32 | Lower-casing keeps a prefix a prefix. |
| PythonStrings.IsSubstringAt | headers_to_tickers.py:32 | `p in s` holds exactly when `p` occurs in `s` at some index, so `'' in s` always holds. |
| PythonStrings.SubstringNoLonger | headers_to_tickers.py:32 | A substring is never longer than the string it occurs in. |
| Scenarios.AppleTicker | headers_to_tickers.py:15-39 | With the dictionary `{"Apple Inc": "AAPL"}` and `max_words` 2, `get_ticker("Apple")` returns `"AAPL"`, and the substring test at line 32 holds for "Apple" in "Apple Inc". |
| Scenarios.LowerCaseApple | headers_to_tickers.py:32-33 | The comparison ignores case: lower-case `get_ticker("apple")` also returns `"AAPL"` for the company `"Apple Inc"`. |
| Scenarios.TickerItself | headers_to_tickers.py:32-37 | `get_ticker("AAPL")` returns `"AAPL"`, and the substring test at line 32 fails for "AAPL" in "Apple Inc": the ticker-equality test at line 36 is the one that matches. |
| Scenarios.AppleGrouped | headers_to_tickers.py:54-79 | For the tagging `Apple/ORGANIZATION reports/O record/O profit/O`, "Apple" forms one ORGANIZATION group and the other tokens are kept. |
| Scenarios.AppleDetected | headers_to_tickers.py:8-13 | `check_ticker_presence` finds `__AAPL` in "__AAPL reports record profit". |

## Left out

- Tokenizing (line 43), Stanford NER tagging (line 46) and spaCy/textacy subject-verb-object extraction (line 144) are foreign libraries and models. The tagger's output is a parameter, and its `OSError` (lines 45-48) is a `None` parameter.
- JSON loading and dumping (lines 97-98, 106-107, 167-168), the progress printing (lines 124-126) and the `JAVAHOME` setup (line 94) are I/O and environment effects.
- The secondary subject/object pass (lines 140-164) is not modelled. Its inputs come from the SVO library. Its call `get_ticker(word)` at line 158 passes one argument where three are required, so it would raise `TypeError` if ever reached.
- `formatted_tickers` (line 101) is a generator, and `word in formatted_tickers` (line 10) consumes it up to the first equal item, or wholly when there is none. So only the first word tested in a whole run is tested against every marked ticker. A first word that is not a marked ticker exhausts the generator. So the first `check_ticker_presence` call (line 138) returns True only when its line's first word is a marked ticker. Later calls test only the items that remain. The model passes the marked tickers as a set and does not model this consumption.
- `max_company_name_length` (line 103) is the longest company name measured in characters, not in words as the docstring at line 21 says. The model keeps `max_words` an arbitrary integer and does not model that computation.
- The module globals `tickers` and `COMPANY_TYPES` (lines 92, 98) become a parameter and a constant.
- PythonStrings.Lower: only ASCII letters are lower-cased. Python's full Unicode case mapping is library behaviour.
- Within one listing, the substring test comes before the ticker-equality test. Both tests return the same ticker, so the order is not observable, and `Matches` is their disjunction. `FindTicker` keeps the two separate tests.
- HeaderParser.GroupKeepsWords: requires that no token text contain a space. The tokenizer does not produce such tokens, but the model does not derive this from the tokenizer.
- HeaderParser.UngroupGroup: requires that no token text contain a space, for the same reason.
- HeaderParser.SubstitutionIsDetected: requires that no ticker contain a space. A marked ticker with a space would be split apart at line 9 and never detected (see `PythonStrings.SplitPiecesHaveNoSpace`).
- A token that is not company-like keeps its own label (line 78). It is not relabelled OTHER.
- The whole run of `parse_header` on "Apple reports record profit" is not proved as one lemma. Its steps are proved in `Scenarios`: the lookup, the grouping and the detection.
- A concrete "Bank of America" instance of the longest-window policy is not proved. `TickerMatcher.WholeNameBeatsShorterListings` states that policy for all inputs.
