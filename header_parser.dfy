/**
 * `parse_header` once the tagger has run: group runs of company-like tokens
 * into single ORGANIZATION entries, replace each entry that names a known
 * company by its marked ticker, and join the entries back into one string.
 *
 * `Group` is a reference definition of the grouping that reads the tokens
 * left to right carrying the run in progress; `GroupEntities` is the
 * lookahead loop of the source, proved equal to it.
 */
module HeaderParser {
  import opened Wrappers
  import opened PythonStrings
  import opened TickerMatcher

  /** One `[text, label]` pair: a tagged token, or an entry of `parsed_words`. */
  datatype Entry = Entry(text: string, tag: string)

  const Organization: string := "ORGANIZATION"
  const Person: string := "PERSON"

  /** `COMPANY_TYPES`: the labels that are grouped. */
  const CompanyTypes: set<string> := {Person, Organization}

  predicate IsCompany(e: Entry)
  {
    e.tag in CompanyTypes
  }

  /** The entries' texts, in order. */
  function Texts(es: seq<Entry>): seq<string>
  {
    seq(|es|, i requires 0 <= i < |es| => es[i].text)
  }

  /** The output line: the entries' texts joined by single spaces. */
  function JoinTexts(es: seq<Entry>): string
  {
    Join(Texts(es))
  }

  /** The entry that closes a pending run: nothing for an empty run, otherwise
      one ORGANIZATION entry holding the run's words joined by spaces. */
  function Flush(run: seq<string>): (r: seq<Entry>)
    ensures |r| <= 1
    ensures forall e :: e in r ==> e.tag == Organization
  {
    if |run| == 0 then [] else [Entry(Join(run), Organization)]
  }

  /** Run grouping by a reference definition that reads the tokens left to
      right, carrying the words of the company-like run in progress: a
      company-like token extends the run, any other token closes it and is
      kept as it is. */
  function GroupFrom(tokens: seq<Entry>, run: seq<string>): (r: seq<Entry>)
    ensures |r| == 0 <==> |tokens| == 0 && |run| == 0
    decreases |tokens|
  {
    if |tokens| == 0 then Flush(run)
    else if IsCompany(tokens[0]) then GroupFrom(tokens[1..], run + [tokens[0].text])
    else Flush(run) + [tokens[0]] + GroupFrom(tokens[1..], [])
  }

  /** The grouping of a whole tagged line. */
  function Group(tokens: seq<Entry>): (r: seq<Entry>)
    ensures |r| == 0 <==> |tokens| == 0
  {
    GroupFrom(tokens, [])
  }

  /** The label a token carries after grouping: PERSON becomes ORGANIZATION. */
  function Collapse(tokens: seq<Entry>): (r: seq<Entry>)
    ensures Texts(r) == Texts(tokens)
    ensures forall i :: 0 <= i < |r| ==> r[i].tag != Person
    ensures forall i :: 0 <= i < |r| ==> (r[i].tag == Organization <==> IsCompany(tokens[i]))
  {
    seq(|tokens|, i requires 0 <= i < |tokens| =>
      if IsCompany(tokens[i]) then Entry(tokens[i].text, Organization) else tokens[i])
  }

  /** Undo grouping: split every ORGANIZATION entry into its words, each an ORGANIZATION token. */
  function Ungroup(es: seq<Entry>): seq<Entry>
    decreases |es|
  {
    if |es| == 0 then []
    else if es[0].tag == Organization then Labelled(Split(es[0].text)) + Ungroup(es[1..])
    else [es[0]] + Ungroup(es[1..])
  }

  /** The words, each as an ORGANIZATION token. */
  function Labelled(ws: seq<string>): (r: seq<Entry>)
    ensures Texts(r) == ws
    ensures forall e :: e in r ==> e.tag == Organization
  {
    seq(|ws|, i requires 0 <= i < |ws| => Entry(ws[i], Organization))
  }

  /** No two neighbouring entries are both ORGANIZATION: every run was taken whole. */
  predicate RunsAreMaximal(es: seq<Entry>)
  {
    forall i :: 0 <= i < |es| - 1 ==> !(es[i].tag == Organization && es[i + 1].tag == Organization)
  }

  predicate TokensWithoutSpaces(tokens: seq<Entry>)
  {
    forall i :: 0 <= i < |tokens| ==> Space !in tokens[i].text
  }

  /** A token that is not company-like closes the run in progress. */
  lemma GroupFromClose(tokens: seq<Entry>, run: seq<string>)
    requires |tokens| == 0 || !IsCompany(tokens[0])
    ensures GroupFrom(tokens, run) == Flush(run) + Group(tokens)
  {
    if |tokens| == 0 {
      assert Flush(run) + [] == Flush(run);
    } else {
      assert Group(tokens) == [tokens[0]] + GroupFrom(tokens[1..], []);
    }
  }

  /** A company-like token at `j` joins the run in progress. */
  lemma GroupFromExtend(tokens: seq<Entry>, j: nat, run: seq<string>)
    requires j < |tokens| && IsCompany(tokens[j])
    ensures GroupFrom(tokens[j..], run) == GroupFrom(tokens[j + 1..], run + [tokens[j].text])
  {
    assert tokens[j..][1..] == tokens[j + 1..];
  }

  /** A token at `j` that is not company-like is kept as it is. */
  lemma GroupFromKeep(tokens: seq<Entry>, j: nat)
    requires j < |tokens| && !IsCompany(tokens[j])
    ensures Group(tokens[j..]) == [tokens[j]] + Group(tokens[j + 1..])
  {
    assert tokens[j..][1..] == tokens[j + 1..];
  }

  lemma TextsCons(e: Entry, es: seq<Entry>)
    ensures Texts([e] + es) == [e.text] + Texts(es)
  {
  }

  lemma TextsAppend(a: seq<Entry>, b: seq<Entry>)
    ensures Texts(a + b) == Texts(a) + Texts(b)
  {
  }

  /** The texts around a kept token. */
  lemma TextsAroundKept(f: seq<Entry>, t0: Entry, rest: seq<Entry>)
    ensures Texts(f + [t0] + rest) == Texts(f) + ([t0.text] + Texts(rest))
  {
    TextsAppend(f + [t0], rest);
    TextsAppend(f, [t0]);
  }

  /** The line with the first token moved onto the run in progress. */
  lemma JoinExtend(tokens: seq<Entry>, run: seq<string>)
    requires |tokens| > 0
    ensures Join(run + [tokens[0].text] + Texts(tokens[1..])) == Join(run + Texts(tokens))
  {
    assert run + [tokens[0].text] + Texts(tokens[1..]) == run + Texts(tokens);
  }

  /** The line of the entry that closes a run is the run's words joined. */
  lemma JoinFlush(run: seq<string>)
    ensures JoinTexts(Flush(run)) == Join(run)
  {
    if |run| > 0 {
      assert Texts(Flush(run)) == [Join(run)];
    }
  }

  /** Grouping with a pending run keeps the line: the groups joined are the run's
      words and the tokens' texts joined. */
  lemma {:induction false} GroupFromKeepsLine(tokens: seq<Entry>, run: seq<string>)
    ensures JoinTexts(GroupFrom(tokens, run)) == Join(run + Texts(tokens))
    decreases |tokens|
  {
    if |tokens| == 0 {
      assert run + Texts(tokens) == run;
      JoinFlush(run);
    } else {
      var t0, tail := tokens[0], tokens[1..];
      assert Texts(tokens) == [t0.text] + Texts(tail) by {
        assert tokens == [t0] + tail;
        TextsCons(t0, tail);
      }
      if IsCompany(t0) {
        GroupFromKeepsLine(tail, run + [t0.text]);
        assert GroupFrom(tokens, run) == GroupFrom(tail, run + [t0.text]);
        JoinExtend(tokens, run);
      } else {
        GroupFromKeepsLine(tail, []);
        assert [] + Texts(tail) == Texts(tail);
        JoinFlush(run);
        var f, rest := Flush(run), GroupFrom(tail, []);
        assert GroupFrom(tokens, run) == f + [t0] + rest;
        TextsAroundKept(f, t0, rest);
        JoinAroundPiece(Texts(f), run, t0.text, Texts(rest), Texts(tail));
      }
    }
  }

  /** Grouping keeps the output line: joining the groups gives the tokens joined. */
  lemma GroupKeepsLine(tokens: seq<Entry>)
    ensures JoinTexts(Group(tokens)) == Join(Texts(tokens))
  {
    GroupFromKeepsLine(tokens, []);
    assert [] + Texts(tokens) == Texts(tokens);
  }

  /** Splitting the groups' texts on spaces gives the token texts back, in order. */
  lemma GroupKeepsWords(tokens: seq<Entry>)
    requires TokensWithoutSpaces(tokens)
    ensures SplitAll(Texts(Group(tokens))) == Texts(tokens)
  {
    if |tokens| > 0 {
      GroupKeepsLine(tokens);
      SplitJoin(Texts(Group(tokens)));
      SplitJoin(Texts(tokens));
      SplitAllWithoutSpaces(Texts(tokens));
    }
  }

  lemma {:induction false} UngroupAppend(a: seq<Entry>, b: seq<Entry>)
    ensures Ungroup(a + b) == Ungroup(a) + Ungroup(b)
    decreases |a|
  {
    if |a| > 0 {
      assert (a + b)[0] == a[0];
      assert (a + b)[1..] == a[1..] + b;
      UngroupAppend(a[1..], b);
    } else {
      assert a + b == b;
    }
  }

  /** Expanding the entry that closes a run gives the run's words back. */
  lemma UngroupFlush(run: seq<string>)
    requires NoSpaces(run)
    ensures Ungroup(Flush(run)) == Labelled(run)
  {
    if |run| > 0 {
      SplitJoin(run);
      SplitAllWithoutSpaces(run);
      assert Ungroup(Flush(run)) == Labelled(Split(Join(run))) + Ungroup([]);
    }
  }

  /** Expanding a closed run, a kept token and the groups after them. */
  lemma UngroupAfterClose(f: seq<Entry>, run: seq<string>, t0: Entry, rest: seq<Entry>, tail: seq<Entry>)
    requires !IsCompany(t0)
    requires Ungroup(f) == Labelled(run) && Ungroup(rest) == Collapse(tail)
    ensures Ungroup(f + [t0] + rest) == Labelled(run) + Collapse([t0] + tail)
  {
    UngroupAppend(f + [t0], rest);
    UngroupAppend(f, [t0]);
    assert Ungroup([t0]) == [t0] + Ungroup([]);
    assert Collapse([t0] + tail) == [t0] + Collapse(tail);
  }

  /** One more company-like token of a run. */
  lemma UngroupAfterExtend(run: seq<string>, t0: Entry, tail: seq<Entry>)
    requires IsCompany(t0)
    ensures Labelled(run + [t0.text]) + Collapse(tail) == Labelled(run) + Collapse([t0] + tail)
  {
    assert Labelled(run + [t0.text]) == Labelled(run) + [Entry(t0.text, Organization)];
    assert Collapse([t0] + tail) == [Entry(t0.text, Organization)] + Collapse(tail);
  }

  /** Grouping with a pending run only collapses runs: expanding the groups gives
      the run's words, then the tokens with PERSON relabelled ORGANIZATION. */
  lemma {:induction false} GroupFromUngroup(tokens: seq<Entry>, run: seq<string>)
    requires TokensWithoutSpaces(tokens) && NoSpaces(run)
    ensures Ungroup(GroupFrom(tokens, run)) == Labelled(run) + Collapse(tokens)
    decreases |tokens|
  {
    if |tokens| == 0 {
      UngroupFlush(run);
      assert Labelled(run) + Collapse(tokens) == Labelled(run);
    } else {
      var t0, tail := tokens[0], tokens[1..];
      assert tokens == [t0] + tail;
      assert TokensWithoutSpaces(tail);
      if IsCompany(t0) {
        var run' := run + [t0.text];
        assert NoSpaces(run');
        GroupFromUngroup(tail, run');
        UngroupAfterExtend(run, t0, tail);
      } else {
        GroupFromUngroup(tail, []);
        assert Labelled([]) + Collapse(tail) == Collapse(tail);
        UngroupFlush(run);
        UngroupAfterClose(Flush(run), run, t0, GroupFrom(tail, []), tail);
      }
    }
  }

  /** Grouping only collapses runs: expanding every ORGANIZATION entry into its
      words gives back the tokens, with PERSON relabelled ORGANIZATION. */
  lemma UngroupGroup(tokens: seq<Entry>)
    requires TokensWithoutSpaces(tokens)
    ensures Ungroup(Group(tokens)) == Collapse(tokens)
  {
    GroupFromUngroup(tokens, []);
    assert Labelled([]) + Collapse(tokens) == Collapse(tokens);
  }

  lemma {:induction false} GroupFromRunsAreMaximal(tokens: seq<Entry>, run: seq<string>)
    ensures RunsAreMaximal(GroupFrom(tokens, run))
    decreases |tokens|
  {
    if |tokens| > 0 {
      var t0, tail := tokens[0], tokens[1..];
      if IsCompany(t0) {
        GroupFromRunsAreMaximal(tail, run + [t0.text]);
      } else {
        var rest := GroupFrom(tail, []);
        GroupFromRunsAreMaximal(tail, []);
        var f := Flush(run);
        var g := f + [t0] + rest;
        assert g[|f|] == t0 && t0.tag != Organization;
        assert forall i :: |f| < i < |g| ==> g[i] == rest[i - |f| - 1];
      }
    }
  }

  /** Grouping takes every run whole: no two neighbouring groups are ORGANIZATION. */
  lemma GroupRunsAreMaximal(tokens: seq<Entry>)
    ensures RunsAreMaximal(Group(tokens))
  {
    GroupFromRunsAreMaximal(tokens, []);
  }

  lemma {:induction false} GroupFromLabels(tokens: seq<Entry>, run: seq<string>)
    ensures forall e :: e in GroupFrom(tokens, run) ==> e.tag == Organization || e.tag !in CompanyTypes
    decreases |tokens|
  {
    if |tokens| > 0 {
      if IsCompany(tokens[0]) {
        GroupFromLabels(tokens[1..], run + [tokens[0].text]);
      } else {
        GroupFromLabels(tokens[1..], []);
      }
    }
  }

  /** Every group is either an ORGANIZATION entry or a token that is not company-like. */
  lemma GroupLabels(tokens: seq<Entry>)
    ensures forall e :: e in Group(tokens) ==> e.tag == Organization || e.tag !in CompanyTypes
  {
    GroupFromLabels(tokens, []);
  }

  /** Moving the first group of the rest onto the groups already emitted. */
  lemma AppendShift(done: seq<Entry>, x: Entry, g: seq<Entry>, h: seq<Entry>, whole: seq<Entry>)
    requires done + g == whole && g == [x] + h
    ensures (done + [x]) + h == whole
  {
    assert (done + [x]) + h == done + ([x] + h);
  }

  /** The grouping loop of `parse_header`: one pass over the tagged tokens with a
      lookahead index that collects each run of company-like labels. */
  method GroupEntities(classifiedText: seq<Entry>) returns (parsedWords: seq<Entry>)
    ensures parsedWords == Group(classifiedText)
  {
    parsedWords := [];
    var i := 0;
    while i < |classifiedText|
      invariant 0 <= i <= |classifiedText|
      invariant parsedWords + Group(classifiedText[i..]) == Group(classifiedText)
      decreases |classifiedText| - i
    {
      if IsCompany(classifiedText[i]) {
        var wordsToClassify := [classifiedText[i].text];
        var index := 1;
        GroupFromExtend(classifiedText, i, []);
        assert [] + wordsToClassify == wordsToClassify;
        while true
          invariant 1 <= index <= |classifiedText| - i
          invariant |wordsToClassify| == index
          invariant Group(classifiedText[i..]) == GroupFrom(classifiedText[i + index..], wordsToClassify)
          decreases |classifiedText| - i - index
        {
          if i + index >= |classifiedText| {
            break;
          }
          if !IsCompany(classifiedText[i + index]) {
            break;
          }
          GroupFromExtend(classifiedText, i + index, wordsToClassify);
          wordsToClassify := wordsToClassify + [classifiedText[i + index].text];
          index := index + 1;
        }
        GroupFromClose(classifiedText[i + index..], wordsToClassify);
        var completeOrganisation := Entry(Join(wordsToClassify), Organization);
        assert Flush(wordsToClassify) == [completeOrganisation];
        AppendShift(parsedWords, completeOrganisation, Group(classifiedText[i..]), Group(classifiedText[i + index..]), Group(classifiedText));
        parsedWords := parsedWords + [completeOrganisation];
        i := i + index;
      } else {
        GroupFromKeep(classifiedText, i);
        AppendShift(parsedWords, classifiedText[i], Group(classifiedText[i..]), Group(classifiedText[i + 1..]), Group(classifiedText));
        parsedWords := parsedWords + [classifiedText[i]];
        i := i + 1;
      }
    }
  }

  /** What the substitution loop makes of one entry. */
  function Substitute(e: Entry, catalog: Catalog, maxWords: int): (r: Entry)
    ensures r.tag == e.tag
    ensures r != e ==> e.tag == Organization && GetTicker(e.text, catalog, maxWords).Some?
  {
    if e.tag == Organization && GetTicker(e.text, catalog, maxWords).Some? then
      Entry(Mark(GetTicker(e.text, catalog, maxWords).value), e.tag)
    else e
  }

  function SubstituteAll(es: seq<Entry>, catalog: Catalog, maxWords: int): (r: seq<Entry>)
    ensures |r| == |es|
    ensures forall i :: 0 <= i < |es| ==> r[i].tag == es[i].tag
    ensures forall i :: 0 <= i < |es| && es[i].tag != Organization ==> r[i] == es[i]
  {
    seq(|es|, i requires 0 <= i < |es| => Substitute(es[i], catalog, maxWords))
  }

  /** The substitution loop: each ORGANIZATION entry for which `get_ticker` finds a
      ticker gets `"__" + ticker` as its text; every other entry stays as it is. */
  method SubstituteTickers(parsed: seq<Entry>, catalog: Catalog, maxWords: int) returns (parsedWords: seq<Entry>)
    ensures |parsedWords| == |parsed|
    ensures forall i :: 0 <= i < |parsed| ==> parsedWords[i].tag == parsed[i].tag
    ensures forall i :: 0 <= i < |parsed| ==>
              if parsed[i].tag == Organization && GetTicker(parsed[i].text, catalog, maxWords).Some?
              then parsedWords[i].text == Mark(GetTicker(parsed[i].text, catalog, maxWords).value)
              else parsedWords[i] == parsed[i]
  {
    parsedWords := parsed;
    for i := 0 to |parsedWords|
      invariant |parsedWords| == |parsed|
      invariant forall j :: 0 <= j < i ==> parsedWords[j] == Substitute(parsed[j], catalog, maxWords)
      invariant forall j :: i <= j < |parsed| ==> parsedWords[j] == parsed[j]
    {
      var word, classification := parsedWords[i].text, parsedWords[i].tag;
      if classification == Organization {
        var ticker := FindTicker(word, catalog, maxWords);
        if ticker.Some? {
          parsedWords := parsedWords[i := Entry(Mark(ticker.value), classification)];
        }
      }
    }
  }

  /** `parse_header` after tagging; `None` for the tagging itself stands for the
      `OSError` that makes the source return `None`. */
  function ParseTagged(classified: Option<seq<Entry>>, catalog: Catalog, maxWords: int): (r: Option<string>)
    ensures classified.None? <==> r.None?
  {
    match classified
    case None => None
    case Some(tokens) => Some(JoinTexts(SubstituteAll(Group(tokens), catalog, maxWords)))
  }

  /** `parse_header` as written, from the tagger output on. */
  method ParseHeader(classified: Option<seq<Entry>>, catalog: Catalog, maxCompanyNameLength: int) returns (r: Option<string>)
    ensures classified.None? <==> r.None?
    ensures r == ParseTagged(classified, catalog, maxCompanyNameLength)
  {
    if classified.None? {
      return None;
    }
    var parsedWords := GroupEntities(classified.value);
    parsedWords := SubstituteTickers(parsedWords, catalog, maxCompanyNameLength);
    assert parsedWords == SubstituteAll(Group(classified.value), catalog, maxCompanyNameLength);
    return Some(JoinTexts(parsedWords));
  }

  /** With nothing to substitute (for instance an empty catalog), the line is the tokens joined. */
  lemma NoMatchKeepsLine(tokens: seq<Entry>, catalog: Catalog, maxWords: int)
    requires forall e :: e in Group(tokens) && e.tag == Organization ==> GetTicker(e.text, catalog, maxWords).None?
    ensures ParseTagged(Some(tokens), catalog, maxWords) == Some(Join(Texts(tokens)))
  {
    var g := Group(tokens);
    assert SubstituteAll(g, catalog, maxWords) == g;
    GroupKeepsLine(tokens);
  }

  /** A substitution is always detected: when some group was replaced by its
      marked ticker, `check_ticker_presence` on the output line finds a
      marked ticker (tickers hold no spaces). */
  lemma SubstitutionIsDetected(tokens: seq<Entry>, catalog: Catalog, maxWords: int, i: nat)
    requires forall j :: 0 <= j < |catalog| ==> Space !in catalog[j].ticker
    requires i < |Group(tokens)|
    requires Group(tokens)[i].tag == Organization
    requires GetTicker(Group(tokens)[i].text, catalog, maxWords).Some?
    ensures TickerPresent(ParseTagged(Some(tokens), catalog, maxWords).value, MarkedTickers(catalog))
  {
    var g := Group(tokens);
    var out := SubstituteAll(g, catalog, maxWords);
    var t := GetTicker(g[i].text, catalog, maxWords).value;
    MarkedTickersIff(catalog, t);
    var texts := Texts(out);
    assert texts[i] == Mark(t);
    assert Space !in t;
    PieceOfJoin(texts, i);
  }
}
