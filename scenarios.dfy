/**
 * Worked cases of the matcher and of the header pass on the headline
 * "Apple reports record profit", each proved from the model's general lemmas.
 */
module Scenarios {
  import opened Wrappers
  import opened PythonStrings
  import opened TickerMatcher
  import opened HeaderParser

  /** The tagger output for the headline, with "Apple" tagged ORGANIZATION. */
  const AppleTokens: seq<Entry> := [Entry("Apple", "ORGANIZATION"), Entry("reports", "O"), Entry("record", "O"), Entry("profit", "O")]
  const AppleCatalog: Catalog := [Listing("Apple Inc", "AAPL")]

  /** "Apple" is found in the company name "Apple Inc". */
  lemma AppleTicker()
    ensures IsSubstring(Lower("Apple"), Lower("Apple Inc"))
    ensures GetTicker("Apple", AppleCatalog, 2) == Some("AAPL")
  {
    SplitWithoutSpace("Apple");
    assert IsPrefix("Apple", "Apple Inc");
    LowerPrefix("Apple", "Apple Inc");
    assert IsSubstring(Lower("Apple"), Lower("Apple Inc"));
    WholeNameFirst("Apple", AppleCatalog, 2, 0);
  }

  /** Case does not matter: lower-case "apple" is found in "Apple Inc" too. */
  lemma LowerCaseApple()
    ensures GetTicker("apple", AppleCatalog, 2) == Some("AAPL")
  {
    SplitWithoutSpace("apple");
    assert IsPrefix("Apple", "Apple Inc");
    LowerPrefix("Apple", "Apple Inc");
    assert Lower("apple") == Lower("Apple");
    WholeNameFirst("apple", AppleCatalog, 2, 0);
  }

  /** A phrase that is already a ticker matches by the equality test. */
  lemma TickerItself()
    ensures !IsSubstring(Lower("AAPL"), Lower("Apple Inc"))
    ensures GetTicker("AAPL", AppleCatalog, 2) == Some("AAPL")
  {
    NotInAppleInc();
    SplitWithoutSpace("AAPL");
    WholeNameFirst("AAPL", AppleCatalog, 2, 0);
  }

  /** "aapl" occurs nowhere in "apple inc": no window of four letters of it is "aapl". */
  lemma NotInAppleInc()
    ensures !IsSubstring(Lower("AAPL"), Lower("Apple Inc"))
  {
    var p, s := Lower("AAPL"), Lower("Apple Inc");
    assert p[1] == 'a';
    assert forall j :: 1 <= j < |s| ==> s[j] != 'a';
    forall i | 0 <= i <= |s| - |p|
      ensures !OccursAt(p, s, i)
    {
      assert s[i..i + |p|][1] == s[i + 1];
    }
    IsSubstringAt(p, s);
  }

  /** "Apple" alone forms an ORGANIZATION group; the other tokens are kept. */
  lemma AppleGrouped()
    ensures Group(AppleTokens) == [Entry("Apple", Organization)] + AppleTokens[1..]
  {
    var t := AppleTokens;
    assert t[1..][1..] == t[2..] && t[2..][1..] == t[3..] && t[3..][1..] == [];
    assert Join(["Apple"]) == "Apple";
    assert GroupFrom(t[3..], []) == [t[3]];
    assert GroupFrom(t[2..], []) == [t[2], t[3]];
    assert GroupFrom(t[1..], ["Apple"]) == [Entry("Apple", Organization)] + t[1..];
  }

  /** The substituted headline holds a marked ticker that `check_ticker_presence` finds. */
  lemma AppleDetected()
    ensures TickerPresent("__AAPL reports record profit", MarkedTickers(AppleCatalog))
  {
    var ws := ["__AAPL", "reports", "record", "profit"];
    assert Join(ws) == "__AAPL reports record profit";
    PieceOfJoin(ws, 0);
    assert Mark(AppleCatalog[0].ticker) == "__AAPL";
  }
}
