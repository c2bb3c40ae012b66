/**
 * The few Python `str` operations the headline annotator relies on:
 * `s.split(' ')`, `' '.join(ws)`, `s.lower()` (restricted to ASCII) and the
 * substring test `p in s`.
 */
module PythonStrings {

  const Space: char := ' '

  /** The pieces of `s`, the first of them continuing `piece`. */
  function SplitFrom(s: string, piece: string): (r: seq<string>)
    ensures |r| >= 1
    decreases |s|
  {
    if |s| == 0 then [piece]
    else if s[0] == Space then [piece] + SplitFrom(s[1..], "")
    else SplitFrom(s[1..], piece + [s[0]])
  }

  /** `s.split(' ')`: split on every single space, keeping empty pieces. */
  function Split(s: string): (r: seq<string>)
    ensures |r| >= 1
  {
    SplitFrom(s, "")
  }

  /** `' '.join(ws)`: the pieces with one space between neighbours. */
  function Join(ws: seq<string>): string
    decreases |ws|
  {
    if |ws| == 0 then ""
    else if |ws| == 1 then ws[0]
    else ws[0] + [Space] + Join(ws[1..])
  }

  /** The pieces of every string of `ws` in turn: `[p for w in ws for p in w.split(' ')]`. */
  function SplitAll(ws: seq<string>): seq<string>
    decreases |ws|
  {
    if |ws| == 0 then [] else Split(ws[0]) + SplitAll(ws[1..])
  }

  predicate NoSpaces(ws: seq<string>)
  {
    forall i :: 0 <= i < |ws| ==> Space !in ws[i]
  }

  lemma {:induction false} SplitFromPiecesHaveNoSpace(s: string, piece: string)
    requires Space !in piece
    ensures NoSpaces(SplitFrom(s, piece))
    decreases |s|
  {
    if |s| > 0 {
      if s[0] == Space {
        SplitFromPiecesHaveNoSpace(s[1..], "");
      } else {
        SplitFromPiecesHaveNoSpace(s[1..], piece + [s[0]]);
      }
    }
  }

  /** No piece of a split holds a space. */
  lemma SplitPiecesHaveNoSpace(s: string)
    ensures NoSpaces(Split(s))
  {
    SplitFromPiecesHaveNoSpace(s, "");
  }

  lemma {:induction false} JoinSplitFrom(s: string, piece: string)
    ensures Join(SplitFrom(s, piece)) == piece + s
    decreases |s|
  {
    if |s| > 0 {
      if s[0] == Space {
        JoinSplitFrom(s[1..], "");
      } else {
        JoinSplitFrom(s[1..], piece + [s[0]]);
      }
      assert piece + s == piece + [s[0]] + s[1..];
    }
  }

  /** Splitting and joining again gives the string back. */
  lemma JoinSplit(s: string)
    ensures Join(Split(s)) == s
  {
    JoinSplitFrom(s, "");
    assert "" + s == s;
  }

  lemma {:induction false} SplitFromWithoutSpace(s: string, piece: string)
    requires Space !in s
    ensures SplitFrom(s, piece) == [piece + s]
    decreases |s|
  {
    if |s| > 0 {
      assert Space !in s[1..];
      SplitFromWithoutSpace(s[1..], piece + [s[0]]);
      assert piece + [s[0]] + s[1..] == piece + s;
    } else {
      assert piece + s == piece;
    }
  }

  /** A string without a space is a single piece. */
  lemma SplitWithoutSpace(s: string)
    requires Space !in s
    ensures Split(s) == [s]
  {
    SplitFromWithoutSpace(s, "");
    assert "" + s == s;
  }

  lemma {:induction false} SplitFromAroundSpace(a: string, b: string, piece: string)
    ensures SplitFrom(a + [Space] + b, piece) == SplitFrom(a, piece) + Split(b)
    decreases |a|
  {
    var x := a + [Space] + b;
    if |a| == 0 {
      assert x[0] == Space && x[1..] == b;
    } else {
      assert x[0] == a[0] && x[1..] == a[1..] + [Space] + b;
      if a[0] == Space {
        SplitFromAroundSpace(a[1..], b, "");
      } else {
        SplitFromAroundSpace(a[1..], b, piece + [a[0]]);
      }
    }
  }

  /** A space splits a string into the pieces of its two sides. */
  lemma SplitAroundSpace(a: string, b: string)
    ensures Split(a + [Space] + b) == Split(a) + Split(b)
  {
    SplitFromAroundSpace(a, b, "");
  }

  /** Splitting a join gives the pieces of every joined string, in order. */
  lemma {:induction false} SplitJoin(ws: seq<string>)
    requires |ws| >= 1
    ensures Split(Join(ws)) == SplitAll(ws)
    decreases |ws|
  {
    if |ws| == 1 {
      assert SplitAll(ws[1..]) == [];
    } else {
      SplitJoin(ws[1..]);
      SplitAroundSpace(ws[0], Join(ws[1..]));
    }
  }

  /** When no piece holds a space, `Split` undoes `Join`. */
  lemma {:induction false} SplitAllWithoutSpaces(ws: seq<string>)
    requires NoSpaces(ws)
    ensures SplitAll(ws) == ws
    decreases |ws|
  {
    if |ws| > 0 {
      SplitWithoutSpace(ws[0]);
      SplitAllWithoutSpaces(ws[1..]);
      assert ws == [ws[0]] + ws[1..];
    }
  }

  /** Joining two lists is joining each, with a space between when both are non-empty. */
  lemma {:induction false} JoinAppend(a: seq<string>, b: seq<string>)
    ensures Join(a + b) == if |a| == 0 then Join(b) else if |b| == 0 then Join(a) else Join(a) + [Space] + Join(b)
    decreases |a|
  {
    if |a| == 0 {
      assert a + b == b;
    } else if |b| == 0 {
      assert a + b == a;
    } else {
      assert (a + b)[0] == a[0];
      assert (a + b)[1..] == a[1..] + b;
      JoinAppend(a[1..], b);
    }
  }

  /** Joins that agree, and are empty together, stay equal when concatenated. */
  lemma JoinCongruent(a: seq<string>, b: seq<string>, c: seq<string>, d: seq<string>)
    requires Join(a) == Join(c) && (|a| == 0 <==> |c| == 0)
    requires Join(b) == Join(d) && (|b| == 0 <==> |d| == 0)
    ensures Join(a + b) == Join(c + d)
  {
    JoinAppend(a, b);
    JoinAppend(c, d);
  }

  /** Equal joins on both sides of one piece give equal joins. */
  lemma JoinAroundPiece(a: seq<string>, c: seq<string>, w: string, b: seq<string>, d: seq<string>)
    requires Join(a) == Join(c) && (|a| == 0 <==> |c| == 0)
    requires Join(b) == Join(d) && (|b| == 0 <==> |d| == 0)
    ensures Join(a + ([w] + b)) == Join(c + ([w] + d))
  {
    JoinCongruent([w], b, [w], d);
    JoinCongruent(a, [w] + b, c, [w] + d);
  }

  /** A joined string without spaces comes back as one of the pieces of the split. */
  lemma {:induction false} PieceOfJoin(ws: seq<string>, i: nat)
    requires i < |ws| && Space !in ws[i]
    ensures ws[i] in Split(Join(ws))
    decreases |ws|
  {
    if |ws| == 1 {
      SplitWithoutSpace(ws[0]);
    } else {
      SplitAroundSpace(ws[0], Join(ws[1..]));
      if i == 0 {
        SplitWithoutSpace(ws[0]);
      } else {
        PieceOfJoin(ws[1..], i - 1);
      }
    }
  }

  predicate IsUpper(c: char)
  {
    'A' <= c <= 'Z'
  }

  /** `c.lower()` for ASCII letters; every other character is left alone. */
  function LowerChar(c: char): (r: char)
    ensures !IsUpper(r)
    ensures IsUpper(c) ==> r as int == c as int + 32
    ensures !IsUpper(c) ==> r == c
  {
    if IsUpper(c) then (c as int + 32) as char else c
  }

  /** `s.lower()`, ASCII only. */
  function Lower(s: string): (r: string)
    ensures |r| == |s|
    ensures forall i :: 0 <= i < |s| ==> r[i] == LowerChar(s[i])
    decreases |s|
  {
    if |s| == 0 then "" else [LowerChar(s[0])] + Lower(s[1..])
  }

  /** `p` is the beginning of `s`. */
  predicate IsPrefix(p: string, s: string)
  {
    |p| <= |s| && s[..|p|] == p
  }

  /** Lower-casing keeps a prefix a prefix. */
  lemma LowerPrefix(p: string, s: string)
    requires IsPrefix(p, s)
    ensures IsPrefix(Lower(p), Lower(s))
  {
    assert forall i :: 0 <= i < |p| ==> Lower(s)[i] == LowerChar(p[i]);
  }

  /** Python's `p in s` on strings: `p` occurs somewhere in `s`. */
  predicate IsSubstring(p: string, s: string)
    decreases |s|
  {
    IsPrefix(p, s) || (|s| > 0 && IsSubstring(p, s[1..]))
  }

  /** `p` occurs in `s` starting at index `i`. */
  predicate OccursAt(p: string, s: string, i: int)
  {
    0 <= i <= |s| - |p| && s[i..i + |p|] == p
  }

  /** The substring test holds exactly when `p` occurs at some index of `s` (so `"" in s` always). */
  lemma {:induction false} IsSubstringAt(p: string, s: string)
    ensures IsSubstring(p, s) <==> exists i :: OccursAt(p, s, i)
    decreases |s|
  {
    if IsPrefix(p, s) {
      assert OccursAt(p, s, 0);
    }
    if |s| > 0 {
      IsSubstringAt(p, s[1..]);
      if IsSubstring(p, s[1..]) {
        var i :| OccursAt(p, s[1..], i);
        assert s[1..][i..i + |p|] == s[i + 1..i + 1 + |p|];
        assert OccursAt(p, s, i + 1);
      }
      if j :| OccursAt(p, s, j) {
        if j > 0 {
          assert s[1..][j - 1..j - 1 + |p|] == s[j..j + |p|];
          assert OccursAt(p, s[1..], j - 1);
        } else {
          assert IsPrefix(p, s);
        }
      }
    } else if j :| OccursAt(p, s, j) {
      assert IsPrefix(p, s);
    }
  }

  /** A pattern longer than the text never occurs in it. */
  lemma {:induction false} SubstringNoLonger(p: string, s: string)
    requires IsSubstring(p, s)
    ensures |p| <= |s|
    decreases |s|
  {
    if !IsPrefix(p, s) {
      SubstringNoLonger(p, s[1..]);
    }
  }
}
