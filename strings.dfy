/** JavaScript string splitting and joining with a one-character separator,
    as the inventory script uses them: `split('/')`, `split(':')`, and the
    `a + ',' + b + ...` concatenations that build a report line. */
module Strings {

  /** `s.split(c)` in JavaScript: the pieces of `s` between occurrences of `c`.
      There is always at least one piece, and there is exactly one piece
      (the whole of `s`) when `s` holds no `c`. */
  function Split(s: string, c: char): (parts: seq<string>)
    ensures |parts| >= 1
    ensures |parts| == 1 <==> c !in s
    ensures c !in s ==> parts == [s]
    decreases |s|
  {
    if s == [] then [""]
    else
      var rest := Split(s[1..], c);
      if s[0] == c then [""] + rest
      else
        assert c !in s ==> s == [s[0]] + s[1..];
        PrependChar(s[0], rest)
  }

  /** Puts a character in front of the first piece. */
  function PrependChar(x: char, parts: seq<string>): (r: seq<string>)
    requires |parts| >= 1
    ensures |r| == |parts| && r[0] == [x] + parts[0] && r[1..] == parts[1..]
  {
    [[x] + parts[0]] + parts[1..]
  }

  /** `xs.join(sep)` in JavaScript (and the chained `+ sep +` that the script writes out by hand). */
  function Join(sep: string, xs: seq<string>): string
    decreases |xs|
  {
    if |xs| == 0 then ""
    else if |xs| == 1 then xs[0]
    else xs[0] + sep + Join(sep, xs[1..])
  }

  /** Joining the pieces back together with the separator gives the original string. */
  lemma {:induction false} JoinOfSplit(s: string, c: char)
    ensures Join([c], Split(s, c)) == s
    decreases |s|
  {
    if s != [] {
      var t := s[1..];
      JoinOfSplit(t, c);
      var rest := Split(t, c);
      if s[0] == c {
        JoinEmptyFirst([c], rest);
        assert s == [c] + t;
      } else {
        JoinPrependChar([c], s[0], rest);
        assert s == [s[0]] + t;
      }
    }
  }

  /** A leading empty piece contributes only a separator. */
  lemma JoinEmptyFirst(sep: string, parts: seq<string>)
    requires |parts| >= 1
    ensures Join(sep, [""] + parts) == sep + Join(sep, parts)
  {
    assert ([""] + parts)[1..] == parts;
  }

  /** A character put in front of the first piece comes first in the joined string. */
  lemma JoinPrependChar(sep: string, x: char, parts: seq<string>)
    requires |parts| >= 1
    ensures Join(sep, PrependChar(x, parts)) == [x] + Join(sep, parts)
  {
    var r := PrependChar(x, parts);
    if |parts| > 1 {
      assert Join(sep, r) == r[0] + sep + Join(sep, r[1..]);
      assert Join(sep, parts) == parts[0] + sep + Join(sep, parts[1..]);
    }
  }

  /** No piece contains the separator. */
  lemma {:induction false} SplitPiecesFree(s: string, c: char)
    ensures forall i :: 0 <= i < |Split(s, c)| ==> c !in Split(s, c)[i]
    decreases |s|
  {
    if s != [] {
      SplitPiecesFree(s[1..], c);
    }
  }

  /** Splitting `a + c + t`, where `a` has no `c`, yields `a` followed by the pieces of `t`. */
  lemma {:induction false} SplitAtSeparator(a: string, c: char, t: string)
    requires c !in a
    ensures Split(a + [c] + t, c) == [a] + Split(t, c)
    decreases |a|
  {
    var s := a + [c] + t;
    if a == [] {
      assert s[1..] == t;
    } else {
      assert s[1..] == a[1..] + [c] + t;
      SplitAtSeparator(a[1..], c, t);
      assert [a[0]] + a[1..] == a;
    }
  }

  /** Splitting a joined list whose items are free of the separator gives the list back. */
  lemma {:induction false} SplitOfJoin(xs: seq<string>, c: char)
    requires |xs| >= 1
    requires forall i :: 0 <= i < |xs| ==> c !in xs[i]
    ensures Split(Join([c], xs), c) == xs
    decreases |xs|
  {
    if |xs| > 1 {
      SplitOfJoin(xs[1..], c);
      SplitAtSeparator(xs[0], c, Join([c], xs[1..]));
      assert [xs[0]] + xs[1..] == xs;
    }
  }

  /** Appending one item to a joined list appends the separator and that item. */
  lemma {:induction false} JoinSnoc(sep: string, xs: seq<string>, x: string)
    ensures Join(sep, xs + [x]) == if xs == [] then x else Join(sep, xs) + sep + x
    decreases |xs|
  {
    if |xs| > 1 {
      assert (xs + [x])[1..] == xs[1..] + [x];
      JoinSnoc(sep, xs[1..], x);
    } else if |xs| == 1 {
      assert (xs + [x])[1..] == [x];
    }
  }

  /** The last piece of `s.split(c)`. */
  function LastPiece(s: string, c: char): string
  {
    var p := Split(s, c);
    p[|p| - 1]
  }

  /** The last piece of a non-empty string's split is that of its tail, unless the tail holds
      no separator and the first character is not one. */
  lemma LastPieceStep(s: string, c: char)
    requires s != []
    ensures LastPiece(s, c) == if c in s[1..] || s[0] == c then LastPiece(s[1..], c) else s
  {
    var rest := Split(s[1..], c);
    if s[0] != c && c !in s[1..] {
      assert s == [s[0]] + s[1..];
    }
  }

  /** The last piece of a split: a suffix of `s` with no separator in it, preceded
      in `s` by a separator whenever `s` holds one. */
  lemma {:induction false} SplitLastPiece(s: string, c: char)
    ensures var last := LastPiece(s, c);
      |last| <= |s| && s[|s| - |last|..] == last && c !in last &&
      (c in s ==> |last| < |s| && s[|s| - |last| - 1] == c)
    decreases |s|
  {
    if s == [] {
      assert LastPiece(s, c) == [];
    } else {
      LastPieceStep(s, c);
      var t := s[1..];
      if c in t || s[0] == c {
        SplitLastPiece(t, c);
        var last := LastPiece(t, c);
        assert LastPiece(s, c) == last;
        SuffixOfTail(s, |last|);
        if c in t {
          assert s[|s| - |last| - 1] == t[|t| - |last| - 1];
        }
      } else {
        assert c !in s by {
          assert s == [s[0]] + t;
        }
        assert LastPiece(s, c) == s;
        assert s[|s| - |s|..] == s;
      }
    }
  }

  lemma SuffixOfTail(s: string, n: nat)
    requires n < |s|
    ensures s[|s| - n..] == s[1..][|s| - 1 - n..]
  {
  }

  /** The first piece of a split: a prefix of `s` with no separator in it; when `s`
      holds a separator it is followed by one, and the remaining pieces are those
      of the text after that separator. */
  lemma {:induction false} SplitFirstPiece(s: string, c: char)
    ensures var p := Split(s, c);
      |p[0]| <= |s| && s[..|p[0]|] == p[0] && c !in p[0] &&
      (c in s ==> |p[0]| < |s| && s[|p[0]|] == c && Split(s[|p[0]| + 1..], c) == p[1..])
    decreases |s|
  {
    if s != [] && s[0] != c {
      SplitFirstPiece(s[1..], c);
      var rest := Split(s[1..], c);
      assert s == [s[0]] + s[1..];
      if c in s {
        assert c in s[1..];
        assert s[1..][|rest[0]| + 1..] == s[|rest[0]| + 2..];
      }
    }
  }
}
