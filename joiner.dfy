/**
 * Guava's Joiner.on(separator).join(parts): the parts in order with the
 * separator between each neighbouring pair.  Split is the inverse direction,
 * used to state that joining loses nothing when no part holds the separator.
 */
module Joiner {

  /** The first part, then separator and part for each further part. */
  function Join(sep: string, parts: seq<string>): string
    decreases |parts|
  {
    if |parts| == 0 then ""
    else if |parts| == 1 then parts[0]
    else parts[0] + sep + Join(sep, parts[1..])
  }

  /** The total number of characters in the parts. */
  function TotalLength(parts: seq<string>): nat {
    if |parts| == 0 then 0 else |parts[0]| + TotalLength(parts[1..])
  }

  /** The pieces of s between consecutive occurrences of c (always at least one). */
  function Split(c: char, s: string): (r: seq<string>)
    ensures |r| >= 1
    ensures |r| == 1 <==> c !in s
  {
    if |s| == 0 then [""]
    else
      var rest := Split(c, s[1..]);
      if s[0] == c then [""] + rest else [[s[0]] + rest[0]] + rest[1..]
  }

  /** The last position of c in s, or -1. */
  function LastIndexOf(c: char, s: string): (r: int)
    ensures -1 <= r < |s|
    ensures r >= 0 ==> s[r] == c && c !in s[r + 1..]
    ensures r == -1 <==> c !in s
  {
    if |s| == 0 then -1
    else if s[|s| - 1] == c then |s| - 1
    else
      var r := LastIndexOf(c, s[..|s| - 1]);
      assert r >= 0 ==> s[r + 1..] == s[..|s| - 1][r + 1..] + [s[|s| - 1]];
      r
  }

  predicate NoneContains(c: char, parts: seq<string>) {
    forall i :: 0 <= i < |parts| ==> c !in parts[i]
  }

  /** Joining no parts yields the empty string. */
  lemma JoinEmpty(sep: string)
    ensures Join(sep, []) == ""
  {
  }

  /** Joining one part yields that part unchanged. */
  lemma JoinSingle(sep: string, p: string)
    ensures Join(sep, [p]) == p
  {
  }

  /** Appending a part to a non-empty list appends the separator and the part. */
  lemma {:induction false} JoinSnoc(sep: string, parts: seq<string>, p: string)
    requires |parts| >= 1
    ensures Join(sep, parts + [p]) == Join(sep, parts) + sep + p
  {
    if |parts| > 1 {
      assert (parts + [p])[1..] == parts[1..] + [p];
      JoinSnoc(sep, parts[1..], p);
    }
  }

  /** The joined text has every character of the parts plus one separator per gap. */
  lemma {:induction false} JoinLength(sep: string, parts: seq<string>)
    requires |parts| >= 1
    ensures |Join(sep, parts)| == TotalLength(parts) + (|parts| - 1) * |sep|
  {
    if |parts| > 1 {
      JoinLength(sep, parts[1..]);
    }
  }

  /** Prepending text to the first part prepends it to the joined text. */
  lemma JoinPrepend(sep: string, x: string, parts: seq<string>)
    requires |parts| >= 1
    ensures Join(sep, [x + parts[0]] + parts[1..]) == x + Join(sep, parts)
  {
  }

  /** Splitting text free of c gives the text back as the only piece. */
  lemma {:induction false} SplitFree(c: char, p: string)
    requires c !in p
    ensures Split(c, p) == [p]
  {
    if |p| > 0 {
      SplitFree(c, p[1..]);
      assert [p[0]] + p[1..] == p;
    }
  }

  /** A piece free of c followed by c is split off as the first piece. */
  lemma {:induction false} SplitAfterPiece(c: char, p: string, rest: string)
    requires c !in p
    ensures Split(c, p + [c] + rest) == [p] + Split(c, rest)
  {
    if |p| == 0 {
      assert p + [c] + rest == [c] + rest;
      assert ([c] + rest)[1..] == rest;
    } else {
      assert (p + [c] + rest)[1..] == p[1..] + [c] + rest;
      SplitAfterPiece(c, p[1..], rest);
      var r := Split(c, p[1..] + [c] + rest);
      assert r[0] == p[1..] && r[1..] == Split(c, rest);
      assert [p[0]] + p[1..] == p;
    }
  }

  /** Splitting what was joined with c recovers the parts, if none contains c. */
  lemma {:induction false} SplitJoin(c: char, parts: seq<string>)
    requires |parts| >= 1 && NoneContains(c, parts)
    ensures Split(c, Join([c], parts)) == parts
  {
    if |parts| == 1 {
      SplitFree(c, parts[0]);
    } else {
      SplitJoin(c, parts[1..]);
      SplitAfterPiece(c, parts[0], Join([c], parts[1..]));
    }
  }

  /** Joining the pieces of a split with c rebuilds the text exactly. */
  lemma {:induction false} JoinSplit(c: char, s: string)
    ensures Join([c], Split(c, s)) == s
  {
    if |s| > 0 {
      var rest := Split(c, s[1..]);
      JoinSplit(c, s[1..]);
      if s[0] == c {
        assert ([""] + rest)[1..] == rest;
      } else {
        JoinPrepend([c], [s[0]], rest);
      }
    }
  }
}
