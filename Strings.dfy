/** The JavaScript string primitives the core relies on: `split` on a
    one-character separator, `Array.prototype.join`, and the longest prefix
    free of a set of characters (a scanner step for the markup reader). */
module Strings {

  /** `s.split(c)`: the maximal pieces of `s` between occurrences of `c`. */
  function Split(s: string, c: char): (parts: seq<string>)
    ensures |parts| >= 1
    ensures forall i :: 0 <= i < |parts| ==> c !in parts[i]
    decreases |s|
  {
    if |s| == 0 then [""]
    else
      var rest := Split(s[1..], c);
      if s[0] == c then [""] + rest
      else [[s[0]] + rest[0]] + rest[1..]
  }

  /** `parts.join(sep)`: the empty array joins to the empty string. */
  function Join(parts: seq<string>, sep: string): string
    decreases |parts|
  {
    if |parts| == 0 then ""
    else if |parts| == 1 then parts[0]
    else parts[0] + sep + Join(parts[1..], sep)
  }

  /** Splitting and joining back with the same separator restores the string. */
  lemma {:induction false} JoinSplit(s: string, c: char)
    ensures Join(Split(s, c), [c]) == s
    decreases |s|
  {
    if |s| > 0 {
      var rest := Split(s[1..], c);
      JoinSplit(s[1..], c);
      if s[0] == c {
        assert Split(s, c) == [""] + rest;
        assert ([""] + rest)[1..] == rest;
        assert s == [c] + s[1..];
      } else {
        var parts := Split(s, c);
        assert parts == [[s[0]] + rest[0]] + rest[1..];
        if |rest| == 1 {
          assert parts == [[s[0]] + rest[0]];
          assert s == [s[0]] + s[1..];
        } else {
          assert parts[1..] == rest[1..];
          assert Join(rest, [c]) == rest[0] + [c] + Join(rest[1..], [c]);
          assert s == [s[0]] + s[1..];
        }
      }
    }
  }

  /** A string without the separator is a single piece. */
  lemma {:induction false} SplitWithout(s: string, c: char)
    requires c !in s
    ensures Split(s, c) == [s]
    decreases |s|
  {
    if |s| > 0 {
      SplitWithout(s[1..], c);
      assert s == [s[0]] + s[1..];
    }
  }

  /** A string that holds the separator splits into two pieces or more. */
  lemma SplitAtSeparator(s: string, c: char)
    requires c in s
    ensures |Split(s, c)| >= 2
  {
    JoinSplit(s, c);
  }

  /** A piece followed by the separator is split off as the first piece. */
  lemma {:induction false} SplitFirst(a: string, c: char, rest: string)
    requires c !in a
    ensures Split(a + [c] + rest, c) == [a] + Split(rest, c)
    decreases |a|
  {
    var s := a + [c] + rest;
    if |a| == 0 {
      assert s == [c] + rest;
      assert s[1..] == rest;
    } else {
      assert s[1..] == a[1..] + [c] + rest;
      SplitFirst(a[1..], c, rest);
      assert a == [a[0]] + a[1..];
    }
  }

  /** Four pieces joined by the separator are split back into those pieces. */
  lemma SplitFour(a: string, b: string, c: string, d: string, sep: char)
    requires sep !in a && sep !in b && sep !in c && sep !in d
    ensures Split(a + [sep] + b + [sep] + c + [sep] + d, sep) == [a, b, c, d]
  {
    var cd := c + [sep] + d;
    var bcd := b + [sep] + cd;
    assert a + [sep] + b + [sep] + c + [sep] + d == a + [sep] + bcd;
    SplitWithout(d, sep);
    SplitFirst(c, sep, d);
    assert Split(cd, sep) == [c, d];
    SplitFirst(b, sep, cd);
    assert Split(bcd, sep) == [b, c, d];
    SplitFirst(a, sep, bcd);
    assert Split(a + [sep] + bcd, sep) == [a] + [b, c, d];
  }

  /** Joining pieces free of the separator character and splitting the result
      on it gives the pieces back. */
  lemma {:induction false} SplitJoin(parts: seq<string>, c: char)
    requires |parts| >= 1
    requires forall i :: 0 <= i < |parts| ==> c !in parts[i]
    ensures Split(Join(parts, [c]), c) == parts
    decreases |parts|
  {
    if |parts| == 1 {
      SplitWithout(parts[0], c);
    } else {
      SplitJoin(parts[1..], c);
      SplitFirst(parts[0], c, Join(parts[1..], [c]));
      assert parts == [parts[0]] + parts[1..];
    }
  }

  /** A character that occurs neither in the pieces nor in the separator does
      not occur in their join. */
  lemma {:induction false} JoinAvoids(parts: seq<string>, sep: string, c: char)
    requires c !in sep
    requires forall i :: 0 <= i < |parts| ==> c !in parts[i]
    ensures c !in Join(parts, sep)
    decreases |parts|
  {
    if |parts| > 1 {
      JoinAvoids(parts[1..], sep, c);
    }
  }

  /** Joining a non-empty list with one more piece at the end. */
  lemma {:induction false} JoinSnoc(init: seq<string>, last: string, sep: string)
    requires |init| >= 1
    ensures Join(init + [last], sep) == Join(init, sep) + sep + last
    decreases |init|
  {
    if |init| == 1 {
      assert (init + [last])[1..] == [last];
    } else {
      assert (init + [last])[1..] == init[1..] + [last];
      JoinSnoc(init[1..], last, sep);
    }
  }

  /** The longest prefix of `s` that contains no character of `stop`. */
  function Span(s: string, stop: set<char>): (t: string)
    ensures |t| <= |s| && t == s[..|t|]
    ensures forall i :: 0 <= i < |t| ==> t[i] !in stop
    ensures |t| < |s| ==> s[|t|] in stop
    decreases |s|
  {
    if |s| == 0 || s[0] in stop then ""
    else [s[0]] + Span(s[1..], stop)
  }

  /** A string free of `stop` is its own longest such prefix. */
  lemma {:induction false} SpanAll(s: string, stop: set<char>)
    requires Avoids(s, stop)
    ensures Span(s, stop) == s
    decreases |s|
  {
    if |s| > 0 {
      SpanAll(s[1..], stop);
      assert s == [s[0]] + s[1..];
    }
  }

  /** A piece free of `stop` followed by a stop character is read back exactly. */
  lemma SpanUpTo(t: string, c: char, rest: string, stop: set<char>)
    requires forall i :: 0 <= i < |t| ==> t[i] !in stop
    requires c in stop
    ensures Span(t + [c] + rest, stop) == t
  {
    var s := t + [c] + rest;
    assert forall i :: 0 <= i < |t| ==> s[i] == t[i] && s[i] !in stop;
    assert s[|t|] == c;
  }

  /** What comes first in a concatenation is its prefix. */
  lemma PrefixOfAppend(a: string, b: string, n: nat)
    requires n <= |a|
    ensures (a + b)[..n] == a[..n]
  {
  }

  /** What comes last in a concatenation is its suffix. */
  lemma SuffixOfAppend(a: string, b: string)
    ensures (a + b)[|a + b| - |b|..] == b
  {
  }

  /** True when no character of `s` belongs to `stop`. */
  predicate Avoids(s: string, stop: set<char>) {
    forall i :: 0 <= i < |s| ==> s[i] !in stop
  }
}
