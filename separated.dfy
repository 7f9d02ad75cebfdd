/** Python's `str.split(sep)` with an explicit one-character separator and
    its inverse `sep.join(parts)`: how the search path is cut into
    directories. Unlike `str.split()`, empty fields are kept. */
module Separated {

  /** `s.split(sep)`: the fields between separators, empty ones included. */
  function SplitOn(s: string, sep: char): (parts: seq<string>)
    ensures |parts| > 0
    ensures forall i | 0 <= i < |parts| :: sep !in parts[i]
  {
    if s == [] then [[]]
    else
      var rest := SplitOn(s[1..], sep);
      if s[0] == sep then [[]] + rest
      else [[s[0]] + rest[0]] + rest[1..]
  }

  /** `sep.join(parts)`. */
  function JoinWith(parts: seq<string>, sep: char): string {
    if parts == [] then []
    else if |parts| == 1 then parts[0]
    else parts[0] + [sep] + JoinWith(parts[1..], sep)
  }

  /** Number of occurrences of `c` in `s`. */
  function Count(s: string, c: char): nat {
    if s == [] then 0 else (if s[0] == c then 1 else 0) + Count(s[1..], c)
  }

  /** Joining the fields with the separator restores the text exactly. */
  lemma {:induction false} JoinSplitOn(s: string, sep: char)
    ensures JoinWith(SplitOn(s, sep), sep) == s
  {
    if s != [] {
      var rest := SplitOn(s[1..], sep);
      JoinSplitOn(s[1..], sep);
      if s[0] == sep {
        assert ([[]] + rest)[1..] == rest;
      } else {
        var parts := [[s[0]] + rest[0]] + rest[1..];
        if |rest| == 1 {
          assert JoinWith(rest, sep) == rest[0];
        } else {
          assert parts[1..] == rest[1..];
          assert JoinWith(rest, sep) == rest[0] + [sep] + JoinWith(rest[1..], sep);
        }
        assert s == [s[0]] + s[1..];
      }
    }
  }

  /** There is one field more than there are separators. */
  lemma {:induction false} SplitOnCount(s: string, sep: char)
    ensures |SplitOn(s, sep)| == Count(s, sep) + 1
  {
    if s != [] {
      SplitOnCount(s[1..], sep);
    }
  }

  /** Splitting separator-free fields joined by the separator gives them back. */
  lemma {:induction false} SplitOnJoin(parts: seq<string>, sep: char)
    requires |parts| > 0
    requires forall i | 0 <= i < |parts| :: sep !in parts[i]
    ensures SplitOn(JoinWith(parts, sep), sep) == parts
  {
    if |parts| == 1 {
      SplitOnField(parts[0], sep);
    } else {
      var tail := JoinWith(parts[1..], sep);
      SplitOnJoin(parts[1..], sep);
      SplitOnFieldThen(parts[0], tail, sep);
      assert parts == [parts[0]] + parts[1..];
    }
  }

  /** A separator-free text is a single field. */
  lemma {:induction false} SplitOnField(f: string, sep: char)
    requires sep !in f
    ensures SplitOn(f, sep) == [f]
  {
    if f != [] {
      SplitOnField(f[1..], sep);
      assert f == [f[0]] + f[1..];
    }
  }

  /** A separator-free field followed by the separator is split off first. */
  lemma {:induction false} SplitOnFieldThen(f: string, rest: string, sep: char)
    requires sep !in f
    ensures SplitOn(f + [sep] + rest, sep) == [f] + SplitOn(rest, sep)
  {
    if f == [] {
      assert f + [sep] + rest == [sep] + rest;
      assert ([sep] + rest)[1..] == rest;
    } else {
      assert (f + [sep] + rest)[1..] == f[1..] + [sep] + rest;
      SplitOnFieldThen(f[1..], rest, sep);
      assert f == [f[0]] + f[1..];
    }
  }
}
