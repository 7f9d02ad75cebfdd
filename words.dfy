/** Python's `str.split()` (no separator), `" ".join(...)` and `str.strip()`,
    the only text operations the shell applies to a command line. */
module Words {

  /** The characters Python's `str.split()` and `str.strip()` treat as
      whitespace (ASCII separators and Unicode space characters). */
  predicate IsSpace(c: char) {
    c == ' ' || ('\t' <= c <= '\r') || ('\U{1c}' <= c <= '\U{1f}')
    || c == '\U{85}' || c == '\U{a0}' || c == '\U{1680}'
    || ('\U{2000}' <= c <= '\U{200a}') || c == '\U{2028}' || c == '\U{2029}'
    || c == '\U{202f}' || c == '\U{205f}' || c == '\U{3000}'
  }

  /** A word as `str.split()` produces it: non-empty, no whitespace. */
  predicate IsWord(w: string) {
    |w| > 0 && forall i | 0 <= i < |w| :: !IsSpace(w[i])
  }

  predicate AllWords(ws: seq<string>) {
    forall i | 0 <= i < |ws| :: IsWord(ws[i])
  }

  predicate AllSpace(s: string) {
    forall i | 0 <= i < |s| :: IsSpace(s[i])
  }

  /** Length of the longest whitespace-free prefix of `s`. */
  function WordLength(s: string): (n: nat)
    ensures n <= |s|
    ensures forall k | 0 <= k < n :: !IsSpace(s[k])
    ensures n == |s| || IsSpace(s[n])
  {
    if s == [] || IsSpace(s[0]) then 0 else 1 + WordLength(s[1..])
  }

  /** `s.split()`: the maximal whitespace-free runs of `s`, left to right. */
  function Split(s: string): (ws: seq<string>)
    ensures AllWords(ws)
    ensures |ws| <= |s|
    decreases |s|
  {
    if s == [] then []
    else if IsSpace(s[0]) then Split(s[1..])
    else
      var n := WordLength(s);
      [s[..n]] + Split(s[n..])
  }

  /** `" ".join(ws)`. */
  function Join(ws: seq<string>): string {
    if ws == [] then ""
    else if |ws| == 1 then ws[0]
    else ws[0] + " " + Join(ws[1..])
  }

  /** Length of the longest all-whitespace prefix of `s`. */
  function LeadingSpace(s: string): (n: nat)
    ensures n <= |s|
    ensures forall k | 0 <= k < n :: IsSpace(s[k])
    ensures n == |s| || !IsSpace(s[n])
  {
    if s != [] && IsSpace(s[0]) then 1 + LeadingSpace(s[1..]) else 0
  }

  /** Length of the longest all-whitespace suffix of `s`. */
  function TrailingSpace(s: string): (n: nat)
    ensures n <= |s|
    ensures forall k | |s| - n <= k < |s| :: IsSpace(s[k])
    ensures n == |s| || !IsSpace(s[|s| - 1 - n])
  {
    if s != [] && IsSpace(s[|s| - 1]) then 1 + TrailingSpace(s[..|s| - 1]) else 0
  }

  /** `s.lstrip()`: drops the leading whitespace and nothing else. */
  function LStrip(s: string): (t: string)
    ensures |t| <= |s| && t == s[|s| - |t|..]
    ensures AllSpace(s[..|s| - |t|])
    ensures t == [] || !IsSpace(t[0])
  {
    s[LeadingSpace(s)..]
  }

  /** `s.rstrip()`: drops the trailing whitespace and nothing else. */
  function RStrip(s: string): (t: string)
    ensures |t| <= |s| && t == s[..|t|]
    ensures AllSpace(s[|t|..])
    ensures t == [] || !IsSpace(t[|t| - 1])
  {
    s[..|s| - TrailingSpace(s)]
  }

  /** `s.strip()`. */
  function Strip(s: string): string {
    RStrip(LStrip(s))
  }

  /** `[w.strip() for w in ws]`. */
  function StripEach(ws: seq<string>): seq<string> {
    seq(|ws|, i requires 0 <= i < |ws| => Strip(ws[i]))
  }

  /** The non-whitespace characters of `s`, in order. */
  function NonSpace(s: string): string {
    if s == [] then []
    else if IsSpace(s[0]) then NonSpace(s[1..])
    else [s[0]] + NonSpace(s[1..])
  }

  /** The words laid end to end. */
  function Concat(ws: seq<string>): string {
    if ws == [] then [] else ws[0] + Concat(ws[1..])
  }

  /** Text in the form `" ".join` of words produces: its only whitespace is
      single spaces between non-space characters. */
  predicate Normalized(s: string) {
    (forall i | 0 <= i < |s| :: IsSpace(s[i]) ==> s[i] == ' ')
    && (|s| > 0 ==> s[0] != ' ' && s[|s| - 1] != ' ')
    && (forall i | 0 < i < |s| :: s[i] == ' ' ==> s[i - 1] != ' ')
  }

  /** `g[0] + ws[0] + g[1] + ... + ws[|ws| - 1] + g[|ws|]`: the words with
      the gaps around and between them. */
  function Interleave(g: seq<string>, ws: seq<string>): string
    requires |g| == |ws| + 1
    decreases |ws|
  {
    if ws == [] then g[0] else g[0] + ws[0] + Interleave(g[1..], ws[1..])
  }

  /** Gaps for `ws`: one more than the words, all whitespace, and the ones
      between two words not empty. */
  predicate Gapped(g: seq<string>, ws: seq<string>) {
    |g| == |ws| + 1
    && (forall i | 0 <= i < |g| :: AllSpace(g[i]))
    && (forall i | 0 < i < |ws| :: g[i] != [])
  }

  /** The whitespace runs of `s` around and between its words. */
  function Gaps(s: string): (g: seq<string>)
    ensures |g| > 0
    decreases |s|
  {
    if s == [] then [""]
    else if IsSpace(s[0]) then
      var g := Gaps(s[1..]);
      [[s[0]] + g[0]] + g[1..]
    else [""] + Gaps(s[WordLength(s)..])
  }

  // ---------------------------------------------------------------------
  // Lemmas

  /** `strip` leaves a word as it is. */
  lemma StripWord(w: string)
    requires IsWord(w)
    ensures Strip(w) == w
  {
    assert LeadingSpace(w) == 0 by { assert !IsSpace(w[0]); }
    assert TrailingSpace(w) == 0 by { assert !IsSpace(w[|w| - 1]); }
    assert LStrip(w) == w;
  }

  /** `strip` leaves normalized text as it is. */
  lemma StripNormalized(s: string)
    requires Normalized(s)
    ensures Strip(s) == s
  {
    if s != [] {
      assert LeadingSpace(s) == 0 by { assert !IsSpace(s[0]); }
      assert TrailingSpace(s) == 0 by { assert !IsSpace(s[|s| - 1]); }
    }
  }

  /** Stripping each word that `split` returned changes nothing. */
  lemma StripEachWords(ws: seq<string>)
    requires AllWords(ws)
    ensures StripEach(ws) == ws
  {
    forall i | 0 <= i < |ws| ensures StripEach(ws)[i] == ws[i] {
      StripWord(ws[i]);
    }
  }

  /** A line splits into no words exactly when it is empty or all whitespace. */
  lemma {:induction false} SplitEmptyIff(s: string)
    ensures Split(s) == [] <==> AllSpace(s)
  {
    if s != [] && IsSpace(s[0]) {
      SplitEmptyIff(s[1..]);
      assert AllSpace(s) <==> AllSpace(s[1..]) by {
        if AllSpace(s[1..]) {
          forall i | 0 <= i < |s| ensures IsSpace(s[i]) {
            if i > 0 { assert s[i] == s[1..][i - 1]; }
          }
        }
      }
    }
  }

  /** Splitting a word followed by whitespace (or nothing) yields that word first. */
  lemma SplitAfterWord(w: string, rest: string)
    requires IsWord(w)
    requires rest == [] || IsSpace(rest[0])
    ensures Split(w + rest) == [w] + Split(rest)
  {
    var s := w + rest;
    WordLengthOfWord(w, rest);
    var n := WordLength(s);
    assert s[..n] == w;
    assert s[n..] == rest;
  }

  lemma {:induction false} WordLengthOfWord(w: string, rest: string)
    requires forall i | 0 <= i < |w| :: !IsSpace(w[i])
    requires rest == [] || IsSpace(rest[0])
    ensures WordLength(w + rest) == |w|
  {
    if w != [] {
      assert (w + rest)[1..] == w[1..] + rest;
      WordLengthOfWord(w[1..], rest);
    } else {
      assert w + rest == rest;
    }
  }

  /** Leading whitespace does not change the split. */
  lemma SplitAfterSpace(c: char, s: string)
    requires IsSpace(c)
    ensures Split([c] + s) == Split(s)
  {
    assert ([c] + s)[1..] == s;
  }

  /** A word followed by one space is split off first. */
  lemma SplitWordSpace(w: string, r: string)
    requires IsWord(w)
    ensures Split(w + " " + r) == [w] + Split(r)
  {
    assert w + " " + r == w + ([' '] + r);
    SplitAfterWord(w, [' '] + r);
    SplitAfterSpace(' ', r);
  }

  /** Splitting joined words gives the words back. */
  lemma {:induction false} SplitJoin(ws: seq<string>)
    requires AllWords(ws)
    ensures Split(Join(ws)) == ws
  {
    if |ws| == 1 {
      SplitAfterWord(ws[0], "");
      assert ws[0] + "" == ws[0];
    } else if |ws| > 1 {
      SplitJoin(ws[1..]);
      SplitWordSpace(ws[0], Join(ws[1..]));
      assert ws == [ws[0]] + ws[1..];
    }
  }

  lemma NormalizedWord(w: string)
    requires IsWord(w)
    ensures Normalized(w)
  {
    assert !IsSpace(w[0]) && !IsSpace(w[|w| - 1]);
  }

  /** A word, one space and normalized non-empty text make normalized text. */
  lemma NormalizedCons(w: string, rest: string)
    requires IsWord(w) && Normalized(rest) && rest != []
    ensures Normalized(w + " " + rest)
  {
    var s := w + " " + rest;
    forall i | 0 <= i < |s| ensures IsSpace(s[i]) ==> s[i] == ' ' {
      if i > |w| { assert s[i] == rest[i - |w| - 1]; }
    }
    forall i | 0 < i < |s| ensures s[i] == ' ' ==> s[i - 1] != ' ' {
      if i > |w| + 1 {
        assert s[i] == rest[i - |w| - 1] && s[i - 1] == rest[i - |w| - 2];
      }
    }
    assert !IsSpace(s[0]) && s[|s| - 1] == rest[|rest| - 1];
  }

  /** Joined words have single-space separators and no outer whitespace. */
  lemma {:induction false} JoinNormalized(ws: seq<string>)
    requires AllWords(ws)
    ensures Normalized(Join(ws))
  {
    if |ws| == 1 {
      NormalizedWord(ws[0]);
    } else if |ws| > 1 {
      JoinNormalized(ws[1..]);
      NormalizedCons(ws[0], Join(ws[1..]));
    }
  }

  lemma JoinCons(w: string, rest: seq<string>)
    requires rest != []
    ensures Join([w] + rest) == w + " " + Join(rest)
  {
    assert ([w] + rest)[1..] == rest;
  }

  /** What follows a space in normalized text is normalized text. */
  lemma NormalizedSuffix(s: string, k: nat)
    requires Normalized(s) && 0 < k <= |s| && s[k - 1] == ' '
    ensures Normalized(s[k..])
  {
    var t := s[k..];
    forall i | 0 <= i < |t| ensures IsSpace(t[i]) ==> t[i] == ' ' {
      assert t[i] == s[k + i];
    }
    forall i | 0 < i < |t| ensures t[i] == ' ' ==> t[i - 1] != ' ' {
      assert t[i] == s[k + i] && t[i - 1] == s[k + i - 1];
    }
  }

  /** In normalized text the first word, when it is not all of the text,
      ends at a single space followed by more text. */
  lemma NormalizedFirstWord(s: string)
    requires Normalized(s) && s != [] && WordLength(s) < |s|
    ensures var n := WordLength(s);
      n + 1 < |s| && s[n] == ' ' && IsWord(s[..n])
  {
    var n := WordLength(s);
    assert IsSpace(s[n]);
    assert !IsSpace(s[0]);
  }

  /** Non-empty normalized text has at least one word. */
  lemma NormalizedHasWords(s: string)
    requires Normalized(s) && s != []
    ensures Split(s) != []
  {
    assert !IsSpace(s[0]);
    SplitEmptyIff(s);
  }

  /** Normalized text is exactly what joining its own words gives. */
  lemma {:induction false} JoinSplitNormalized(s: string)
    requires Normalized(s)
    ensures Join(Split(s)) == s
    decreases |s|
  {
    if s != [] {
      var n := WordLength(s);
      if n == |s| {
        assert IsWord(s) by { assert !IsSpace(s[0]); }
        SplitAfterWord(s, []);
        assert s + [] == s;
      } else {
        NormalizedFirstWord(s);
        var w, tail := s[..n], s[n + 1..];
        assert s == w + " " + tail;
        SplitWordSpace(w, tail);
        NormalizedSuffix(s, n + 1);
        NormalizedHasWords(tail);
        JoinSplitNormalized(tail);
        JoinCons(w, Split(tail));
      }
    }
  }

  lemma {:induction false} NonSpaceAppend(a: string, b: string)
    ensures NonSpace(a + b) == NonSpace(a) + NonSpace(b)
  {
    if a != [] {
      assert (a + b)[1..] == a[1..] + b;
      NonSpaceAppend(a[1..], b);
    } else {
      assert a + b == b;
    }
  }

  lemma {:induction false} NonSpaceWord(w: string)
    requires forall i | 0 <= i < |w| :: !IsSpace(w[i])
    ensures NonSpace(w) == w
  {
    if w != [] {
      NonSpaceWord(w[1..]);
    }
  }

  /** The words of `split` hold every non-whitespace character of the line,
      in their original order, and nothing else. */
  lemma {:induction false} SplitKeepsCharacters(s: string)
    ensures Concat(Split(s)) == NonSpace(s)
    decreases |s|
  {
    if s != [] {
      if IsSpace(s[0]) {
        SplitKeepsCharacters(s[1..]);
      } else {
        var n := WordLength(s);
        assert s == s[..n] + s[n..];
        NonSpaceAppend(s[..n], s[n..]);
        NonSpaceWord(s[..n]);
        SplitKeepsCharacters(s[n..]);
        assert Split(s)[1..] == Split(s[n..]);
      }
    }
  }

  /** Any whitespace prefix is skipped by `split`. */
  lemma {:induction false} SplitAfterSpaces(sp: string, x: string)
    requires AllSpace(sp)
    ensures Split(sp + x) == Split(x)
  {
    if sp == [] {
      assert sp + x == x;
    } else {
      assert sp + x == [sp[0]] + (sp[1..] + x);
      assert AllSpace(sp[1..]) by {
        forall i | 0 <= i < |sp| - 1 ensures IsSpace(sp[1..][i]) {
          assert sp[1..][i] == sp[i + 1];
        }
      }
      SplitAfterSpaces(sp[1..], x);
      SplitAfterSpace(sp[0], sp[1..] + x);
    }
  }

  /** The gaps after the first word are gaps for the remaining words. */
  lemma GappedTail(g: seq<string>, ws: seq<string>)
    requires Gapped(g, ws) && ws != []
    ensures Gapped(g[1..], ws[1..])
  {
    forall i | 0 <= i < |g| - 1 ensures AllSpace(g[1..][i]) {
      assert g[1..][i] == g[i + 1];
    }
    forall i | 0 < i < |ws| - 1 ensures g[1..][i] != [] {
      assert g[1..][i] == g[i + 1];
    }
  }

  lemma AllWordsTail(ws: seq<string>)
    requires AllWords(ws) && ws != []
    ensures AllWords(ws[1..])
  {
    forall i | 0 <= i < |ws| - 1 ensures IsWord(ws[1..][i]) {
      assert ws[1..][i] == ws[i + 1];
    }
  }

  /** What follows the first word in an interleaving is empty or starts
      with whitespace. */
  lemma InterleaveAfterWord(g: seq<string>, ws: seq<string>)
    requires Gapped(g, ws) && ws != []
    ensures var rest := Interleave(g[1..], ws[1..]);
      rest == [] || IsSpace(rest[0])
  {
    var rest := Interleave(g[1..], ws[1..]);
    if |ws| > 1 {
      assert g[1] != [] && AllSpace(g[1]);
      assert rest[0] == g[1][0];
    } else {
      assert rest == g[1] && AllSpace(g[1]);
    }
  }

  /** `split` returns the words however wide the whitespace between, before
      and after them. */
  lemma {:induction false} SplitInterleave(g: seq<string>, ws: seq<string>)
    requires AllWords(ws) && Gapped(g, ws)
    ensures Split(Interleave(g, ws)) == ws
    decreases |ws|
  {
    if ws == [] {
      SplitEmptyIff(g[0]);
    } else {
      var rest := Interleave(g[1..], ws[1..]);
      GappedTail(g, ws);
      AllWordsTail(ws);
      SplitInterleave(g[1..], ws[1..]);
      InterleaveAfterWord(g, ws);
      SplitAfterWord(ws[0], rest);
      assert g[0] + ws[0] + rest == g[0] + (ws[0] + rest);
      SplitAfterSpaces(g[0], ws[0] + rest);
      assert ws == [ws[0]] + ws[1..];
    }
  }

  /** Widening the first gap by one character widens the text by it. */
  lemma InterleaveWiden(c: char, g: seq<string>, ws: seq<string>)
    requires |g| == |ws| + 1
    ensures Interleave([[c] + g[0]] + g[1..], ws) == [c] + Interleave(g, ws)
  {
    var h := [[c] + g[0]] + g[1..];
    assert h[0] == [c] + g[0] && h[1..] == g[1..];
    if ws != [] {
      assert [c] + g[0] + ws[0] + Interleave(g[1..], ws[1..])
        == [c] + (g[0] + ws[0] + Interleave(g[1..], ws[1..]));
    }
  }

  /** A wider first gap is still a gap. */
  lemma GappedWiden(c: char, g: seq<string>, ws: seq<string>)
    requires IsSpace(c) && Gapped(g, ws)
    ensures Gapped([[c] + g[0]] + g[1..], ws)
  {
    var h := [[c] + g[0]] + g[1..];
    forall i | 0 <= i < |h| ensures AllSpace(h[i]) {
      if i == 0 {
        forall k | 0 <= k < |h[0]| ensures IsSpace(h[0][k]) {
          if k > 0 { assert h[0][k] == g[0][k - 1]; }
        }
      } else {
        assert h[i] == g[i];
      }
    }
    forall i | 0 < i < |ws| ensures h[i] != [] {
      assert h[i] == g[i];
    }
  }

  /** Gaps for the words after a first word, when the text after that word
      starts with whitespace, give gaps for all the words. */
  lemma GappedAfterWord(w: string, g: seq<string>, ws: seq<string>)
    requires Gapped(g, ws) && (ws != [] ==> g[0] != [])
    ensures Gapped([""] + g, [w] + ws)
  {
    var h := [""] + g;
    forall i | 0 <= i < |h| ensures AllSpace(h[i]) {
      if i > 0 { assert h[i] == g[i - 1]; }
    }
    forall i | 0 < i < |ws| + 1 ensures h[i] != [] {
      assert h[i] == g[i - 1];
    }
  }

  lemma SplitGapsSpace(s: string)
    requires s != [] && IsSpace(s[0])
    requires Gapped(Gaps(s[1..]), Split(s[1..]))
    requires Interleave(Gaps(s[1..]), Split(s[1..])) == s[1..]
    ensures Gapped(Gaps(s), Split(s)) && Interleave(Gaps(s), Split(s)) == s
  {
    var g', ws := Gaps(s[1..]), Split(s[1..]);
    GappedWiden(s[0], g', ws);
    InterleaveWiden(s[0], g', ws);
    assert s == [s[0]] + s[1..];
  }

  lemma SplitGapsWord(s: string)
    requires s != [] && !IsSpace(s[0])
    requires var t := s[WordLength(s)..];
      Gapped(Gaps(t), Split(t)) && Interleave(Gaps(t), Split(t)) == t
    ensures Gapped(Gaps(s), Split(s)) && Interleave(Gaps(s), Split(s)) == s
  {
    var n := WordLength(s);
    var w, t := s[..n], s[n..];
    var g', ws := Gaps(t), Split(t);
    assert Gaps(s) == [""] + g' && Split(s) == [w] + ws;
    if ws != [] {
      assert t != [] && IsSpace(t[0]);
      assert g'[0] != [];
    }
    GappedAfterWord(w, g', ws);
    assert ([""] + g')[1..] == g' && ([w] + ws)[1..] == ws;
    assert s == "" + w + t;
  }

  /** Every text is its own words interleaved with its whitespace runs. */
  lemma {:induction false} SplitGaps(s: string)
    ensures Gapped(Gaps(s), Split(s)) && Interleave(Gaps(s), Split(s)) == s
    decreases |s|
  {
    if s == [] {
      assert AllSpace("");
    } else if IsSpace(s[0]) {
      SplitGaps(s[1..]);
      SplitGapsSpace(s);
    } else {
      SplitGaps(s[WordLength(s)..]);
      SplitGapsWord(s);
    }
  }

  /** `split` is characterised: its result is the one list of words that the
      text interleaves with whitespace gaps. */
  lemma SplitCharacterised(s: string, ws: seq<string>)
    requires AllWords(ws)
    ensures Split(s) == ws <==> exists g :: Gapped(g, ws) && Interleave(g, ws) == s
  {
    if Split(s) == ws {
      SplitGaps(s);
    }
    forall g | Gapped(g, ws) && Interleave(g, ws) == s ensures Split(s) == ws {
      SplitInterleave(g, ws);
    }
  }
}
