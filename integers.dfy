/** Small option type shared by the modules below. */
module Wrappers {
  datatype Option<T> = None | Some(value: T)
}

/** Python's `int(text)` for a decimal string, as `exit` applies it to its
    argument, and the decimal rendering that is its inverse. */
module IntText {
  import opened Wrappers
  import opened Words

  predicate IsDigit(c: char) {
    '0' <= c <= '9'
  }

  function DigitValue(c: char): nat
    requires IsDigit(c)
  {
    c as int - '0' as int
  }

  function DigitChar(d: nat): char
    requires d < 10
  {
    ('0' as int + d) as char
  }

  /** Decimal digits with single underscores between them: the digit part
      `int()` accepts (leading zeros allowed). */
  predicate IsNumeral(t: string) {
    |t| > 0 && IsDigit(t[0]) && IsDigit(t[|t| - 1])
    && (forall i | 0 <= i < |t| :: IsDigit(t[i]) || t[i] == '_')
    && (forall i | 0 < i < |t| :: t[i] == '_' ==> t[i - 1] != '_')
  }

  /** What `int()` accepts once the whitespace is stripped: a numeral, with
      or without one leading sign. */
  predicate SignedNumeral(t: string) {
    IsNumeral(t) || (|t| > 0 && (t[0] == '+' || t[0] == '-') && IsNumeral(t[1..]))
  }

  /** Value of a numeral, underscores ignored. */
  function NumeralValue(t: string): nat
    requires forall i | 0 <= i < |t| :: IsDigit(t[i]) || t[i] == '_'
  {
    if t == [] then 0
    else if t[|t| - 1] == '_' then NumeralValue(t[..|t| - 1])
    else 10 * NumeralValue(t[..|t| - 1]) + DigitValue(t[|t| - 1])
  }

  /** `int(s)`: surrounding whitespace is ignored, then an optional sign and
      a numeral; anything else (the empty string included) is a ValueError,
      here `None`. */
  function ParseInt(s: string): (r: Option<int>)
    ensures AllSpace(s) ==> r == None
    ensures r.Some? <==> SignedNumeral(Strip(s))
  {
    if AllSpace(s) then
      assert Strip(s) == [] by { StripAllSpace(s); }
      None
    else ParseSigned(Strip(s))
  }

  /** An optional sign and a numeral, with nothing around them. */
  function ParseSigned(t: string): (r: Option<int>)
    ensures r.Some? <==> SignedNumeral(t)
  {
    if |t| > 0 && (t[0] == '+' || t[0] == '-') then
      var body := t[1..];
      if IsNumeral(body) then
        var v: int := NumeralValue(body);
        Some(if t[0] == '-' then -v else v)
      else None
    else if IsNumeral(t) then Some(NumeralValue(t))
    else None
  }

  /** Decimal digits of a natural number, most significant first. */
  function ShowNat(n: nat): (t: string)
    ensures |t| > 0 && forall i | 0 <= i < |t| :: IsDigit(t[i])
  {
    if n < 10 then [DigitChar(n)] else ShowNat(n / 10) + [DigitChar(n % 10)]
  }

  /** Python's `str(n)` for an integer. */
  function ShowInt(n: int): string {
    if n < 0 then "-" + ShowNat(-n) else ShowNat(n)
  }

  // ---------------------------------------------------------------------
  // Lemmas

  /** Stripping all-whitespace text leaves nothing. */
  lemma {:induction false} StripAllSpace(s: string)
    requires AllSpace(s)
    ensures Strip(s) == []
  {
    if s != [] {
      StripAllSpace(s[1..]);
    }
  }

  lemma {:induction false} NumeralValueShowNat(n: nat)
    ensures NumeralValue(ShowNat(n)) == n
  {
    if n >= 10 {
      var t := ShowNat(n);
      assert t[..|t| - 1] == ShowNat(n / 10);
      NumeralValueShowNat(n / 10);
    }
  }

  /** A digit string has no whitespace. */
  lemma DigitsAreWord(t: string)
    requires |t| > 0 && forall i | 0 <= i < |t| :: IsDigit(t[i])
    ensures IsWord(t)
  {
    forall i | 0 <= i < |t| ensures !IsSpace(t[i]) {
      assert IsDigit(t[i]);
    }
  }

  /** A word has no surrounding whitespace to strip. */
  lemma ParseWord(u: string)
    requires IsWord(u)
    ensures ParseInt(u) == ParseSigned(u)
  {
    StripWord(u);
    assert !IsSpace(u[0]);
  }

  /** An unsigned numeral reads as its value. */
  lemma ParseDigits(t: string)
    requires IsWord(t) && IsNumeral(t)
    ensures ParseInt(t) == Some(NumeralValue(t))
  {
    ParseWord(t);
  }

  /** A minus sign before a word is still a word. */
  lemma SignedWord(t: string)
    requires IsWord(t)
    ensures IsWord("-" + t)
  {
    var u := "-" + t;
    forall i | 0 <= i < |u| ensures !IsSpace(u[i]) {
      if i > 0 { assert u[i] == t[i - 1]; }
    }
  }

  /** Past the whitespace, a minus sign before a numeral negates its value. */
  lemma SignedNegative(t: string)
    requires IsNumeral(t)
    ensures ParseSigned("-" + t) == Some(-(NumeralValue(t) as int))
  {
    var u := "-" + t;
    assert u[0] == '-' && u[1..] == t;
  }

  /** Past the whitespace, a plus sign before a numeral keeps its value. */
  lemma SignedPositive(t: string)
    requires IsNumeral(t)
    ensures ParseSigned("+" + t) == Some(NumeralValue(t))
  {
    var u := "+" + t;
    assert u[0] == '+' && u[1..] == t;
  }

  /** A minus sign before a numeral negates its value. */
  lemma ParseNegated(t: string)
    requires IsWord(t) && IsNumeral(t)
    ensures ParseInt("-" + t) == Some(-(NumeralValue(t) as int))
  {
    SignedWord(t);
    ParseWord("-" + t);
    SignedNegative(t);
  }

  /** Reading back the decimal rendering of any integer gives that integer. */
  lemma ParseShowInt(n: int)
    ensures ParseInt(ShowInt(n)) == Some(n)
  {
    var m := if n < 0 then -n else n;
    var digits := ShowNat(m);
    NumeralValueShowNat(m);
    DigitsAreWord(digits);
    assert IsNumeral(digits);
    if n < 0 {
      ParseNegated(digits);
    } else {
      ParseDigits(digits);
    }
  }
}
