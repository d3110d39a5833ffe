/** Character classes, Python-style slicing and the Latin-1 part of Python's
    `str.lower`/`str.upper`, on which every other module builds. */
module Text {

  /** `\d` of Python's `re` on text that holds no character above U+00FF:
      Latin-1 has no decimal digit besides the ASCII ones. */
  predicate IsDigit(c: char) {
    '0' <= c <= '9'
  }

  predicate AllDigits(s: string) {
    forall i :: 0 <= i < |s| ==> IsDigit(s[i])
  }

  /** `\s` of Python's `re` on `str` patterns: the characters `str.isspace` accepts. */
  predicate IsSpace(c: char) {
    || c == ' ' || c == '\t' || c == '\n' || c == '\r'
    || c == '\U{000B}' || c == '\U{000C}'
    || ('\U{001C}' <= c <= '\U{001F}')
    || c == '\U{0085}' || c == '\U{00A0}' || c == '\U{1680}'
    || ('\U{2000}' <= c <= '\U{200A}')
    || c == '\U{2028}' || c == '\U{2029}' || c == '\U{202F}'
    || c == '\U{205F}' || c == '\U{3000}'
  }

  function Pow10(n: nat): (p: nat)
    ensures p >= 1
  {
    if n == 0 then 1 else 10 * Pow10(n - 1)
  }

  function DigitValue(c: char): (d: nat)
    requires IsDigit(c)
    ensures d <= 9
  {
    c as int - '0' as int
  }

  /** The number a string of decimal digits denotes (0 for the empty string). */
  function DigitsValue(s: string): (v: nat)
    requires AllDigits(s)
  {
    if |s| == 0 then 0 else DigitsValue(s[..|s| - 1]) * 10 + DigitValue(s[|s| - 1])
  }

  lemma AllDigitsAppend(a: string, b: string)
    requires AllDigits(a) && AllDigits(b)
    ensures AllDigits(a + b)
  {
    forall i | 0 <= i < |a + b|
      ensures IsDigit((a + b)[i])
    {
      if i >= |a| {
        assert (a + b)[i] == b[i - |a|];
      }
    }
  }

  lemma ShiftDigit(x: int, p: int, y: int, d: int)
    ensures (x * p + y) * 10 + d == x * (10 * p) + (y * 10 + d)
  {
  }

  lemma {:induction false} DigitsValueAppend(a: string, b: string)
    requires AllDigits(a) && AllDigits(b)
    ensures AllDigits(a + b)
    ensures DigitsValue(a + b) == DigitsValue(a) * Pow10(|b|) + DigitsValue(b)
  {
    AllDigitsAppend(a, b);
    if |b| == 0 {
      assert a + b == a;
    } else {
      var b' := b[..|b| - 1];
      AllDigitsAppend(a, b');
      var ab := a + b;
      assert ab[..|ab| - 1] == a + b';
      DigitsValueAppend(a, b');
      ShiftDigit(DigitsValue(a), Pow10(|b'|), DigitsValue(b'), DigitValue(b[|b| - 1]));
    }
  }

  /** Python's `int()` on a string, without the surrounding whitespace and
      digit-group underscores it also tolerates. */
  function ParseInt(s: string): (r: Option<int>)
    ensures r.Some? <==>
      (|s| > 0 && AllDigits(s)) || (|s| > 1 && (s[0] == '-' || s[0] == '+') && AllDigits(s[1..]))
    ensures r.Some? && |s| > 0 && AllDigits(s) ==> r.value == DigitsValue(s)
    ensures r.Some? && s[0] == '-' ==> r.value == -(DigitsValue(s[1..]) as int)
    ensures r.Some? && s[0] == '+' ==> r.value == DigitsValue(s[1..])
  {
    if |s| > 0 && AllDigits(s) then Some(DigitsValue(s))
    else if |s| > 1 && s[0] == '-' && AllDigits(s[1..]) then Some(0 - DigitsValue(s[1..]) as int)
    else if |s| > 1 && s[0] == '+' && AllDigits(s[1..]) then Some(DigitsValue(s[1..]))
    else None
  }

  /** The position Python uses for a slice bound `n` on a sequence of length `len`:
      negative bounds count from the end, and both are clamped to `0..len`. */
  function SliceBound(n: int, len: nat): (k: nat)
    ensures k <= len
    ensures 0 <= n <= len ==> k == n
    ensures -(len as int) <= n < 0 ==> k == len + n
  {
    if n < 0 then (if len + n < 0 then 0 else len + n)
    else if n > len then len
    else n
  }

  /** Python's `s[start:stop]`; never fails, an empty or reversed range gives "". */
  function PySlice(s: string, start: int, stop: int): (r: string)
    ensures |r| <= |s|
    ensures
      var a, b := SliceBound(start, |s|), SliceBound(stop, |s|);
      a <= b ==> r == s[a..b]
    ensures SliceBound(start, |s|) >= SliceBound(stop, |s|) ==> r == ""
  {
    var a, b := SliceBound(start, |s|), SliceBound(stop, |s|);
    if a <= b then s[a..b] else ""
  }

  /** Python's `s[start:]`. */
  function PySliceFrom(s: string, start: int): (r: string)
    ensures r == s[SliceBound(start, |s|)..]
  {
    PySlice(s, start, |s|)
  }

  import opened Wrappers

  predicate IsAsciiUpper(c: char) { 'A' <= c <= 'Z' }
  predicate IsAsciiLower(c: char) { 'a' <= c <= 'z' }

  /** Python's `str.lower` on one Latin-1 character (and the capital Y with
      diaeresis, whose small letter is in Latin-1). */
  function LowerChar(c: char): char {
    if 'A' <= c <= 'Z' || ('\U{00C0}' <= c <= '\U{00DE}' && c != '\U{00D7}') then
      (c as int + 32) as char
    else if c == '\U{0178}' then '\U{00FF}'
    else c
  }

  /** Python's `str.lower` for text of Latin-1 characters: character by
      character, and no capital ASCII letter is left. */
  function Lower(s: string): (r: string)
    ensures |r| == |s|
    ensures forall i :: 0 <= i < |s| ==> r[i] == LowerChar(s[i])
    ensures forall i :: 0 <= i < |r| ==> !IsAsciiUpper(r[i])
  {
    seq(|s|, i requires 0 <= i < |s| => LowerChar(s[i]))
  }

  /** Lower-casing lower-cased text changes nothing. */
  lemma LowerIdempotent(s: string)
    ensures Lower(Lower(s)) == Lower(s)
  {
    var t := Lower(s);
    forall i | 0 <= i < |s|
      ensures Lower(t)[i] == t[i]
    {
      LowerCharStable(s[i]);
    }
  }

  lemma LowerCharStable(c: char)
    ensures LowerChar(LowerChar(c)) == LowerChar(c)
  {
  }

  /** `c` is the small letter of some other character under `LowerChar`. */
  predicate HasCapital(c: char) {
    exists u :: u != c && LowerChar(u) == c
  }

  /** Python's `str.upper` on one Latin-1 character: the character with the
      same lower case, and the capital one whenever there is a capital; the
      sharp s becomes "SS" and the micro sign the Greek capital mu. */
  function UpperChar(c: char): (r: string)
    ensures 1 <= |r| <= 2
    ensures forall i :: 0 <= i < |r| ==> !IsAsciiLower(r[i])
    ensures c == '\U{00DF}' ==> r == "SS"
    ensures c == '\U{00B5}' ==> r == "\U{039C}"
    ensures c != '\U{00DF}' && c != '\U{00B5}' ==> |r| == 1 && LowerChar(r[0]) == LowerChar(c)
    ensures c != '\U{00DF}' && c != '\U{00B5}' && HasCapital(LowerChar(c)) ==> r[0] != LowerChar(c)
  {
    if 'a' <= c <= 'z' || ('\U{00E0}' <= c <= '\U{00FE}' && c != '\U{00F7}') then
      [(c as int - 32) as char]
    else if c == '\U{00FF}' then "\U{0178}"
    else if c == '\U{00B5}' then "\U{039C}"
    else if c == '\U{00DF}' then "SS"
    else [c]
  }

  /** Python's `str.upper` for text of Latin-1 characters: no small ASCII
      letter is left, only the sharp s lengthens the text, and without it
      every character is upper-cased in its place. */
  function Upper(s: string): (r: string)
    ensures |s| <= |r| <= 2 * |s|
    ensures forall i :: 0 <= i < |r| ==> !IsAsciiLower(r[i])
    ensures (forall i :: 0 <= i < |s| ==> s[i] != '\U{00DF}') ==>
      |r| == |s| && forall i :: 0 <= i < |s| ==> [r[i]] == UpperChar(s[i])
  {
    if |s| == 0 then "" else UpperChar(s[0]) + Upper(s[1..])
  }

  /** Upper case and lower case agree on letters: lower-casing the upper-cased
      text gives the lower-cased text, for text without the sharp s and the
      micro sign, whose capitals lie outside Latin-1. */
  lemma LowerUpper(s: string)
    requires forall i :: 0 <= i < |s| ==> s[i] != '\U{00DF}' && s[i] != '\U{00B5}'
    ensures Lower(Upper(s)) == Lower(s)
  {
  }

  /** The sharp s upper-cases to two letters, as in the word "straße". */
  lemma UpperSharpS()
    ensures Upper("stra\U{00DF}e") == "STRASSE"
  {
  }

  /** Every character `str.upper` emits is its own upper case. */
  lemma UpperCharStable(c: char)
    ensures forall i :: 0 <= i < |UpperChar(c)| ==> UpperChar(UpperChar(c)[i]) == [UpperChar(c)[i]]
  {
  }

  lemma {:induction false} UpperAppend(a: string, b: string)
    ensures Upper(a + b) == Upper(a) + Upper(b)
  {
    if |a| == 0 {
      assert a + b == b;
    } else {
      assert (a + b)[0] == a[0] && (a + b)[1..] == a[1..] + b;
      UpperAppend(a[1..], b);
    }
  }

  lemma {:induction false} UpperFixed(t: string)
    requires forall i :: 0 <= i < |t| ==> UpperChar(t[i]) == [t[i]]
    ensures Upper(t) == t
  {
    if |t| > 0 {
      UpperFixed(t[1..]);
      assert t == [t[0]] + t[1..];
    }
  }

  /** Upper-casing upper-cased text changes nothing. */
  lemma {:induction false} UpperIdempotent(s: string)
    ensures Upper(Upper(s)) == Upper(s)
  {
    if |s| > 0 {
      var a, b := UpperChar(s[0]), Upper(s[1..]);
      assert Upper(s) == a + b;
      UpperAppend(a, b);
      UpperCharStable(s[0]);
      UpperFixed(a);
      UpperIdempotent(s[1..]);
    }
  }

  /** `t` occurs in `s` at position `i`. */
  predicate OccursAt(s: string, t: string, i: nat) {
    i + |t| <= |s| && s[i..i + |t|] == t
  }
}
