/** `remove_acentuacao`: compatibility decomposition (NFKD) followed by an
    encode/decode round trip through Latin-1 that silently drops every
    character the encoding cannot represent, which removes the combining marks
    the decomposition split off. */
module Accents {
  import opened Wrappers
  import opened Text

  /** The only encoding the operation accepts. */
  const Latin1: string := "latin-1"

  /** `NotImplementedError`, raised for any other encoding before any work is done. */
  datatype EncodingError = NotImplemented(encoding: string)

  const Grave := '\U{0300}'
  const Acute := '\U{0301}'
  const Circumflex := '\U{0302}'
  const Tilde := '\U{0303}'
  const Macron := '\U{0304}'
  const Diaeresis := '\U{0308}'
  const Ring := '\U{030A}'
  const Cedilla := '\U{0327}'
  const FractionSlash := '\U{2044}'

  /** The accents carried by a run of consecutive code points sharing one base letter. */
  const AMarks: seq<char> := [Grave, Acute, Circumflex, Tilde, Diaeresis, Ring]
  const OMarks: seq<char> := [Grave, Acute, Circumflex, Tilde, Diaeresis]
  const EiuMarks: seq<char> := [Grave, Acute, Circumflex, Diaeresis]

  predicate InLatin1(c: char) {
    c as int <= 0xFF
  }

  predicate IsAscii(s: string) {
    forall i :: 0 <= i < |s| ==> s[i] as int < 0x80
  }

  /** Letter `base` followed by the mark of `c`'s place in the run that starts at `first`. */
  function Accented(base: char, marks: seq<char>, first: char, c: char): (d: string)
    requires first <= c && c as int - first as int < |marks|
    requires base as int < 0x80 && forall k :: 0 <= k < |marks| ==> !InLatin1(marks[k])
    ensures |d| == 2 && d[0] == base && d[0] as int < 0x80 && !InLatin1(d[1])
  {
    [base, marks[c as int - first as int]]
  }

  /** NFKD of one character, for the Latin-1 block (plus the capital Y with
      diaeresis that `str.upper` produces from U+00FF). Every other character
      is its own decomposition. */
  function Decompose(c: char): (d: string)
    ensures |d| >= 1
    ensures d == [c] || forall i :: 0 <= i < |d| ==> d[i] as int < 0x80 || !InLatin1(d[i])
  {
    if '\U{00C0}' <= c <= '\U{00FF}' || c == '\U{0178}' then DecomposeLetter(c)
    else if '\U{00A0}' <= c <= '\U{00BE}' then DecomposeSymbol(c)
    else [c]
  }

  /** The accented letters: an ASCII base letter and a combining mark. */
  function DecomposeLetter(c: char): (d: string)
    ensures |d| >= 1
    ensures d == [c] || forall i :: 0 <= i < |d| ==> d[i] as int < 0x80 || !InLatin1(d[i])
  {
    if '\U{00E0}' <= c <= '\U{00FF}' then DecomposeLower(c) else DecomposeUpper(c)
  }

  function DecomposeUpper(c: char): (d: string)
    ensures |d| >= 1
    ensures d == [c] || forall i :: 0 <= i < |d| ==> d[i] as int < 0x80 || !InLatin1(d[i])
  {
    if '\U{00C0}' <= c <= '\U{00C5}' then Accented('A', AMarks, '\U{00C0}', c)
    else if c == '\U{00C7}' then ['C', Cedilla]
    else if '\U{00C8}' <= c <= '\U{00CB}' then Accented('E', EiuMarks, '\U{00C8}', c)
    else if '\U{00CC}' <= c <= '\U{00CF}' then Accented('I', EiuMarks, '\U{00CC}', c)
    else if c == '\U{00D1}' then ['N', Tilde]
    else if '\U{00D2}' <= c <= '\U{00D6}' then Accented('O', OMarks, '\U{00D2}', c)
    else if '\U{00D9}' <= c <= '\U{00DC}' then Accented('U', EiuMarks, '\U{00D9}', c)
    else if c == '\U{00DD}' then ['Y', Acute]
    else if c == '\U{0178}' then ['Y', Diaeresis]
    else [c]
  }

  function DecomposeLower(c: char): (d: string)
    ensures |d| >= 1
    ensures d == [c] || forall i :: 0 <= i < |d| ==> d[i] as int < 0x80 || !InLatin1(d[i])
  {
    if '\U{00E0}' <= c <= '\U{00E5}' then Accented('a', AMarks, '\U{00E0}', c)
    else if c == '\U{00E7}' then ['c', Cedilla]
    else if '\U{00E8}' <= c <= '\U{00EB}' then Accented('e', EiuMarks, '\U{00E8}', c)
    else if '\U{00EC}' <= c <= '\U{00EF}' then Accented('i', EiuMarks, '\U{00EC}', c)
    else if c == '\U{00F1}' then ['n', Tilde]
    else if '\U{00F2}' <= c <= '\U{00F6}' then Accented('o', OMarks, '\U{00F2}', c)
    else if '\U{00F9}' <= c <= '\U{00FC}' then Accented('u', EiuMarks, '\U{00F9}', c)
    else if c == '\U{00FD}' then ['y', Acute]
    else if c == '\U{00FF}' then ['y', Diaeresis]
    else [c]
  }

  /** The compatibility decompositions of the Latin-1 symbols. */
  function DecomposeSymbol(c: char): (d: string)
    ensures |d| >= 1
    ensures d == [c] || forall i :: 0 <= i < |d| ==> d[i] as int < 0x80 || !InLatin1(d[i])
  {
    if c == '\U{00A0}' then " "
    else if c == '\U{00A8}' then [' ', Diaeresis]
    else if c == '\U{00AA}' then "a"
    else if c == '\U{00AF}' then [' ', Macron]
    else if c == '\U{00B2}' then "2"
    else if c == '\U{00B3}' then "3"
    else if c == '\U{00B4}' then [' ', Acute]
    else if c == '\U{00B5}' then "\U{03BC}"
    else if c == '\U{00B8}' then [' ', Cedilla]
    else if c == '\U{00B9}' then "1"
    else if c == '\U{00BA}' then "o"
    else if c == '\U{00BC}' then ['1', FractionSlash, '4']
    else if c == '\U{00BD}' then ['1', FractionSlash, '2']
    else if c == '\U{00BE}' then ['3', FractionSlash, '4']
    else [c]
  }

  /** `encode('latin-1', 'ignore').decode('latin-1')`: the characters above U+00FF vanish. */
  function KeepLatin1(s: string): (r: string)
    ensures |r| <= |s|
    ensures forall i :: 0 <= i < |r| ==> InLatin1(r[i])
    ensures forall i :: 0 <= i < |s| && InLatin1(s[i]) ==> s[i] in r
    ensures forall x :: x in r ==> x in s
  {
    if |s| == 0 then ""
    else if InLatin1(s[0]) then [s[0]] + KeepLatin1(s[1..])
    else KeepLatin1(s[1..])
  }

  function StripChar(c: char): string {
    KeepLatin1(Decompose(c))
  }

  /** Decomposition and Latin-1 filtering of a whole string; both work character by character. */
  function Strip(s: string): (r: string)
    ensures forall i :: 0 <= i < |r| ==> InLatin1(r[i])
  {
    if |s| == 0 then "" else StripChar(s[0]) + Strip(s[1..])
  }

  /** `remove_acentuacao(s, encoding)`. */
  function RemoveAccents(s: string, encoding: string): (r: Result<string, EncodingError>)
    ensures r.Failure? <==> encoding != Latin1
    ensures r.Failure? ==> r.error == NotImplemented(encoding)
    ensures r.Success? ==> forall i :: 0 <= i < |r.value| ==> InLatin1(r.value[i])
    ensures r.Success? ==> forall i :: 0 <= i < |r.value| ==> r.value[i] !in UpperBase && r.value[i] !in LowerBase
    ensures r.Success? && IsAscii(s) ==> r.value == s
  {
    if encoding != Latin1 then Failure(NotImplemented(encoding))
    else
      AsciiFixed(s);
      StripLeavesNoAccent(s);
      Success(Strip(s))
  }

  /** The accented letters of Latin-1 (and the capital Y with diaeresis), each
      with the unaccented letter it is written with, one entry per code point
      as the Unicode character database lists them. */
  const UpperBase: map<char, char> := map[
    '\U{00C0}' := 'A', '\U{00C1}' := 'A', '\U{00C2}' := 'A', '\U{00C3}' := 'A', '\U{00C4}' := 'A', '\U{00C5}' := 'A',
    '\U{00C7}' := 'C',
    '\U{00C8}' := 'E', '\U{00C9}' := 'E', '\U{00CA}' := 'E', '\U{00CB}' := 'E',
    '\U{00CC}' := 'I', '\U{00CD}' := 'I', '\U{00CE}' := 'I', '\U{00CF}' := 'I',
    '\U{00D1}' := 'N',
    '\U{00D2}' := 'O', '\U{00D3}' := 'O', '\U{00D4}' := 'O', '\U{00D5}' := 'O', '\U{00D6}' := 'O',
    '\U{00D9}' := 'U', '\U{00DA}' := 'U', '\U{00DB}' := 'U', '\U{00DC}' := 'U',
    '\U{00DD}' := 'Y', '\U{0178}' := 'Y']

  const LowerBase: map<char, char> := map[
    '\U{00E0}' := 'a', '\U{00E1}' := 'a', '\U{00E2}' := 'a', '\U{00E3}' := 'a', '\U{00E4}' := 'a', '\U{00E5}' := 'a',
    '\U{00E7}' := 'c',
    '\U{00E8}' := 'e', '\U{00E9}' := 'e', '\U{00EA}' := 'e', '\U{00EB}' := 'e',
    '\U{00EC}' := 'i', '\U{00ED}' := 'i', '\U{00EE}' := 'i', '\U{00EF}' := 'i',
    '\U{00F1}' := 'n',
    '\U{00F2}' := 'o', '\U{00F3}' := 'o', '\U{00F4}' := 'o', '\U{00F5}' := 'o', '\U{00F6}' := 'o',
    '\U{00F9}' := 'u', '\U{00FA}' := 'u', '\U{00FB}' := 'u', '\U{00FC}' := 'u',
    '\U{00FD}' := 'y', '\U{00FF}' := 'y']

  /** Every accented capital comes out as its unaccented capital. */
  lemma StripsAccentedCapital(c: char)
    requires c in UpperBase
    ensures RemoveAccents([c], Latin1) == Success([UpperBase[c]])
  {
    UpperLetterStrips(c);
    StripOne(c);
  }

  /** Every accented small letter comes out as its unaccented small letter. */
  lemma StripsAccentedSmall(c: char)
    requires c in LowerBase
    ensures RemoveAccents([c], Latin1) == Success([LowerBase[c]])
  {
    LowerLetterStrips(c);
    StripOne(c);
  }

  lemma StripOne(c: char)
    ensures Strip([c]) == StripChar(c)
  {
    assert [c][1..] == [];
  }

  lemma UpperLetterStrips(c: char)
    requires c in UpperBase
    ensures StripChar(c) == [UpperBase[c]]
  {
    UpperRuns(c);
    if '\U{00C0}' <= c <= '\U{00C5}' {
      RunLetter(c, 'A', AMarks, '\U{00C0}');
    } else if '\U{00C8}' <= c <= '\U{00CB}' {
      RunLetter(c, 'E', EiuMarks, '\U{00C8}');
    } else if '\U{00CC}' <= c <= '\U{00CF}' {
      RunLetter(c, 'I', EiuMarks, '\U{00CC}');
    } else if '\U{00D2}' <= c <= '\U{00D6}' {
      RunLetter(c, 'O', OMarks, '\U{00D2}');
    } else if '\U{00D9}' <= c <= '\U{00DC}' {
      RunLetter(c, 'U', EiuMarks, '\U{00D9}');
    } else if c == '\U{00C7}' {
      LetterWithMark(c, 'C', Cedilla);
    } else if c == '\U{00D1}' {
      LetterWithMark(c, 'N', Tilde);
    } else if c == '\U{00DD}' {
      LetterWithMark(c, 'Y', Acute);
    } else {
      LetterWithMark(c, 'Y', Diaeresis);
    }
  }

  lemma LowerLetterStrips(c: char)
    requires c in LowerBase
    ensures StripChar(c) == [LowerBase[c]]
  {
    LowerRuns(c);
    if '\U{00E0}' <= c <= '\U{00E5}' {
      RunLetter(c, 'a', AMarks, '\U{00E0}');
    } else if '\U{00E8}' <= c <= '\U{00EB}' {
      RunLetter(c, 'e', EiuMarks, '\U{00E8}');
    } else if '\U{00EC}' <= c <= '\U{00EF}' {
      RunLetter(c, 'i', EiuMarks, '\U{00EC}');
    } else if '\U{00F2}' <= c <= '\U{00F6}' {
      RunLetter(c, 'o', OMarks, '\U{00F2}');
    } else if '\U{00F9}' <= c <= '\U{00FC}' {
      RunLetter(c, 'u', EiuMarks, '\U{00F9}');
    } else if c == '\U{00E7}' {
      LetterWithMark(c, 'c', Cedilla);
    } else if c == '\U{00F1}' {
      LetterWithMark(c, 'n', Tilde);
    } else if c == '\U{00FD}' {
      LetterWithMark(c, 'y', Acute);
    } else {
      LetterWithMark(c, 'y', Diaeresis);
    }
  }

  /** Where each capital of the table sits among the runs of the decomposition. */
  lemma UpperRuns(c: char)
    requires c in UpperBase
    ensures '\U{00C0}' <= c <= '\U{00C5}' ==> UpperBase[c] == 'A'
    ensures '\U{00C8}' <= c <= '\U{00CB}' ==> UpperBase[c] == 'E'
    ensures '\U{00CC}' <= c <= '\U{00CF}' ==> UpperBase[c] == 'I'
    ensures '\U{00D2}' <= c <= '\U{00D6}' ==> UpperBase[c] == 'O'
    ensures '\U{00D9}' <= c <= '\U{00DC}' ==> UpperBase[c] == 'U'
    ensures c == '\U{00C7}' ==> UpperBase[c] == 'C'
    ensures c == '\U{00D1}' ==> UpperBase[c] == 'N'
    ensures c == '\U{00DD}' || c == '\U{0178}' ==> UpperBase[c] == 'Y'
    ensures '\U{00C0}' <= c <= '\U{00DD}' || c == '\U{0178}'
  {
  }

  lemma LowerRuns(c: char)
    requires c in LowerBase
    ensures '\U{00E0}' <= c <= '\U{00E5}' ==> LowerBase[c] == 'a'
    ensures '\U{00E8}' <= c <= '\U{00EB}' ==> LowerBase[c] == 'e'
    ensures '\U{00EC}' <= c <= '\U{00EF}' ==> LowerBase[c] == 'i'
    ensures '\U{00F2}' <= c <= '\U{00F6}' ==> LowerBase[c] == 'o'
    ensures '\U{00F9}' <= c <= '\U{00FC}' ==> LowerBase[c] == 'u'
    ensures c == '\U{00E7}' ==> LowerBase[c] == 'c'
    ensures c == '\U{00F1}' ==> LowerBase[c] == 'n'
    ensures c == '\U{00FD}' || c == '\U{00FF}' ==> LowerBase[c] == 'y'
    ensures '\U{00E0}' <= c <= '\U{00FF}'
  {
  }

  /** A letter of a run loses its mark and keeps the run's base letter. */
  lemma RunLetter(c: char, base: char, marks: seq<char>, first: char)
    requires first <= c && c as int - first as int < |marks|
    requires base as int < 0x80 && forall k :: 0 <= k < |marks| ==> !InLatin1(marks[k])
    requires Decompose(c) == Accented(base, marks, first, c)
    ensures StripChar(c) == [base]
  {
    var d := Decompose(c);
    LetterWithMark(c, base, d[1]);
  }

  /** So an accented letter is never left alone. */
  lemma AccentedUnstable(c: char)
    requires c in UpperBase || c in LowerBase
    ensures !Stable(c)
  {
    if c in UpperBase {
      UpperLetterStrips(c);
      UpperRuns(c);
    } else {
      LowerLetterStrips(c);
      LowerRuns(c);
    }
  }

  lemma StripLeavesNoAccent(s: string)
    ensures forall i :: 0 <= i < |Strip(s)| ==> Strip(s)[i] !in UpperBase && Strip(s)[i] !in LowerBase
  {
    StripOutputStable(s);
    forall i | 0 <= i < |Strip(s)|
      ensures Strip(s)[i] !in UpperBase && Strip(s)[i] !in LowerBase
    {
      if Strip(s)[i] in UpperBase || Strip(s)[i] in LowerBase {
        AccentedUnstable(Strip(s)[i]);
      }
    }
  }

  lemma {:induction false} AsciiFixed(s: string)
    ensures IsAscii(s) ==> Strip(s) == s
  {
    if |s| > 0 && IsAscii(s) {
      AsciiStable(s[0]);
      assert IsAscii(s[1..]);
      AsciiFixed(s[1..]);
    }
  }

  lemma AsciiStable(c: char)
    requires c as int < 0x80
    ensures Stable(c)
  {
    assert Decompose(c) == [c];
  }

  lemma {:induction false} StripAppend(a: string, b: string)
    ensures Strip(a + b) == Strip(a) + Strip(b)
  {
    if |a| == 0 {
      assert a + b == b;
    } else {
      assert (a + b)[1..] == a[1..] + b;
      StripAppend(a[1..], b);
    }
  }

  /** A character the operation leaves alone. */
  predicate Stable(c: char) {
    StripChar(c) == [c]
  }

  /** The decomposition table only ever yields ASCII characters or characters above U+00FF. */
  lemma KeepLatin1Members(s: string)
    ensures forall x :: x in KeepLatin1(s) ==> x in s && InLatin1(x)
  {
  }

  /** Every character the stripper emits is itself left alone by it. */
  lemma StripCharOutputStable(c: char)
    ensures forall i :: 0 <= i < |StripChar(c)| ==> Stable(StripChar(c)[i])
  {
    var d := Decompose(c);
    KeepLatin1Members(d);
    if d == [c] {
      if InLatin1(c) {
        assert KeepLatin1(d) == [c] + KeepLatin1([]);
        assert Stable(c);
      } else {
        assert StripChar(c) == [];
      }
    } else {
      forall i | 0 <= i < |StripChar(c)|
        ensures Stable(StripChar(c)[i])
      {
        var x := StripChar(c)[i];
        assert x in d && InLatin1(x);
        AsciiStable(x);
      }
    }
  }

  lemma {:induction false} StripOutputStable(s: string)
    ensures forall i :: 0 <= i < |Strip(s)| ==> Stable(Strip(s)[i])
  {
    if |s| > 0 {
      StripCharOutputStable(s[0]);
      StripOutputStable(s[1..]);
      var a, b := StripChar(s[0]), Strip(s[1..]);
      forall i | 0 <= i < |a + b|
        ensures Stable((a + b)[i])
      {
        if i >= |a| {
          assert (a + b)[i] == b[i - |a|];
        }
      }
    }
  }

  lemma {:induction false} StableFixed(s: string)
    requires forall i :: 0 <= i < |s| ==> Stable(s[i])
    ensures Strip(s) == s
  {
    if |s| > 0 {
      assert Stable(s[0]);
      StableFixed(s[1..]);
    }
  }

  /** Removing the accents a second time changes nothing. */
  lemma RemoveAccentsIdempotent(s: string)
    ensures RemoveAccents(s, Latin1).Success?
    ensures RemoveAccents(RemoveAccents(s, Latin1).value, Latin1) == RemoveAccents(s, Latin1)
  {
    StripOutputStable(s);
    StableFixed(Strip(s));
  }

  lemma LetterWithMark(c: char, b: char, m: char)
    requires Decompose(c) == [b, m] && InLatin1(b) && !InLatin1(m)
    ensures StripChar(c) == [b]
  {
    var d := Decompose(c);
    assert d[1..] == [m] && d[1..][1..] == [];
    assert KeepLatin1(d[1..]) == KeepLatin1(d[1..][1..]) == "";
    assert KeepLatin1(d) == [d[0]] + KeepLatin1(d[1..]);
  }

  lemma StripCons(s: string, k: nat)
    requires k < |s|
    ensures Strip(s[k..]) == StripChar(s[k]) + Strip(s[k + 1..])
  {
    assert s[k..][1..] == s[k + 1..];
  }

  /** Acute a, circumflex E, diaeresis i, tilde O, grave u and cedilla c. */
  const AccentedSample: string := "\U{00E1}\U{00CA}\U{00EF}\U{00D5}\U{00F9}\U{00E7}"

  lemma StripSample()
    ensures Strip(AccentedSample) == "aEiOuc"
  {
    SampleLetters(AccentedSample);
    StripWord(AccentedSample);
  }

  lemma StripWord(s: string)
    requires |s| == 6
    requires StripChar(s[0]) == "a" && StripChar(s[1]) == "E" && StripChar(s[2]) == "i"
    requires StripChar(s[3]) == "O" && StripChar(s[4]) == "u" && StripChar(s[5]) == "c"
    ensures Strip(s) == "aEiOuc"
  {
    StripSix(s);
    Spell();
  }

  lemma Spell()
    ensures "a" + ("E" + ("i" + ("O" + ("u" + "c")))) == "aEiOuc"
  {
    assert "u" + "c" == "uc";
    assert "O" + "uc" == "Ouc";
    assert "i" + "Ouc" == "iOuc";
    assert "E" + "iOuc" == "EiOuc";
  }

  lemma SampleLetters(s: string)
    requires s == AccentedSample
    ensures |s| == 6
    ensures StripChar(s[0]) == "a" && StripChar(s[1]) == "E" && StripChar(s[2]) == "i"
    ensures StripChar(s[3]) == "O" && StripChar(s[4]) == "u" && StripChar(s[5]) == "c"
  {
    assert s[0] == '\U{00E1}' && s[1] == '\U{00CA}' && s[2] == '\U{00EF}';
    assert s[3] == '\U{00D5}' && s[4] == '\U{00F9}' && s[5] == '\U{00E7}';
    LowerLetters();
    UpperLetters();
  }

  lemma LowerLetters()
    ensures StripChar('\U{00E1}') == "a" && StripChar('\U{00EF}') == "i"
    ensures StripChar('\U{00F9}') == "u" && StripChar('\U{00E7}') == "c"
  {
    LetterWithMark('\U{00E1}', 'a', Acute);
    LetterWithMark('\U{00EF}', 'i', Diaeresis);
    LetterWithMark('\U{00F9}', 'u', Grave);
    LetterWithMark('\U{00E7}', 'c', Cedilla);
  }

  lemma UpperLetters()
    ensures StripChar('\U{00CA}') == "E" && StripChar('\U{00D5}') == "O"
  {
    LetterWithMark('\U{00CA}', 'E', Circumflex);
    LetterWithMark('\U{00D5}', 'O', Tilde);
  }

  lemma StripSix(s: string)
    requires |s| == 6
    ensures Strip(s) == StripChar(s[0]) + (StripChar(s[1]) + (StripChar(s[2])
                        + (StripChar(s[3]) + (StripChar(s[4]) + StripChar(s[5])))))
  {
    assert s[6..] == [];
    StripCons(s, 5);
    assert Strip(s[5..]) == StripChar(s[5]);
    StripCons(s, 4);
    StripCons(s, 3);
    StripCons(s, 2);
    StripCons(s, 1);
    StripCons(s, 0);
    assert s[0..] == s;
  }

  /** The accented vowels and the cedilla lose their marks and keep their case. */
  lemma RemoveAccentsExample()
    ensures RemoveAccents(AccentedSample, Latin1) == Success("aEiOuc")
  {
    StripSample();
  }

  /** Any encoding name other than "latin-1" fails, with no result at all. */
  lemma OtherEncodingFails()
    ensures RemoveAccents("\U{00E0}", "utf-8") == Failure(NotImplemented("utf-8"))
  {
  }
}
