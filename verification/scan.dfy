/** The two hand-written recognisers the ledger uses on a description: the first
    `(\d{2}/\d{2})\s(\d{2}:\d{2})?` and the balance marker `s\s*a\s*l\s*d\s*o`. */
module Scan {
  import opened Wrappers
  import opened Text

  // ---------------------------------------------------------------------------
  // Day/month stamp

  /** `\d{2}/\d{2}\s` starts at `i`. */
  predicate DayMonthAt(s: string, i: nat) {
    && i + 6 <= |s|
    && IsDigit(s[i]) && IsDigit(s[i + 1]) && s[i + 2] == '/'
    && IsDigit(s[i + 3]) && IsDigit(s[i + 4]) && IsSpace(s[i + 5])
  }

  /** `\d{2}:\d{2}` starts at `i`. */
  predicate TimeAt(s: string, i: nat) {
    && i + 5 <= |s|
    && IsDigit(s[i]) && IsDigit(s[i + 1]) && s[i + 2] == ':'
    && IsDigit(s[i + 3]) && IsDigit(s[i + 4])
  }

  /** The two groups of a match: `DD/MM`, and `HH:MM` when the optional group took it. */
  datatype Stamp = Stamp(dayMonth: string, time: Option<string>)

  /** The leftmost position at or after `i` where the pattern matches. */
  function FirstStampFrom(s: string, i: nat): (r: Option<nat>)
    ensures r.Some? ==> i <= r.value && DayMonthAt(s, r.value)
    ensures forall j :: i <= j && (r.None? || j < r.value) ==> !DayMonthAt(s, j)
    decreases |s| - i
  {
    if i + 6 > |s| then None
    else if DayMonthAt(s, i) then Some(i)
    else FirstStampFrom(s, i + 1)
  }

  /** What the pattern captures at a position where it matches: the greedy
      optional group takes the time when one follows. */
  function StampAt(s: string, i: nat): (st: Stamp)
    requires DayMonthAt(s, i)
    ensures st.dayMonth == s[i..i + 5]
  {
    Stamp(s[i..i + 5], if TimeAt(s, i + 6) then Some(s[i + 6..i + 11]) else None)
  }

  /** `str.extract` of the pattern: the groups of the leftmost match, if any. */
  function FindStamp(s: string): (r: Option<Stamp>)
    ensures r.None? <==> forall j :: !DayMonthAt(s, j)
    ensures r.Some? ==>
      exists i: nat :: && DayMonthAt(s, i) && r.value == StampAt(s, i)
                  && forall j :: 0 <= j < i ==> !DayMonthAt(s, j)
  {
    match FirstStampFrom(s, 0)
    case None => None
    case Some(i) =>
      assert forall j :: 0 <= j < i ==> !DayMonthAt(s, j);
      Some(StampAt(s, i))
  }

  /** The captured day/month reads as two two-digit numbers around a slash,
      and the captured time as two around a colon. */
  lemma StampShape(s: string)
    requires FindStamp(s).Some?
    ensures var st := FindStamp(s).value;
      && |st.dayMonth| == 5 && st.dayMonth[2] == '/'
      && AllDigits(st.dayMonth[..2]) && AllDigits(st.dayMonth[3..])
      && (st.time.Some? ==>
            && |st.time.value| == 5 && st.time.value[2] == ':'
            && AllDigits(st.time.value[..2]) && AllDigits(st.time.value[3..]))
  {
  }

  // ---------------------------------------------------------------------------
  // A word with whitespace allowed between its letters

  /** The first position at or after `i` that is not whitespace (or the end). */
  function SkipSpace(s: string, i: nat): (k: nat)
    requires i <= |s|
    ensures i <= k <= |s|
    ensures forall j :: i <= j < k ==> IsSpace(s[j])
    ensures k < |s| ==> !IsSpace(s[k])
    decreases |s| - i
  {
    if i < |s| && IsSpace(s[i]) then SkipSpace(s, i + 1) else i
  }

  predicate NoSpace(w: string) {
    forall k :: 0 <= k < |w| ==> !IsSpace(w[k])
  }

  /** The pattern `w[0]\s*w[1]\s*…w[n-1]` matches at `i`. Since no letter of
      the word is whitespace, the greedy `\s*` never has to give anything back. */
  predicate MatchSpacedAt(s: string, w: string, i: nat)
    requires |w| > 0
    decreases |w|
  {
    i < |s| && s[i] == w[0] && (|w| == 1 || MatchSpacedAt(s, w[1..], SkipSpace(s, i + 1)))
  }

  /** Where such a match ends. */
  function MatchEnd(s: string, w: string, i: nat): (j: nat)
    requires |w| > 0 && MatchSpacedAt(s, w, i)
    ensures i < j <= |s|
    decreases |w|
  {
    if |w| == 1 then i + 1 else MatchEnd(s, w[1..], SkipSpace(s, i + 1))
  }

  /** `re.search(pattern, s)` succeeds from `i` on. */
  predicate ContainsSpacedFrom(s: string, w: string, i: nat)
    requires |w| > 0
    decreases |s| - i
  {
    i < |s| && (MatchSpacedAt(s, w, i) || ContainsSpacedFrom(s, w, i + 1))
  }

  predicate ContainsSpaced(s: string, w: string)
    requires |w| > 0
  {
    ContainsSpacedFrom(s, w, 0)
  }

  /** The text with its whitespace removed. */
  function Squeeze(t: string): (r: string)
    ensures |r| <= |t|
  {
    if |t| == 0 then "" else (if IsSpace(t[0]) then "" else [t[0]]) + Squeeze(t[1..])
  }

  lemma {:induction false} SqueezeAppend(a: string, b: string)
    ensures Squeeze(a + b) == Squeeze(a) + Squeeze(b)
  {
    if |a| > 0 {
      assert (a + b)[1..] == a[1..] + b;
      SqueezeAppend(a[1..], b);
    } else {
      assert a + b == b;
    }
  }

  lemma {:induction false} SqueezeSpaces(t: string)
    requires forall j :: 0 <= j < |t| ==> IsSpace(t[j])
    ensures Squeeze(t) == ""
  {
    if |t| > 0 {
      SqueezeSpaces(t[1..]);
    }
  }

  /** The independent reading: `s[i..j]` starts with the word's first letter,
      ends with its last, and once its whitespace is removed is the word. */
  ghost predicate SpacedWord(s: string, w: string, i: nat, j: nat)
    requires |w| > 0
  {
    i < j <= |s| && s[i] == w[0] && s[j - 1] == w[|w| - 1] && Squeeze(s[i..j]) == w
  }

  /** Splits `s[i..j]` at `k` for `Squeeze`. */
  lemma SqueezeSplit(s: string, i: nat, k: nat, j: nat)
    requires i <= k <= j <= |s|
    ensures Squeeze(s[i..j]) == Squeeze(s[i..k]) + Squeeze(s[k..j])
  {
    assert s[i..j] == s[i..k] + s[k..j];
    SqueezeAppend(s[i..k], s[k..j]);
  }

  lemma SqueezeHead(s: string, i: nat, j: nat)
    requires i < j <= |s| && !IsSpace(s[i])
    ensures Squeeze(s[i..j]) == [s[i]] + Squeeze(s[i + 1..j])
  {
    assert s[i..j][1..] == s[i + 1..j];
  }

  lemma {:induction false} MatchSpacedSound(s: string, w: string, i: nat)
    requires |w| > 0 && NoSpace(w) && MatchSpacedAt(s, w, i)
    ensures SpacedWord(s, w, i, MatchEnd(s, w, i))
    decreases |w|
  {
    var j := MatchEnd(s, w, i);
    if |w| == 1 {
      SqueezeHead(s, i, i + 1);
    } else {
      var k := SkipSpace(s, i + 1);
      var w' := w[1..];
      assert NoSpace(w');
      MatchSpacedSound(s, w', k);
      assert j == MatchEnd(s, w', k);
      SqueezeAfterSpaces(s, i + 1, k, j);
      SqueezeHead(s, i, j);
      assert [w[0]] + w' == w;
      assert w'[|w'| - 1] == w[|w| - 1];
    }
  }

  /** Leading whitespace does not change what `Squeeze` leaves. */
  lemma SqueezeAfterSpaces(s: string, i: nat, k: nat, j: nat)
    requires i <= k <= j <= |s|
    requires forall m :: i <= m < k ==> IsSpace(s[m])
    ensures Squeeze(s[i..j]) == Squeeze(s[k..j])
  {
    SqueezeSplit(s, i, k, j);
    SqueezeSpaces(s[i..k]);
  }

  lemma {:induction false} MatchSpacedComplete(s: string, w: string, i: nat, j: nat)
    requires |w| > 0 && NoSpace(w) && SpacedWord(s, w, i, j)
    ensures MatchSpacedAt(s, w, i)
    decreases |w|
  {
    if |w| > 1 {
      SqueezeHead(s, i, j);
      assert Squeeze(s[i + 1..j]) == w[1..];
      assert i + 1 < j;
      var k := SkipSpace(s, i + 1);
      assert !IsSpace(s[j - 1]);
      assert k <= j - 1;
      SqueezeAfterSpaces(s, i + 1, k, j);
      SqueezeHead(s, k, j);
      assert NoSpace(w[1..]);
      MatchSpacedComplete(s, w[1..], k, j);
    }
  }

  lemma {:induction false} ContainsFromSound(s: string, w: string, i: nat)
    requires |w| > 0 && NoSpace(w) && ContainsSpacedFrom(s, w, i)
    ensures exists a, b :: i <= a && SpacedWord(s, w, a, b)
    decreases |s| - i
  {
    if MatchSpacedAt(s, w, i) {
      MatchSpacedSound(s, w, i);
    } else {
      ContainsFromSound(s, w, i + 1);
    }
  }

  lemma {:induction false} ContainsFromComplete(s: string, w: string, i: nat, a: nat, b: nat)
    requires |w| > 0 && NoSpace(w) && i <= a && SpacedWord(s, w, a, b)
    ensures ContainsSpacedFrom(s, w, i)
    decreases a - i
  {
    if a == i {
      MatchSpacedComplete(s, w, a, b);
    } else {
      ContainsFromComplete(s, w, i + 1, a, b);
    }
  }

  /** The search succeeds exactly when some stretch of the text is the word
      with only whitespace inside it. */
  lemma ContainsSpacedIff(s: string, w: string)
    requires |w| > 0 && NoSpace(w)
    ensures ContainsSpaced(s, w) <==> exists a, b :: SpacedWord(s, w, a, b)
  {
    if ContainsSpaced(s, w) {
      ContainsFromSound(s, w, 0);
    }
    if exists a, b :: SpacedWord(s, w, a, b) {
      var a, b :| SpacedWord(s, w, a, b);
      ContainsFromComplete(s, w, 0, a, b);
    }
  }

  // ---------------------------------------------------------------------------
  // Worked examples

  const StampSample: string := "pix 12/03 14:35"
  const DayMonthSample: string := "12/03"
  const TimeSample: string := "14:35"

  /** The first `DD/MM` and the time right after it are captured. */
  lemma StampExample()
    ensures FindStamp(StampSample) == Some(Stamp(DayMonthSample, Some(TimeSample)))
  {
    var s := StampSample;
    assert !IsDigit(s[0]) && !IsDigit(s[1]) && !IsDigit(s[2]) && !IsDigit(s[3]);
    assert DayMonthAt(s, 4);
    assert FirstStampFrom(s, 0) == Some(4);
    assert TimeAt(s, 10);
    assert s[4..9] == DayMonthSample && s[10..15] == TimeSample;
  }

  const SpacedSample: string := "s a l d o anterior"
  const Word: string := "saldo"

  /** Letters set apart by blanks still spell the word. */
  lemma SpacedExample()
    ensures ContainsSpaced(SpacedSample, Word)
  {
    var s, w := SpacedSample, Word;
    assert |s| == 18 && |w| == 5;
    assert s[0] == w[0] && s[2] == w[1] && s[4] == w[2] && s[6] == w[3] && s[8] == w[4];
    assert s[1] == ' ' && s[3] == ' ' && s[5] == ' ' && s[7] == ' ';
    SpacedFive(s, w);
  }

  /** A five-letter word written with one blank between its letters. */
  lemma SpacedFive(s: string, w: string)
    requires |w| == 5 && NoSpace(w) && |s| >= 9
    requires s[0] == w[0] && s[2] == w[1] && s[4] == w[2] && s[6] == w[3] && s[8] == w[4]
    requires IsSpace(s[1]) && IsSpace(s[3]) && IsSpace(s[5]) && IsSpace(s[7])
    ensures ContainsSpaced(s, w)
  {
    assert !IsSpace(w[1]) && !IsSpace(w[2]) && !IsSpace(w[3]) && !IsSpace(w[4]);
    assert SkipSpace(s, 1) == 2 && SkipSpace(s, 3) == 4 && SkipSpace(s, 5) == 6 && SkipSpace(s, 7) == 8;
    assert w[4..][0] == w[4] && |w[4..]| == 1;
    assert MatchSpacedAt(s, w[4..], 8);
    assert w[3..][1..] == w[4..];
    assert MatchSpacedAt(s, w[3..], 6);
    assert w[2..][1..] == w[3..];
    assert MatchSpacedAt(s, w[2..], 4);
    assert w[1..][1..] == w[2..];
    assert MatchSpacedAt(s, w[1..], 2);
    assert MatchSpacedAt(s, w, 0);
  }
}
