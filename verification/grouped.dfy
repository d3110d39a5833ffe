/** `__re_brl` allows one thousands group only: `(?:\d{1,3}\.)?` before the
    digit run. An amount of a million or more, written `1.234.567,89`, has two,
    so no capture of the pattern starts at it and the field search that expects
    it finds nothing. This module keeps the pattern as written (`Numbers.IsBrl`)
    beside the evidently intended one, with any number of groups. */
module GroupedAmounts {
  import opened Wrappers
  import opened Text
  import opened Numbers

  // ---------------------------------------------------------------------------
  // As written: two groups are refused

  const MillionSample: string := "1.234.567,89"

  /** The pattern refuses the amount... */
  lemma MillionRefused()
    ensures !IsBrl(MillionSample)
  {
    var p := MillionSample[..9];
    assert p == "1.234.567";
    assert FirstIndex(p, '.') == 1 by {
      assert p[0] != '.' && p[1] == '.';
    }
    assert p[2..][3] == '.';
  }

  /** ...and every prefix of it, so a search anchored on the label before the
      amount cannot settle for a shorter capture either. */
  lemma MillionPrefixesRefused()
    ensures forall k :: 0 <= k <= |MillionSample| ==> !IsBrl(MillionSample[..k])
  {
    var s := MillionSample;
    forall k | 0 <= k <= |s|
      ensures !IsBrl(s[..k])
    {
      if k == |s| {
        assert s[..k] == s;
        MillionRefused();
      } else if k >= 4 {
        var t := s[..k];
        assert t[k - 3] == s[k - 3];
        assert s[k - 3] != ',' by {
          assert k - 3 < 9;
          assert s[..9] == "1.234.567";
          assert s[..9][k - 3] == s[k - 3];
        }
      }
    }
  }

  // ---------------------------------------------------------------------------
  // Intended: `-?(\d{1,3}\.)*\d+,\d\d`

  /** `(\d{1,3}\.)*\d+`: groups of one to three digits, each closed by a point,
      then a nonempty digit run. */
  predicate IsGroupedWhole(p: string)
    decreases |p|
  {
    var k := FirstIndex(p, '.');
    if k == |p| then |p| >= 1 && AllDigits(p)
    else 1 <= k <= 3 && AllDigits(p[..k]) && IsGroupedWhole(p[k + 1..])
  }

  predicate IsBrlGrouped(s: string) {
    var u := Unsigned(s);
    && |u| >= 4
    && u[|u| - 3] == DecimalSeparator
    && AllDigits(u[|u| - 2..])
    && IsGroupedWhole(u[..|u| - 3])
  }

  /** The intended pattern takes everything the written one takes. */
  lemma GroupedExtends(s: string)
    requires IsBrl(s)
    ensures IsBrlGrouped(s)
  {
    var u := Unsigned(s);
    var p := u[..|u| - 3];
    var k := FirstIndex(p, '.');
    if k < |p| {
      var rest := p[k + 1..];
      assert rest[..|rest|] == rest;
      PrefixDigitsNoPoint(rest, |rest|);
      assert FirstIndex(rest, '.') == |rest|;
    }
  }

  /** And it takes the amount of a million. */
  lemma MillionGrouped()
    ensures IsBrlGrouped(MillionSample)
  {
    var s := MillionSample;
    assert s[1] == '.' && s[5] == '.' && s[9] == ',';
    assert forall i :: 0 <= i < 12 && i != 1 && i != 5 && i != 9 ==> IsDigit(s[i]);
    TwoGroups(s);
  }

  /** `d.ddd.ddd,dd` has the intended shape. */
  lemma TwoGroups(s: string)
    requires |s| == 12 && s[1] == '.' && s[5] == '.' && s[9] == ','
    requires forall i :: 0 <= i < 12 && i != 1 && i != 5 && i != 9 ==> IsDigit(s[i])
    ensures IsBrlGrouped(s)
  {
    var p := s[..9];
    var q := p[2..];
    DigitsWhole(q[4..]);
    GroupedStep(q, 3);
    GroupedStep(p, 1);
    GroupedIntro(s);
  }

  lemma DigitsWhole(p: string)
    requires |p| >= 1 && AllDigits(p)
    ensures IsGroupedWhole(p)
  {
    assert p[..|p|] == p;
    PrefixDigitsNoPoint(p, |p|);
  }

  /** One more group in front of a grouped run. */
  lemma GroupedStep(p: string, k: nat)
    requires 1 <= k <= 3 && k < |p| && p[k] == '.'
    requires AllDigits(p[..k]) && IsGroupedWhole(p[k + 1..])
    ensures IsGroupedWhole(p)
  {
    PrefixDigitsNoPoint(p, k);
    assert FirstIndex(p, '.') == k;
  }

  lemma GroupedIntro(s: string)
    requires |s| >= 4 && s[0] != '-' && s[|s| - 3] == DecimalSeparator
    requires AllDigits(s[|s| - 2..]) && IsGroupedWhole(s[..|s| - 3])
    ensures IsBrlGrouped(s)
  {
    assert Unsigned(s) == s;
  }

  /** A grouped digit run loses its points and keeps its digits. */
  lemma {:induction false} GroupedWholeDigits(p: string)
    requires IsGroupedWhole(p)
    ensures Delocalize(p) == DigitsOf(p)
    ensures |DigitsOf(p)| >= 1 && IsDigit(p[0])
    decreases |p|
  {
    var k := FirstIndex(p, '.');
    if k == |p| {
      DigitsUnchanged(p);
    } else {
      var g, rest := p[..k], p[k + 1..];
      GroupedWholeDigits(rest);
      PointSplit(p, k);
      PointJoin(g, rest);
      assert IsDigit(p[0]) by {
        assert p[0] == g[0];
      }
    }
  }

  lemma PointSplit(p: string, k: nat)
    requires k < |p| && p[k] == '.'
    ensures p == p[..k] + ("." + p[k + 1..])
  {
    assert p[k..] == [p[k]] + p[k + 1..];
    assert p == p[..k] + p[k..];
  }

  /** Digits, a thousands point, and a run that already loses its points. */
  lemma PointJoin(g: string, rest: string)
    requires AllDigits(g) && Delocalize(rest) == DigitsOf(rest)
    ensures Delocalize(g + ("." + rest)) == DigitsOf(g + ("." + rest))
    ensures DigitsOf(g + ("." + rest)) == g + DigitsOf(rest)
  {
    DigitsUnchanged(g);
    DelocalizeAppend(g, "." + rest);
    DigitsOfAppend(g, "." + rest);
    DelocalizeAppend(".", rest);
    DigitsOfAppend(".", rest);
    assert "."[1..] == "";
  }

  lemma GroupedPieces(s: string) returns (sign: string, w: string, cents: string)
    requires IsBrlGrouped(s)
    ensures s == sign + ((w + ",") + cents)
    ensures (sign == "" || sign == "-") && BrlSign(s) == SignFactor(sign)
    ensures IsGroupedWhole(w) && |cents| == 2 && AllDigits(cents)
  {
    sign := SignOf(s);
    SignSplit(s);
    w, cents := GroupedUnsignedParts(Unsigned(s));
    SignFactorOf(s);
  }

  lemma GroupedUnsignedParts(u: string) returns (w: string, cents: string)
    requires |u| >= 4 && u[|u| - 3] == DecimalSeparator
    requires AllDigits(u[|u| - 2..]) && IsGroupedWhole(u[..|u| - 3])
    ensures u == (w + ",") + cents && IsGroupedWhole(w) && |cents| == 2 && AllDigits(cents)
    ensures IsDigit(u[0])
  {
    CommaSplit(u);
    w, cents := u[..|u| - 3], u[|u| - 2..];
    assert (w + ",") + cents == w + ("," + cents);
    GroupedWholeDigits(w);
    assert u[0] == w[0];
  }

  lemma DelocalizeGrouped(sign: string, w: string, cents: string)
    requires sign == "" || sign == "-"
    requires IsGroupedWhole(w) && AllDigits(cents)
    ensures Delocalize(sign + ((w + ",") + cents)) == sign + ((DigitsOf(w) + ".") + cents)
  {
    GroupedWholeDigits(w);
    SignPieces(sign);
    DigitsUnchanged(cents);
    assert Delocalize(",") == ".";
    DelocalizeAppend(w, ",");
    DelocalizeAppend(w + ",", cents);
    DelocalizeAppend(sign, (w + ",") + cents);
  }

  lemma DigitsOfGrouped(sign: string, w: string, cents: string)
    requires sign == "" || sign == "-"
    requires IsGroupedWhole(w) && AllDigits(cents)
    ensures DigitsOf(sign + ((w + ",") + cents)) == DigitsOf(w) + cents
  {
    SignPieces(sign);
    DigitsUnchanged(cents);
    assert DigitsOf(",") == "";
    DigitsOfAppend(w, ",");
    assert DigitsOf(w + ",") == DigitsOf(w);
    DigitsOfAppend(w + ",", cents);
    assert DigitsOf((w + ",") + cents) == DigitsOf(w) + cents;
    DigitsOfAppend(sign, (w + ",") + cents);
  }

  /** Every amount of the intended pattern is read by `locale.atof` as its
      digits, signed, in cents. */
  lemma GroupedParses(s: string)
    requires IsBrlGrouped(s)
    ensures AllDigits(DigitsOf(s))
    ensures LocaleAtof(s) == Some(Decimal(BrlSign(s) * DigitsValue(DigitsOf(s)), 2))
  {
    var sign, w, cents := GroupedPieces(s);
    GroupedWholeDigits(w);
    var ip := DigitsOf(w);
    DelocalizeGrouped(sign, w, cents);
    DigitsOfGrouped(sign, w, cents);
    var t := Delocalize(s);
    Reassociate(sign, ip, cents);
    assert t == sign + ip + "." + cents;
    AllDigitsAppend(ip, cents);
    var d := Decimal(SignFactor(sign) * DigitsValue(ip + cents), 2);
    assert DenotesWith(t, d, sign, ip, cents);
    ParseFloatWith(t, d, sign, ip, cents);
  }
}
