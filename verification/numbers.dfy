/** Number reading under the pt_BR locale: `locale.atof` deletes the thousands
    separator `.`, turns the decimal separator `,` into `.`, and hands the
    result to Python's `float`. Also the money pattern `__re_brl` the fund
    statements use to capture amounts. */
module Numbers {
  import opened Wrappers
  import opened Text

  /** The pt_BR separators, fixed instead of read from the process locale. */
  const ThousandsSeparator: char := '.'
  const DecimalSeparator: char := ','

  /** A parsed number: `mantissa / 10^scale`, kept exact instead of as a float. */
  datatype Decimal = Decimal(mantissa: int, scale: nat)

  function Value(d: Decimal): real {
    d.mantissa as real / Pow10(d.scale) as real
  }

  function Negate(d: Decimal): (r: Decimal)
    ensures Value(r) == -Value(d)
  {
    Decimal(-d.mantissa, d.scale)
  }

  function DelocalizeChar(c: char): string {
    if c == ThousandsSeparator then ""
    else if c == DecimalSeparator then "."
    else [c]
  }

  /** `locale.delocalize`: every `.` deleted, every `,` replaced by `.`. */
  function Delocalize(s: string): (r: string)
    ensures |r| <= |s|
    ensures forall i :: 0 <= i < |r| ==> r[i] != DecimalSeparator
  {
    if |s| == 0 then "" else DelocalizeChar(s[0]) + Delocalize(s[1..])
  }

  lemma {:induction false} DelocalizeAppend(a: string, b: string)
    ensures Delocalize(a + b) == Delocalize(a) + Delocalize(b)
  {
    if |a| == 0 {
      assert a + b == b;
    } else {
      assert (a + b)[1..] == a[1..] + b;
      DelocalizeAppend(a[1..], b);
    }
  }

  /** The first position of `c` in `s`, or `|s|` when there is none. */
  function FirstIndex(s: string, c: char): (k: nat)
    ensures k <= |s|
    ensures k < |s| ==> s[k] == c
    ensures forall i :: 0 <= i < k ==> s[i] != c
  {
    if |s| == 0 then 0
    else if s[0] == c then 0
    else 1 + FirstIndex(s[1..], c)
  }

  /** Python's `float` on an unsigned decimal literal: digits with at most one
      point and at least one digit in all. */
  function ParseUnsigned(u: string): Option<Decimal> {
    var k := FirstIndex(u, '.');
    if k == |u| then
      if |u| >= 1 && AllDigits(u) then Some(Decimal(DigitsValue(u), 0)) else None
    else
      var ip, fp := u[..k], u[k + 1..];
      if AllDigits(ip) && AllDigits(fp) && |ip| + |fp| >= 1 then
        AllDigitsAppend(ip, fp);
        Some(Decimal(DigitsValue(ip + fp), |fp|))
      else None
  }

  /** Python's `float` on a plain decimal literal with an optional sign. */
  function ParseFloat(t: string): Option<Decimal> {
    if |t| > 0 && t[0] == '-' then
      var d :- ParseUnsigned(t[1..]);
      Some(Negate(d))
    else if |t| > 0 && t[0] == '+' then ParseUnsigned(t[1..])
    else ParseUnsigned(t)
  }

  /** `locale.atof(s)` under pt_BR; `None` is the `ValueError` it raises. */
  function LocaleAtof(s: string): Option<Decimal> {
    ParseFloat(Delocalize(s))
  }

  function SignFactor(sign: string): int {
    if sign == "-" then -1 else 1
  }

  /** The literal forms `float` accepts without exponent, and the number each
      denotes: an optional sign, integer digits, and fraction digits after a
      point that may be left out when the fraction is empty. */
  ghost predicate DenotesWith(t: string, d: Decimal, sign: string, ip: string, fp: string) {
    && (sign == "" || sign == "-" || sign == "+")
    && AllDigits(ip) && AllDigits(fp) && |ip| + |fp| >= 1
    && (t == sign + ip + "." + fp || (fp == "" && t == sign + ip))
    && AllDigits(ip + fp)
    && d == Decimal(SignFactor(sign) * DigitsValue(ip + fp), |fp|)
  }

  ghost predicate DenotesDecimal(t: string, d: Decimal) {
    exists sign: string, ip: string, fp: string :: DenotesWith(t, d, sign, ip, fp)
  }

  lemma ParseUnsignedSound(u: string)
    requires ParseUnsigned(u).Some?
    ensures DenotesWith(u, ParseUnsigned(u).value, "", UnsignedInt(u), UnsignedFrac(u))
  {
    var k := FirstIndex(u, '.');
    if k == |u| {
      assert u == "" + u;
      assert u + "" == u;
    } else {
      var ip, fp := u[..k], u[k + 1..];
      assert u == "" + ip + "." + fp;
      AllDigitsAppend(ip, fp);
    }
  }

  /** The digits before the point of an unsigned literal. */
  function UnsignedInt(u: string): string {
    u[..FirstIndex(u, '.')]
  }

  /** The digits after the point of an unsigned literal ("" without a point). */
  function UnsignedFrac(u: string): string {
    var k := FirstIndex(u, '.');
    if k == |u| then "" else u[k + 1..]
  }

  /** Every number `float` reads is the one its literal denotes. */
  lemma ParseFloatSound(t: string)
    requires ParseFloat(t).Some?
    ensures DenotesDecimal(t, ParseFloat(t).value)
  {
    if |t| > 0 && (t[0] == '-' || t[0] == '+') {
      var sign, u := [t[0]], t[1..];
      assert t == sign + u;
      SignedSound(t, sign, u);
    } else {
      ParseUnsignedSound(t);
      assert DenotesWith(t, ParseFloat(t).value, "", UnsignedInt(t), UnsignedFrac(t));
    }
  }

  /** A signed literal denotes what its unsigned part denotes, signed. */
  lemma SignedSound(t: string, sign: string, u: string)
    requires sign == "-" || sign == "+"
    requires t == sign + u && ParseUnsigned(u).Some?
    ensures DenotesWith(t, Decimal(SignFactor(sign) * ParseUnsigned(u).value.mantissa, ParseUnsigned(u).value.scale),
                        sign, UnsignedInt(u), UnsignedFrac(u))
  {
    ParseUnsignedSound(u);
    var ip, fp := UnsignedInt(u), UnsignedFrac(u);
    if u == "" + ip + "." + fp {
      SignBeforePoint(t, sign, u, ip, fp);
    } else {
      assert u == "" + ip;
      assert t == sign + ip;
    }
  }

  lemma SignBeforePoint(t: string, sign: string, u: string, ip: string, fp: string)
    requires t == sign + u && u == "" + ip + "." + fp
    ensures t == sign + ip + "." + fp
  {
    assert u == ip + "." + fp;
  }

  lemma PrefixDigitsNoPoint(s: string, k: nat)
    requires k <= |s| && AllDigits(s[..k])
    ensures forall i :: 0 <= i < k ==> s[i] != '.'
  {
    forall i | 0 <= i < k
      ensures s[i] != '.'
    {
      assert s[..k][i] == s[i];
    }
  }

  lemma ParseUnsignedComplete(u: string, ip: string, fp: string)
    requires AllDigits(ip) && AllDigits(fp) && |ip| + |fp| >= 1
    requires u == ip + "." + fp || (fp == "" && u == ip)
    ensures AllDigits(ip + fp)
    ensures ParseUnsigned(u) == Some(Decimal(DigitsValue(ip + fp), |fp|))
  {
    AllDigitsAppend(ip, fp);
    var k := FirstIndex(u, '.');
    if u == ip + "." + fp {
      assert u[..|ip|] == ip;
      PrefixDigitsNoPoint(u, |ip|);
      assert u[|ip|] == '.';
      assert k == |ip|;
      assert u[k + 1..] == fp;
    } else {
      assert ip + fp == ip;
      assert u[..|u|] == u;
      PrefixDigitsNoPoint(u, |u|);
      assert k == |u|;
    }
  }

  lemma UnsignedStart(u: string, ip: string, fp: string)
    requires AllDigits(ip) && |ip| + |fp| >= 1
    requires u == ip + "." + fp || (fp == "" && u == ip)
    ensures |u| > 0 && u[0] != '-' && u[0] != '+'
  {
    if |ip| > 0 {
      assert u[0] == ip[0];
    } else {
      assert u[0] == '.';
    }
  }

  lemma ParseFloatSigned(sign: string, u: string)
    requires sign == "" || sign == "-" || sign == "+"
    requires |u| > 0 && u[0] != '-' && u[0] != '+'
    ensures sign == "-" ==> ParseFloat(sign + u) == (if ParseUnsigned(u).Some? then Some(Negate(ParseUnsigned(u).value)) else None)
    ensures sign != "-" ==> ParseFloat(sign + u) == ParseUnsigned(u)
  {
    if sign == "" {
      assert sign + u == u;
    } else {
      assert (sign + u)[0] == sign[0] && (sign + u)[1..] == u;
    }
  }

  lemma ParseFloatWith(t: string, d: Decimal, sign: string, ip: string, fp: string)
    requires DenotesWith(t, d, sign, ip, fp)
    ensures ParseFloat(t) == Some(d)
  {
    var u := if t == sign + ip + "." + fp then ip + "." + fp else ip;
    assert t == sign + u;
    ParseUnsignedComplete(u, ip, fp);
    UnsignedStart(u, ip, fp);
    ParseFloatSigned(sign, u);
  }

  /** Every literal in the accepted forms is read as the number it denotes. */
  lemma ParseFloatComplete(t: string, d: Decimal)
    requires DenotesDecimal(t, d)
    ensures ParseFloat(t) == Some(d)
  {
    var sign, ip, fp :| DenotesWith(t, d, sign, ip, fp);
    ParseFloatWith(t, d, sign, ip, fp);
  }

  /** `locale.atof` reads exactly the strings whose delocalized form is a plain
      decimal literal, and reads each as the number that literal denotes. */
  lemma LocaleAtofSpec(s: string, d: Decimal)
    ensures LocaleAtof(s) == Some(d) <==> DenotesDecimal(Delocalize(s), d)
  {
    if LocaleAtof(s) == Some(d) {
      ParseFloatSound(Delocalize(s));
    }
    if DenotesDecimal(Delocalize(s), d) {
      ParseFloatComplete(Delocalize(s), d);
    }
  }

  // ---------------------------------------------------------------------------
  // The money pattern `__re_brl`

  /** The part of `-?(\d{1,3}\.)?\d+` after the sign: one to three digits and a
      point, optionally, then a nonempty digit run. (The source's `(?:\d{1,3})+`
      accepts exactly the nonempty digit runs.) */
  predicate IsBrlWhole(p: string) {
    var k := FirstIndex(p, '.');
    if k == |p| then |p| >= 1 && AllDigits(p)
    else 1 <= k <= 3 && AllDigits(p[..k]) && k + 1 < |p| && AllDigits(p[k + 1..])
  }

  /** The leading minus sign of an amount, if any, and the rest. */
  function SignOf(s: string): string {
    if |s| > 0 && s[0] == '-' then "-" else ""
  }

  function Unsigned(s: string): string {
    if |s| > 0 && s[0] == '-' then s[1..] else s
  }

  lemma SignSplit(s: string)
    ensures s == SignOf(s) + Unsigned(s)
    ensures SignOf(s) == "" || SignOf(s) == "-"
  {
  }

  /** A whole string matched by `-?(\d{1,3}\.)?\d+,\d\d`: what a capture of
      `__re_brl` holds. */
  predicate IsBrl(s: string) {
    var u := Unsigned(s);
    && |u| >= 4
    && u[|u| - 3] == DecimalSeparator
    && AllDigits(u[|u| - 2..])
    && IsBrlWhole(u[..|u| - 3])
  }

  /** The pattern read piece by piece: sign, optional thousands group with its
      point, digit run, comma and two cent digits. */
  ghost predicate BrlWith(s: string, sign: string, grp: string, body: string, cents: string) {
    && s == sign + grp + body + "," + cents
    && (sign == "" || sign == "-")
    && GroupOk(grp)
    && |body| >= 1 && AllDigits(body)
    && |cents| == 2 && AllDigits(cents)
  }

  ghost predicate MatchesBrl(s: string) {
    exists sign, grp, body, cents :: BrlWith(s, sign, grp, body, cents)
  }

  function GroupDigits(grp: string): string {
    if grp == "" then "" else grp[..|grp| - 1]
  }

  lemma Regroup(sign: string, grp: string, body: string, cents: string)
    ensures sign + grp + body + "," + cents == sign + ((grp + body) + "," + cents)
    ensures sign + grp + body + "," + cents == sign + ((grp + body) + ("," + cents))
  {
  }

  predicate GroupOk(grp: string) {
    grp == "" || (2 <= |grp| <= 4 && AllDigits(grp[..|grp| - 1]) && grp[|grp| - 1] == '.')
  }

  lemma WholePieces(p: string) returns (grp: string, body: string)
    requires IsBrlWhole(p)
    ensures p == grp + body && GroupOk(grp) && |body| >= 1 && AllDigits(body)
  {
    var k := FirstIndex(p, '.');
    if k == |p| {
      grp, body := "", p;
      assert p == grp + body;
    } else {
      grp, body := p[..k + 1], p[k + 1..];
      assert p == grp + body;
      assert grp[..|grp| - 1] == p[..k];
      assert grp[|grp| - 1] == p[k];
    }
  }

  lemma RecognisedMatches(s: string)
    requires IsBrl(s)
    ensures MatchesBrl(s)
  {
    var sign, p, cents := BrlParts(s);
    var grp, body := WholePieces(p);
    Regroup(sign, grp, body, cents);
    assert BrlWith(s, sign, grp, body, cents);
  }

  /** Sign, whole part and cents of a recognised amount. */
  lemma BrlParts(s: string) returns (sign: string, p: string, cents: string)
    requires IsBrl(s)
    ensures s == sign + (p + ("," + cents))
    ensures (sign == "" || sign == "-") && IsBrlWhole(p) && |cents| == 2 && AllDigits(cents)
  {
    sign := SignOf(s);
    SignSplit(s);
    p, cents := UnsignedParts(Unsigned(s));
  }

  lemma UnsignedParts(u: string) returns (p: string, cents: string)
    requires |u| >= 4 && u[|u| - 3] == DecimalSeparator
    requires AllDigits(u[|u| - 2..]) && IsBrlWhole(u[..|u| - 3])
    ensures u == p + ("," + cents) && IsBrlWhole(p) && |cents| == 2 && AllDigits(cents)
  {
    CommaSplit(u);
    p, cents := u[..|u| - 3], u[|u| - 2..];
  }

  lemma CommaSplit(u: string)
    requires |u| >= 3 && u[|u| - 3] == DecimalSeparator
    ensures u == u[..|u| - 3] + ("," + u[|u| - 2..])
  {
    var n := |u|;
    assert u == u[..n - 3] + u[n - 3..];
    assert u[n - 3..] == [u[n - 3]] + u[n - 2..];
  }

  /** An amount whose unsigned part starts with a digit has the sign its
      minus, if any, gives it. */
  lemma SignFactorOf(s: string)
    requires |Unsigned(s)| > 0 && IsDigit(Unsigned(s)[0])
    ensures BrlSign(s) == SignFactor(SignOf(s))
  {
  }

  lemma BrlWithRecognised(s: string, sign: string, grp: string, body: string, cents: string)
    requires BrlWith(s, sign, grp, body, cents)
    ensures IsBrl(s)
  {
    var p := grp + body;
    var u := p + "," + cents;
    Regroup(sign, grp, body, cents);
    assert s == sign + u;
    assert IsDigit(u[0]) by {
      assert u[0] == p[0];
      if grp != "" {
        assert p[0] == grp[0] == grp[..|grp| - 1][0];
      } else {
        assert p[0] == body[0];
      }
    }
    if sign == "-" {
      assert s[0] == '-' && s[1..] == u;
    } else {
      assert s == u;
    }
    assert Unsigned(s) == u;
    assert u[..|u| - 3] == p && u[|u| - 3] == ',' && u[|u| - 2..] == cents;
    WholeRecognised(p, grp, body);
    IsBrlIntro(s, u);
  }

  lemma IsBrlIntro(s: string, u: string)
    requires u == Unsigned(s)
    requires |u| >= 4 && u[|u| - 3] == DecimalSeparator && AllDigits(u[|u| - 2..]) && IsBrlWhole(u[..|u| - 3])
    ensures IsBrl(s)
  {
  }

  lemma WholeRecognised(p: string, grp: string, body: string)
    requires p == grp + body
    requires GroupOk(grp)
    requires |body| >= 1 && AllDigits(body)
    ensures IsBrlWhole(p)
  {
    var k := FirstIndex(p, '.');
    if grp == "" {
      assert p == body;
      assert p[..|p|] == p;
      PrefixDigitsNoPoint(p, |p|);
      assert k == |p|;
    } else {
      var g := |grp| - 1;
      assert p[..g] == grp[..g];
      PrefixDigitsNoPoint(p, g);
      assert p[g] == '.';
      assert k == g;
      assert p[k + 1..] == body;
    }
  }

  /** The recogniser accepts exactly the strings the pattern describes. */
  lemma IsBrlMatches(s: string)
    ensures IsBrl(s) <==> MatchesBrl(s)
  {
    if IsBrl(s) {
      RecognisedMatches(s);
    }
    if MatchesBrl(s) {
      var sign, grp, body, cents :| BrlWith(s, sign, grp, body, cents);
      BrlWithRecognised(s, sign, grp, body, cents);
    }
  }

  /** The digits of a string, in order, with everything else dropped. */
  function DigitsOf(s: string): (r: string)
    ensures AllDigits(r)
  {
    if |s| == 0 then ""
    else if IsDigit(s[0]) then [s[0]] + DigitsOf(s[1..])
    else DigitsOf(s[1..])
  }

  lemma {:induction false} DigitsOfAppend(a: string, b: string)
    ensures DigitsOf(a + b) == DigitsOf(a) + DigitsOf(b)
  {
    if |a| == 0 {
      assert a + b == b;
    } else {
      assert (a + b)[1..] == a[1..] + b;
      DigitsOfAppend(a[1..], b);
    }
  }

  lemma {:induction false} DigitsUnchanged(s: string)
    requires AllDigits(s)
    ensures DigitsOf(s) == s && Delocalize(s) == s
  {
    if |s| > 0 {
      assert AllDigits(s[1..]);
      DigitsUnchanged(s[1..]);
      assert s == [s[0]] + s[1..];
    }
  }

  function BrlSign(s: string): int {
    if |s| > 0 && s[0] == '-' then -1 else 1
  }

  lemma GroupPieces(grp: string)
    requires GroupOk(grp)
    ensures AllDigits(GroupDigits(grp))
    ensures DigitsOf(grp) == GroupDigits(grp) && Delocalize(grp) == GroupDigits(grp)
  {
    if grp != "" {
      var n := |grp| - 1;
      var gd := grp[..n];
      assert GroupDigits(grp) == gd;
      assert grp == gd + [grp[n]];
      assert [grp[n]] == ".";
      DigitsUnchanged(gd);
      DigitsOfAppend(gd, ".");
      DelocalizeAppend(gd, ".");
      assert "."[1..] == "";
    }
  }

  lemma SignPieces(sign: string)
    requires sign == "" || sign == "-"
    ensures DigitsOf(sign) == "" && Delocalize(sign) == sign
  {
    if sign == "-" {
      assert sign[1..] == "";
    }
  }

  lemma DelocalizeBrl(sign: string, grp: string, body: string, cents: string)
    requires sign == "" || sign == "-"
    requires GroupOk(grp)
    requires AllDigits(body) && AllDigits(cents)
    ensures Delocalize(sign + ((grp + body) + "," + cents)) == sign + (((GroupDigits(grp) + body) + ".") + cents)
  {
    var g, p := GroupDigits(grp), grp + body;
    GroupPieces(grp);
    SignPieces(sign);
    DigitsUnchanged(body);
    DigitsUnchanged(cents);
    DelocalizeAppend(grp, body);
    assert Delocalize(p) == g + body;
    assert Delocalize(",") == ".";
    DelocalizeAppend(p, ",");
    assert Delocalize(p + ",") == (g + body) + ".";
    DelocalizeAppend(p + ",", cents);
    assert Delocalize((p + ",") + cents) == ((g + body) + ".") + cents;
    DelocalizeAppend(sign, (p + ",") + cents);
  }

  lemma DigitsOfBrl(sign: string, grp: string, body: string, cents: string)
    requires sign == "" || sign == "-"
    requires GroupOk(grp)
    requires AllDigits(body) && AllDigits(cents)
    ensures DigitsOf(sign + ((grp + body) + "," + cents)) == (GroupDigits(grp) + body) + cents
  {
    var g, p := GroupDigits(grp), grp + body;
    GroupPieces(grp);
    SignPieces(sign);
    DigitsUnchanged(body);
    DigitsUnchanged(cents);
    DigitsOfAppend(grp, body);
    assert DigitsOf(p) == g + body;
    assert DigitsOf(",") == "";
    DigitsOfAppend(p, ",");
    assert DigitsOf(p + ",") == g + body;
    DigitsOfAppend(p + ",", cents);
    assert DigitsOf((p + ",") + cents) == (g + body) + cents;
    DigitsOfAppend(sign, (p + ",") + cents);
    assert "" + ((g + body) + cents) == (g + body) + cents;
  }

  lemma Reassociate(a: string, b: string, c: string)
    ensures a + ((b + ".") + c) == a + b + "." + c
  {
  }

  lemma BrlWithParses(s: string, sign: string, grp: string, body: string, cents: string)
    requires BrlWith(s, sign, grp, body, cents)
    ensures DigitsOf(s) == GroupDigits(grp) + body + cents && BrlSign(s) == SignFactor(sign)
    ensures AllDigits(DigitsOf(s))
    ensures LocaleAtof(s) == Some(Decimal(BrlSign(s) * DigitsValue(DigitsOf(s)), 2))
  {
    Regroup(sign, grp, body, cents);
    DelocalizeBrl(sign, grp, body, cents);
    DigitsOfBrl(sign, grp, body, cents);
    GroupPieces(grp);
    var ip := GroupDigits(grp) + body;
    AllDigitsAppend(GroupDigits(grp), body);
    AllDigitsAppend(ip, cents);
    var t := Delocalize(s);
    Reassociate(sign, ip, cents);
    assert t == sign + ip + "." + cents;
    assert DigitsOf(s) == ip + cents;
    assert BrlSign(s) == SignFactor(sign) by {
      BrlWithRecognised(s, sign, grp, body, cents);
      if sign == "" {
        assert s[0] == ip[0];
        assert IsDigit(ip[0]);
      }
    }
    var d := Decimal(SignFactor(sign) * DigitsValue(ip + cents), 2);
    assert DenotesWith(t, d, sign, ip, cents);
    ParseFloatWith(t, d, sign, ip, cents);
  }

  /** Every capture of `__re_brl` is read by `locale.atof` as its digits, signed, in cents. */
  lemma BrlParses(s: string)
    requires IsBrl(s)
    ensures AllDigits(DigitsOf(s))
    ensures LocaleAtof(s) == Some(Decimal(BrlSign(s) * DigitsValue(DigitsOf(s)), 2))
  {
    IsBrlMatches(s);
    var sign, grp, body, cents :| BrlWith(s, sign, grp, body, cents);
    BrlWithParses(s, sign, grp, body, cents);
  }

  // ---------------------------------------------------------------------------
  // Worked readings

  lemma DelocalizeSnoc(s: string, c: char)
    ensures Delocalize(s + [c]) == Delocalize(s) + DelocalizeChar(c)
  {
    DelocalizeAppend(s, [c]);
    assert [c][1..] == [];
  }

  const PtBrSample: string := "1.234,56"
  const FractionOnlySample: string := ",0"
  const IntegerSample: string := "7890"
  const EnUsSample: string := "1,234,567.89"

  lemma PtBrSamplePieces()
    ensures BrlWith(PtBrSample, "", "1.", "234", "56")
  {
    assert PtBrSample == "" + "1." + "234" + "," + "56";
    assert GroupOk("1.") by {
      assert "1."[..1] == "1";
    }
  }

  lemma Digits123456()
    ensures AllDigits("123456") && DigitsValue("123456") == 123456
  {
    assert "123456"[..5] == "12345";
    assert "12345"[..4] == "1234";
    assert "1234"[..3] == "123";
    assert "123"[..2] == "12";
    assert "12"[..1] == "1";
    assert "1"[..0] == "";
    assert DigitsValue("1") == 1;
    assert DigitsValue("12") == 12;
    assert DigitsValue("123") == 123;
    assert DigitsValue("1234") == 1234;
    assert DigitsValue("12345") == 12345;
  }

  lemma PtBrValue()
    ensures Value(Decimal(123456, 2)) == 1234.56
  {
  }

  /** Thousands point and decimal comma: "1.234,56" is 1234.56. */
  lemma ReadsPtBr()
    ensures LocaleAtof(PtBrSample) == Some(Decimal(123456, 2))
    ensures Value(Decimal(123456, 2)) == 1234.56
  {
    PtBrValue();
    PtBrSampleRead(PtBrSample);
  }

  lemma PtBrSampleRead(s: string)
    requires s == PtBrSample
    ensures LocaleAtof(s) == Some(Decimal(123456, 2))
  {
    assert |s| == 8 && s[1] == '.' && s[5] == ',';
    assert forall i :: 0 <= i < 8 && i != 1 && i != 5 ==> IsDigit(s[i]);
    OneGroupRead(s);
    SampleDigits(s);
    Digits123456();
  }

  lemma SampleDigits(s: string)
    requires s == PtBrSample
    ensures s[..1] + s[2..5] + s[6..] == "123456"
  {
  }

  /** `d.ddd,dd` is read as its six digits, in cents. */
  lemma OneGroupRead(s: string)
    requires |s| == 8 && s[1] == '.' && s[5] == ','
    requires forall i :: 0 <= i < 8 && i != 1 && i != 5 ==> IsDigit(s[i])
    ensures LocaleAtof(s) == Some(Decimal(DigitsValue(s[..1] + s[2..5] + s[6..]), 2))
  {
    var grp, body, cents := s[..2], s[2..5], s[6..];
    assert GroupOk(grp) by {
      assert grp[..1] == s[..1];
    }
    assert s == "" + grp + body + "," + cents;
    BrlWithParses(s, "", grp, body, cents);
    assert GroupDigits(grp) == s[..1];
  }

  /** A bare fraction: ",0" is 0. */
  lemma ReadsFractionOnly()
    ensures LocaleAtof(FractionOnlySample) == Some(Decimal(0, 1))
  {
    var t := Delocalize(FractionOnlySample);
    assert t == ".0" by {
      assert FractionOnlySample == [','] + "0";
      DelocalizeAppend([','], "0");
      DigitsUnchanged("0");
      assert Delocalize([',']) == "." + Delocalize("");
    }
    assert t == "" + "" + "." + "0";
    assert DigitsValue("0") == 0 by {
      assert "0"[..0] == "";
    }
    assert DenotesWith(t, Decimal(0, 1), "", "", "0");
    ParseFloatWith(t, Decimal(0, 1), "", "", "0");
  }

  /** A string of digits alone is read as the integer it spells. */
  lemma DigitStringRead(s: string)
    requires |s| >= 1 && AllDigits(s)
    ensures LocaleAtof(s) == Some(Decimal(DigitsValue(s), 0))
  {
    DigitsUnchanged(s);
    ParseUnsignedComplete(s, s, "");
    assert s + "" == s;
  }

  /** Integers without separators are read too: "7890" is 7890. */
  lemma ReadsInteger()
    ensures LocaleAtof(IntegerSample) == Some(Decimal(7890, 0))
  {
    IntegerDigits(IntegerSample);
    DigitStringRead(IntegerSample);
  }

  lemma IntegerDigits(s: string)
    requires s == IntegerSample
    ensures |s| >= 1 && AllDigits(s) && DigitsValue(s) == 7890
  {
    assert s[..3] == "789" && "789"[..2] == "78" && "78"[..1] == "7" && "7"[..0] == "";
    assert DigitsValue("7") == 7;
    assert DigitsValue("78") == 78;
    assert DigitsValue("789") == 789;
  }

  /** The en-US rendering of a number is refused: its two commas become two
      points. */
  lemma RefusesEnUs()
    ensures LocaleAtof(EnUsSample) == None
  {
    var s := EnUsSample;
    assert IsDigit(s[0]) && s[1] == ',' && s[5] == ',';
    TwoCommasRefused(s, 1, 5);
  }

  /** Where a comma of the text lands once it is delocalized. */
  lemma CommaKept(s: string, i: nat)
    requires i < |s| && s[i] == DecimalSeparator
    ensures |Delocalize(s[..i])| < |Delocalize(s)|
    ensures Delocalize(s)[|Delocalize(s[..i])|] == '.'
  {
    assert s == s[..i] + s[i..];
    DelocalizeAppend(s[..i], s[i..]);
    assert s[i..][1..] == s[i + 1..];
  }

  /** Two decimal commas are one too many, whatever surrounds them. */
  lemma TwoCommasRefused(s: string, i: nat, j: nat)
    requires i < j < |s| && s[i] == DecimalSeparator && s[j] == DecimalSeparator && IsDigit(s[0])
    ensures LocaleAtof(s) == None
  {
    var t := Delocalize(s);
    CommaKept(s, i);
    CommaKept(s, j);
    CommaGrows(s, i, j);
    assert t[0] == s[0];
    TwoPointsRefused(t, |Delocalize(s[..i])|, |Delocalize(s[..j])|);
  }

  lemma CommaGrows(s: string, i: nat, j: nat)
    requires i < j <= |s| && s[i] == DecimalSeparator
    ensures |Delocalize(s[..i])| < |Delocalize(s[..j])|
  {
    assert s[..j] == s[..i] + s[i..j];
    DelocalizeAppend(s[..i], s[i..j]);
    assert s[i..j] == [s[i]] + s[i + 1..j];
    DelocalizeAppend([s[i]], s[i + 1..j]);
  }

  /** A literal with two points is not a float. */
  lemma TwoPointsRefused(t: string, i: nat, j: nat)
    requires i < j < |t| && t[i] == '.' && t[j] == '.'
    requires t[0] != '-' && t[0] != '+'
    ensures ParseFloat(t) == None
  {
    var k := FirstIndex(t, '.');
    assert k <= i;
    assert t[k + 1..][j - k - 1] == '.';
  }

  /** The money pattern takes one thousands group. */
  lemma BrlSample()
    ensures IsBrl(PtBrSample)
  {
    PtBrSamplePieces();
    BrlWithRecognised(PtBrSample, "", "1.", "234", "56");
  }
}
