/** `_trata_df_extrato_cc`: the rows of a checking-account statement get an ISO
    date, year/month columns, a cleaned description, the date and time written
    in the description, the weekday name, and, optionally, lose the balance
    lines; then they are numbered afresh. */
module Ledger {
  import opened Wrappers
  import opened Text
  import opened Accents
  import opened Calendar
  import opened Scan
  import opened Sorting

  /** One line of a statement, columns in the file's order (the last is dropped). */
  datatype Row = Row(
    data: string, origem: string, historico: string, dataBalancete: string,
    documento: string, valor: string, excluir: string)

  /** One line of the result. Until the correction step `hora` and `dia` are
      absent, and until the weekday step `diaSemana` is empty. */
  datatype Entry = Entry(
    index: nat, data: string, origem: string, historico: string, dataBalancete: string,
    documento: string, valor: string, anoMes: string, mes: int, ano: int,
    hora: Option<string>, dia: Option<nat>, diaSemana: string)

  datatype LedgerError =
    | NotAnInteger(column: string, text: string)  // `astype(int)` on Mes or Ano
    | NotADate(text: string)                      // `pd.to_datetime` on Data

  const WeekdayNames: seq<string> := ["Seg", "Ter", "Qua", "Qui", "Sex", "Sab", "Dom"]
  const BalanceWord: string := "saldo"

  // ---------------------------------------------------------------------------
  // Dates written in the statement

  /** `x[-4:]+'-'+x[-10:-8]+'-'+x[-7:-5]`. */
  function IsoFromStatement(x: string): (r: string)
    ensures |x| >= 10 ==>
      && |r| == 10 && r[4] == '-' && r[7] == '-'
      && r[..4] == x[|x| - 4..] && r[5..7] == x[|x| - 10..|x| - 8] && r[8..] == x[|x| - 7..|x| - 5]
  {
    PySliceFrom(x, -4) + "-" + PySlice(x, -10, -8) + "-" + PySlice(x, -7, -5)
  }

  /** The date token the slicing expects: month first, `MM/DD/YYYY` (the
      characters at -10..-8 land in the month place). */
  function FormatStatement(dt: Date): (s: string)
    requires 0 <= dt.year && 0 <= dt.month && 0 <= dt.day
    ensures |s| == 10
  {
    PadDigits(dt.month, 2) + "/" + PadDigits(dt.day, 2) + "/" + PadDigits(dt.year, 4)
  }

  /** The slicing turns the statement's way of writing a date into ISO's. */
  lemma IsoFromStatementFormat(dt: Date)
    requires 0 <= dt.year && 0 <= dt.month && 0 <= dt.day
    ensures IsoFromStatement(FormatStatement(dt)) == FormatIso(dt)
  {
    var mm, dd, yyyy := PadDigits(dt.month, 2), PadDigits(dt.day, 2), PadDigits(dt.year, 4);
    var x := FormatStatement(dt);
    assert x == mm + "/" + dd + "/" + yyyy;
    assert x[..2] == mm && x[3..5] == dd && x[6..] == yyyy;
    var r := IsoFromStatement(x);
    assert r[..4] == yyyy && r[5..7] == mm && r[8..] == dd;
    assert r == r[..4] + "-" + r[5..7] + "-" + r[8..];
  }

  /** So a date of the statement survives the slicing and `pd.to_datetime`. */
  lemma StatementDateReads(dt: Date)
    requires IsValid(dt) && InTimestampRange(dt)
    ensures ParseIso(IsoFromStatement(FormatStatement(dt))) == Some(dt)
  {
    IsoFromStatementFormat(dt);
    ParseFormat(dt);
  }

  function YearText(data: string): string { PySlice(data, 0, 4) }
  function MonthText(data: string): string { PySlice(data, 5, 7) }

  /** `AnoMes`: `x[:4]+'-'+x[5:7]`, which is the `YYYY-MM` prefix of an ISO date. */
  function YearMonth(data: string): (r: string)
    ensures |data| >= 7 && data[4] == '-' ==> r == data[..7]
  {
    YearText(data) + "-" + MonthText(data)
  }

  /** `astype(int)` on a column of text: every cell must read as an integer. */
  function ReadInts(texts: seq<string>, column: string): (r: Result<seq<int>, LedgerError>)
    ensures r.Success? <==> forall i :: 0 <= i < |texts| ==> ParseInt(texts[i]).Some?
    ensures r.Success? ==>
      && |r.value| == |texts|
      && forall i :: 0 <= i < |texts| ==> Some(r.value[i]) == ParseInt(texts[i])
    ensures r.Failure? ==>
      && r.error.NotAnInteger? && r.error.column == column
      && exists i :: 0 <= i < |texts| && r.error.text == texts[i] && ParseInt(texts[i]).None?
  {
    if |texts| == 0 then Success([])
    else match ParseInt(texts[0])
      case None => Failure(NotAnInteger(column, texts[0]))
      case Some(v) =>
        var rest :- ReadInts(texts[1..], column);
        Success([v] + rest)
  }

  /** The description as the rest of the code sees it: lower case, accents removed. */
  function Describe(h: string): (r: string)
    ensures forall i :: 0 <= i < |r| ==> InLatin1(r[i]) && r[i] !in UpperBase && r[i] !in LowerBase
    ensures IsAscii(h) ==> r == Lower(h)
  {
    LowerKeepsAscii(h);
    RemoveAccents(Lower(h), Latin1).value
  }

  lemma LowerKeepsAscii(h: string)
    ensures IsAscii(h) ==> IsAscii(Lower(h))
  {
  }

  /** Month and year of the row's ISO date read as integers. */
  predicate WellDated(row: Row) {
    var d := IsoFromStatement(row.data);
    ParseInt(MonthText(d)).Some? && ParseInt(YearText(d)).Some?
  }

  /** Lines 83-88: the new columns, all taken from the ISO date before any correction. */
  function Derive(rows: seq<Row>): (r: Result<seq<Entry>, LedgerError>)
    ensures r.Success? ==> |r.value| == |rows|
    ensures r.Success? ==> forall i :: 0 <= i < |rows| ==>
      var e, d := r.value[i], IsoFromStatement(rows[i].data);
      && e.data == d && e.anoMes == YearMonth(d)
      && ParseInt(MonthText(d)) == Some(e.mes) && ParseInt(YearText(d)) == Some(e.ano)
      && e.historico == Describe(rows[i].historico)
      && e.origem == rows[i].origem && e.dataBalancete == rows[i].dataBalancete
      && e.documento == rows[i].documento && e.valor == rows[i].valor
      && e.hora.None? && e.dia.None?
    ensures r.Failure? <==> exists i :: 0 <= i < |rows| && !WellDated(rows[i])
    ensures r.Failure? ==> r.error.NotAnInteger?
  {
    var datas := seq(|rows|, i requires 0 <= i < |rows| => IsoFromStatement(rows[i].data));
    var meses :- ReadInts(seq(|datas|, i requires 0 <= i < |datas| => MonthText(datas[i])), "Mes");
    var anos :- ReadInts(seq(|datas|, i requires 0 <= i < |datas| => YearText(datas[i])), "Ano");
    Success(seq(|rows|, i requires 0 <= i < |rows| =>
      Entry(i, datas[i], rows[i].origem, Describe(rows[i].historico), rows[i].dataBalancete,
            rows[i].documento, rows[i].valor, YearMonth(datas[i]), meses[i], anos[i], None, None, "")))
  }

  // ---------------------------------------------------------------------------
  // Date and time written in the description

  function DataKey(e: Entry): string { e.data }

  /** Lines 92-111: the first `DD/MM` followed by whitespace in the description
      replaces day and month of the date, keeping its year; `Dia` is that day
      and `Hora` the time written right after it, if any. */
  function Correct(e: Entry): (r: Entry)
    ensures r.(data := e.data, hora := e.hora, dia := e.dia) == e
    ensures FindStamp(e.historico).None? ==> r.data == e.data && r.hora.None? && r.dia.None?
    ensures FindStamp(e.historico).Some? ==>
      var st := FindStamp(e.historico).value;
      && r.data == YearText(e.data) + "-" + st.dayMonth[3..] + "-" + st.dayMonth[..2]
      && r.dia == Some(DigitsValue(st.dayMonth[..2]))
      && r.hora == st.time
  {
    match FindStamp(e.historico)
    case None => e.(hora := None, dia := None)
    case Some(st) =>
      StampShape(e.historico);
      var m, d := PySliceFrom(st.dayMonth, -2), PySlice(st.dayMonth, 0, 2);
      e.(data := YearText(e.data) + "-" + m + "-" + d, hora := st.time, dia := Some(DigitsValue(d)))
  }

  /** The correction keeps the year the date had. */
  lemma CorrectKeepsYear(e: Entry)
    requires |e.data| >= 4
    ensures |Correct(e).data| >= 4 && Correct(e).data[..4] == e.data[..4]
  {
  }

  // ---------------------------------------------------------------------------
  // Weekday

  /** Lines 116-119: every date must be a calendar date, and gets its weekday's name. */
  function NameWeekdays(s: seq<Entry>): (r: Result<seq<Entry>, LedgerError>)
    ensures r.Success? <==> forall i :: 0 <= i < |s| ==> ParseIso(s[i].data).Some?
    ensures r.Success? ==> |r.value| == |s| && forall i :: 0 <= i < |s| ==>
      r.value[i] == s[i].(diaSemana := WeekdayNames[Weekday(ParseIso(s[i].data).value)])
    ensures r.Failure? ==>
      && r.error.NotADate?
      && exists i :: 0 <= i < |s| && r.error.text == s[i].data && ParseIso(s[i].data).None?
  {
    if |s| == 0 then Success([])
    else match ParseIso(s[0].data)
      case None => Failure(NotADate(s[0].data))
      case Some(dt) =>
        var rest :- NameWeekdays(s[1..]);
        Success([s[0].(diaSemana := WeekdayNames[Weekday(dt)])] + rest)
  }

  // ---------------------------------------------------------------------------
  // Balance lines and renumbering

  predicate IsBalance(e: Entry) {
    ContainsSpaced(e.historico, BalanceWord)
  }

  /** `dataframe[~ignore_index]`: the rows that are not balance lines, in order. */
  function DropBalances(s: seq<Entry>): (r: seq<Entry>)
    ensures |r| <= |s|
    ensures forall e :: e in r <==> e in s && !IsBalance(e)
  {
    if |s| == 0 then []
    else (if IsBalance(s[0]) then [] else [s[0]]) + DropBalances(s[1..])
  }

  /** Filtering commutes with concatenation, so kept rows keep their order. */
  lemma {:induction false} DropBalancesAppend(a: seq<Entry>, b: seq<Entry>)
    ensures DropBalances(a + b) == DropBalances(a) + DropBalances(b)
  {
    if |a| == 0 {
      assert a + b == b;
    } else {
      assert (a + b)[1..] == a[1..] + b;
      DropBalancesAppend(a[1..], b);
    }
  }

  /** Nothing is dropped from a statement without balance lines. */
  lemma {:induction false} DropBalancesNone(s: seq<Entry>)
    requires forall i :: 0 <= i < |s| ==> !IsBalance(s[i])
    ensures DropBalances(s) == s
  {
    if |s| > 0 {
      DropBalancesNone(s[1..]);
    }
  }

  /** `dataframe.index = range(len(dataframe))`. */
  function Reindex(s: seq<Entry>): (r: seq<Entry>)
    ensures |r| == |s|
    ensures forall i :: 0 <= i < |s| ==> r[i].index == i && r[i].(index := s[i].index) == s[i]
  {
    seq(|s|, i requires 0 <= i < |s| => s[i].(index := i))
  }

  // ---------------------------------------------------------------------------
  // Which descriptions survive

  function Descriptions(s: seq<Entry>): (r: seq<string>)
    ensures |r| == |s| && forall i :: 0 <= i < |s| ==> r[i] == s[i].historico
  {
    if |s| == 0 then [] else [s[0].historico] + Descriptions(s[1..])
  }

  /** The statement's descriptions after lower-casing and accent stripping. */
  function StatementDescriptions(rows: seq<Row>): seq<string> {
    seq(|rows|, i requires 0 <= i < |rows| => Describe(rows[i].historico))
  }

  /** Each cleaned description occurs in `out` as often as among the statement's
      rows, except that balance lines are all gone when they are ignored. */
  ghost predicate KeepsDescriptions(out: seq<Entry>, rows: seq<Row>, ignoreBalances: bool) {
    forall d :: multiset(Descriptions(out))[d] ==
      if ignoreBalances && ContainsSpaced(d, BalanceWord) then 0
      else multiset(StatementDescriptions(rows))[d]
  }

  lemma DescriptionsAppend(a: seq<Entry>, b: seq<Entry>)
    ensures Descriptions(a + b) == Descriptions(a) + Descriptions(b)
  {
  }

  /** Reordering the rows reorders their descriptions. */
  lemma {:induction false} DescriptionsPermute(a: seq<Entry>, b: seq<Entry>)
    requires multiset(a) == multiset(b)
    ensures multiset(Descriptions(a)) == multiset(Descriptions(b))
    decreases |a|
  {
    if |a| == 0 {
      assert |b| == |multiset(b)|;
    } else {
      assert a[0] in multiset(b);
      var j :| 0 <= j < |b| && b[j] == a[0];
      var b' := b[..j] + b[j + 1..];
      RestPermute(a, b, j);
      DescriptionsPermute(a[1..], b');
      PermuteStep(a, b, j);
    }
  }

  lemma RestPermute(a: seq<Entry>, b: seq<Entry>, j: nat)
    requires multiset(a) == multiset(b)
    requires 0 < |a| && j < |b| && b[j] == a[0]
    ensures multiset(a[1..]) == multiset(b[..j] + b[j + 1..])
  {
    assert a[..0] + a[1..] == a[1..];
    RemoveAt(a, 0);
    RemoveAt(b, j);
  }

  lemma PermuteStep(a: seq<Entry>, b: seq<Entry>, j: nat)
    requires 0 < |a| && j < |b| && b[j] == a[0]
    requires multiset(Descriptions(a[1..])) == multiset(Descriptions(b[..j] + b[j + 1..]))
    ensures multiset(Descriptions(a)) == multiset(Descriptions(b))
  {
    var h := a[0].historico;
    assert a[..0] + a[1..] == a[1..];
    calc {
      multiset(Descriptions(a));
      { DescriptionsRemoveAt(a, 0); }
      multiset(Descriptions(a[1..])) + multiset{h};
      multiset(Descriptions(b[..j] + b[j + 1..])) + multiset{h};
      { DescriptionsRemoveAt(b, j); }
      multiset(Descriptions(b));
    }
  }

  lemma RemoveAt<T>(s: seq<T>, j: nat)
    requires j < |s|
    ensures multiset(s[..j] + s[j + 1..]) == multiset(s) - multiset{s[j]}
  {
    assert s == s[..j] + [s[j]] + s[j + 1..];
  }

  lemma DescriptionsRemoveAt(s: seq<Entry>, j: nat)
    requires j < |s|
    ensures multiset(Descriptions(s)) ==
      multiset(Descriptions(s[..j] + s[j + 1..])) + multiset{s[j].historico}
  {
    var l, x, r := s[..j], s[j], s[j + 1..];
    SplitAt(s, j);
    DescriptionsAppend(l, [x] + r);
    DescriptionsAppend([x], r);
    DescriptionsAppend(l, r);
    var dl, dr := Descriptions(l), Descriptions(r);
    assert Descriptions(s) == dl + ([x.historico] + dr);
    assert Descriptions(l + r) == dl + dr;
    MultisetAround(dl, x.historico, dr);
  }

  lemma MultisetAround<T>(a: seq<T>, x: T, b: seq<T>)
    ensures multiset(a + ([x] + b)) == multiset(a + b) + multiset{x}
  {
  }

  lemma SplitAt<T>(s: seq<T>, j: nat)
    requires j < |s|
    ensures s == s[..j] + ([s[j]] + s[j + 1..])
  {
  }

  /** After dropping balance lines from `s`, the description `d` occurs as
      often as before unless it is itself a balance line. */
  predicate CountsAfterDrop(s: seq<Entry>, d: string) {
    multiset(Descriptions(DropBalances(s)))[d] ==
      if ContainsSpaced(d, BalanceWord) then 0 else multiset(Descriptions(s))[d]
  }

  lemma {:induction false} DropBalancesCounts(s: seq<Entry>, d: string)
    ensures CountsAfterDrop(s, d)
  {
    if |s| > 0 {
      DropBalancesCounts(s[1..], d);
      if IsBalance(s[0]) {
        BalanceHeadCounts(s, d);
      } else {
        KeptHeadCounts(s, d);
      }
    }
  }

  lemma BalanceHeadCounts(s: seq<Entry>, d: string)
    requires |s| > 0 && IsBalance(s[0]) && CountsAfterDrop(s[1..], d)
    ensures CountsAfterDrop(s, d)
  {
    assert DropBalances(s) == DropBalances(s[1..]);
    assert Descriptions(s) == [s[0].historico] + Descriptions(s[1..]);
    CountCons(s[0].historico, Descriptions(s[1..]), d);
  }

  lemma KeptHeadCounts(s: seq<Entry>, d: string)
    requires |s| > 0 && !IsBalance(s[0]) && CountsAfterDrop(s[1..], d)
    ensures CountsAfterDrop(s, d)
  {
    var rest := DropBalances(s[1..]);
    assert DropBalances(s) == [s[0]] + rest;
    assert Descriptions(s) == [s[0].historico] + Descriptions(s[1..]);
    assert Descriptions([s[0]] + rest) == [s[0].historico] + Descriptions(rest);
    CountCons(s[0].historico, Descriptions(s[1..]), d);
    CountCons(s[0].historico, Descriptions(rest), d);
  }

  lemma CountCons(h: string, rest: seq<string>, d: string)
    ensures multiset([h] + rest)[d] == (if h == d then 1 else 0) + multiset(rest)[d]
  {
    assert multiset([h] + rest) == multiset{h} + multiset(rest);
  }

  /** Sorting and correcting the rows keeps their descriptions. */
  lemma PreparedDescriptions(rows: seq<Row>, prepared: seq<Entry>)
    requires Prepare(rows) == Success(prepared)
    ensures multiset(Descriptions(prepared)) == multiset(StatementDescriptions(rows))
  {
    var derived := Derive(rows).value;
    var sorted := SortBy(derived, DataKey);
    assert prepared == seq(|sorted|, i requires 0 <= i < |sorted| => Correct(sorted[i]));
    CorrectedDescriptions(sorted, prepared);
    DescriptionsPermute(sorted, derived);
    DerivedDescriptions(rows, derived);
  }

  lemma CorrectedDescriptions(sorted: seq<Entry>, prepared: seq<Entry>)
    requires prepared == seq(|sorted|, i requires 0 <= i < |sorted| => Correct(sorted[i]))
    ensures Descriptions(prepared) == Descriptions(sorted)
  {
  }

  lemma DerivedDescriptions(rows: seq<Row>, derived: seq<Entry>)
    requires Derive(rows) == Success(derived)
    ensures Descriptions(derived) == StatementDescriptions(rows)
  {
  }

  lemma NamedDescriptions(prepared: seq<Entry>, named: seq<Entry>)
    requires NameWeekdays(prepared) == Success(named)
    ensures Descriptions(named) == Descriptions(prepared)
  {
  }

  lemma KeptCounts(rows: seq<Row>, named: seq<Entry>, kept: seq<Entry>, ignoreBalances: bool)
    requires multiset(Descriptions(named)) == multiset(StatementDescriptions(rows))
    requires kept == if ignoreBalances then DropBalances(named) else named
    ensures KeepsDescriptions(Reindex(kept), rows, ignoreBalances)
  {
    assert Descriptions(Reindex(kept)) == Descriptions(kept);
    forall d
      ensures multiset(Descriptions(Reindex(kept)))[d] ==
        if ignoreBalances && ContainsSpaced(d, BalanceWord) then 0
        else multiset(StatementDescriptions(rows))[d]
    {
      if ignoreBalances {
        DropBalancesCounts(named, d);
      }
    }
  }

  /** The descriptions `Transform` ends with, from those of the statement. */
  lemma TransformDescriptions(rows: seq<Row>, prepared: seq<Entry>, named: seq<Entry>, kept: seq<Entry>, ignoreBalances: bool)
    requires Prepare(rows) == Success(prepared)
    requires NameWeekdays(prepared) == Success(named)
    requires kept == if ignoreBalances then DropBalances(named) else named
    ensures KeepsDescriptions(Reindex(kept), rows, ignoreBalances)
  {
    PreparedDescriptions(rows, prepared);
    NamedDescriptions(prepared, named);
    KeptCounts(rows, named, kept, ignoreBalances);
  }

  // ---------------------------------------------------------------------------
  // The whole transformation

  /** What each finished row says about its own date: `Ano` is its year, `Dia`
      (when present) its day, and `DiaSemana` the name of its weekday. `Mes`
      is not claimed: it is not recomputed after the correction. */
  predicate DateFacts(e: Entry) {
    match ParseIso(e.data)
    case None => false
    case Some(dt) =>
      && e.ano == dt.year
      && (e.dia.Some? ==> e.dia.value == dt.day)
      && e.diaSemana == WeekdayNames[Weekday(dt)]
  }

  /** What carries `DateFacts` through the steps before the weekday is named. */
  predicate YearAndDayAgree(e: Entry) {
    && (|e.data| == 10 ==> ParseInt(YearText(e.data)) == Some(e.ano))
    && (e.dia.Some? && |e.data| == 10 ==> AllDigits(e.data[8..]) && DigitsValue(e.data[8..]) == e.dia.value)
  }

  lemma CorrectAgrees(e: Entry)
    requires e.dia.None? && ParseInt(YearText(e.data)) == Some(e.ano)
    ensures YearAndDayAgree(Correct(e))
  {
    var r := Correct(e);
    if FindStamp(e.historico).Some? && |r.data| == 10 {
      StampShape(e.historico);
      var y := YearText(e.data);
      assert |y| == 4;
      assert r.data[..4] == y;
      assert r.data[8..] == FindStamp(e.historico).value.dayMonth[..2];
    }
  }

  lemma NamedFacts(e: Entry)
    requires YearAndDayAgree(e) && ParseIso(e.data).Some?
    ensures DateFacts(e.(diaSemana := WeekdayNames[Weekday(ParseIso(e.data).value)]))
  {
    assert e.data[..4] == YearText(e.data);
  }

  /** Lines 83-111: derived columns, rows ordered by date, dates corrected. */
  function Prepare(rows: seq<Row>): (r: Result<seq<Entry>, LedgerError>)
    ensures r.Success? ==> |r.value| == |rows|
    ensures r.Success? ==> forall i :: 0 <= i < |r.value| ==> YearAndDayAgree(r.value[i])
    ensures r.Failure? <==> Derive(rows).Failure?
    ensures r.Failure? ==> r.error.NotAnInteger?
  {
    var derived :- Derive(rows);
    var sorted := SortBy(derived, DataKey);
    SortedRowsAgree(rows, derived, sorted);
    Success(seq(|sorted|, i requires 0 <= i < |sorted| => Correct(sorted[i])))
  }

  /** Before their dates are corrected the rows stand in date order, each row
      of the statement once: the order is not restored after the correction. */
  lemma PrepareOrder(rows: seq<Row>)
    requires Prepare(rows).Success?
    ensures exists sorted: seq<Entry> ::
      && SortedBy(sorted, DataKey)
      && multiset(sorted) == multiset(Derive(rows).value)
      && |sorted| == |Prepare(rows).value|
      && forall i :: 0 <= i < |sorted| ==> Prepare(rows).value[i] == Correct(sorted[i])
  {
    var sorted := SortBy(Derive(rows).value, DataKey);
    assert forall i :: 0 <= i < |sorted| ==> Prepare(rows).value[i] == Correct(sorted[i]);
  }

  lemma SortedRowsAgree(rows: seq<Row>, derived: seq<Entry>, sorted: seq<Entry>)
    requires Derive(rows) == Success(derived)
    requires multiset(sorted) == multiset(derived)
    ensures forall i :: 0 <= i < |sorted| ==> YearAndDayAgree(Correct(sorted[i]))
  {
    forall i | 0 <= i < |sorted|
      ensures YearAndDayAgree(Correct(sorted[i]))
    {
      assert sorted[i] in multiset(derived);
      var k :| 0 <= k < |derived| && derived[k] == sorted[i];
      CorrectAgrees(sorted[i]);
    }
  }

  lemma NamedAllFacts(s: seq<Entry>, named: seq<Entry>)
    requires forall i :: 0 <= i < |s| ==> YearAndDayAgree(s[i])
    requires NameWeekdays(s) == Success(named)
    ensures forall i :: 0 <= i < |named| ==> DateFacts(named[i])
  {
    forall i | 0 <= i < |named|
      ensures DateFacts(named[i])
    {
      NamedFacts(s[i]);
    }
  }

  /** The whole of `_trata_df_extrato_cc` on a statement's rows. */
  function Transform(rows: seq<Row>, ignoreBalances: bool): (r: Result<seq<Entry>, LedgerError>)
    ensures r.Success? ==> |r.value| <= |rows|
    ensures r.Success? && !ignoreBalances ==> |r.value| == |rows|
    ensures r.Success? ==> forall i :: 0 <= i < |r.value| ==> r.value[i].index == i
    ensures r.Success? ==> forall i :: 0 <= i < |r.value| ==> DateFacts(r.value[i])
    ensures r.Success? && ignoreBalances ==> forall i :: 0 <= i < |r.value| ==> !IsBalance(r.value[i])
    ensures (exists i :: 0 <= i < |rows| && !WellDated(rows[i])) ==> r.Failure? && r.error.NotAnInteger?
    ensures r.Success? ==> KeepsDescriptions(r.value, rows, ignoreBalances)
  {
    var prepared :- Prepare(rows);
    var named :- NameWeekdays(prepared);
    NamedAllFacts(prepared, named);
    var kept := if ignoreBalances then DropBalances(named) else named;
    KeptFacts(named, kept, ignoreBalances);
    TransformDescriptions(rows, prepared, named, kept, ignoreBalances);
    Success(Reindex(kept))
  }

  lemma KeptFacts(named: seq<Entry>, kept: seq<Entry>, ignoreBalances: bool)
    requires forall i :: 0 <= i < |named| ==> DateFacts(named[i])
    requires kept == if ignoreBalances then DropBalances(named) else named
    ensures forall i :: 0 <= i < |kept| ==> DateFacts(Reindex(kept)[i])
    ensures ignoreBalances ==> forall i :: 0 <= i < |kept| ==> !IsBalance(Reindex(kept)[i])
  {
    var out := Reindex(kept);
    forall i | 0 <= i < |kept|
      ensures DateFacts(out[i]) && (ignoreBalances ==> !IsBalance(out[i]))
    {
      assert kept[i] in named;
      var j :| 0 <= j < |named| && named[j] == kept[i];
      assert out[i].(index := kept[i].index) == kept[i];
    }
  }
}
