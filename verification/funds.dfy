/** `_processa_extrato_fundo_investimento`: an investment-fund statement holds
    one record per fund, each starting where a fund title starts. The text is
    cut at those starts and each piece yields the fund's month, its name (after
    two historical renames) and eight amounts found after their labels. */
module Funds {
  import opened Wrappers
  import opened Text
  import opened Accents
  import opened Numbers
  import opened GroupedAmounts

  /** The eight amounts, in the order the source searches for them. */
  datatype Field =
    | SaldoAnterior | SaldoAtual | RendBruto | RendLiquido
    | Retirada | ImpostoRenda | Iof | Aplicacoes

  const MoneyFields: seq<Field> :=
    [SaldoAnterior, SaldoAtual, RendBruto, RendLiquido, Retirada, ImpostoRenda, Iof, Aplicacoes]

  /** The keys of a record: the month, the fund, and one per amount. */
  datatype Key = Mes | Fundo | Amount(field: Field)

  const FundKeys: set<Key> :=
    {Mes, Fundo, Amount(SaldoAnterior), Amount(SaldoAtual), Amount(RendBruto), Amount(RendLiquido),
     Amount(Retirada), Amount(ImpostoRenda), Amount(Iof), Amount(Aplicacoes)}

  /** The dictionary key each stands for. */
  function KeyName(k: Key): string {
    match k
    case Mes => "Mes"
    case Fundo => "Fundo"
    case Amount(SaldoAnterior) => "Saldo_anterior"
    case Amount(SaldoAtual) => "Saldo_atual"
    case Amount(RendBruto) => "Rend_bruto"
    case Amount(RendLiquido) => "Rend_liquido"
    case Amount(Retirada) => "Retirada"
    case Amount(ImpostoRenda) => "IR"
    case Amount(Iof) => "IOF"
    case Amount(Aplicacoes) => "Aplicacao"
  }

  /** The record's dictionary keys, as the source writes them. */
  lemma KeyNames()
    ensures (set k | k in FundKeys :: KeyName(k)) ==
      {"Mes", "Fundo", "Saldo_anterior", "Saldo_atual", "Rend_bruto", "Rend_liquido",
       "Retirada", "IR", "IOF", "Aplicacao"}
  {
  }

  /** Every key there is is one of the ten. */
  lemma AllKeysListed(k: Key)
    ensures k in FundKeys
  {
    match k
    case Mes =>
    case Fundo =>
    case Amount(f) =>
      match f
      case SaldoAnterior =>
      case SaldoAtual =>
      case RendBruto =>
      case RendLiquido =>
      case Retirada =>
      case ImpostoRenda =>
      case Iof =>
      case Aplicacoes =>
  }

  /** The label patterns, kept abstract: the capture of the first match of the
      title pattern (the fund's name), and of each amount's label pattern. */
  datatype Patterns = Patterns(title: string -> Option<string>, money: Field -> string -> Option<string>)

  datatype FundError =
    | NoRecords                               // no title at all: `end_record[0]` fails
    | NoPeriod(record: nat)                   // no date before `SALDO ATUAL`
    | NoFundName(record: nat)                 // the title pattern finds nothing in the piece
    | MissingField(record: nat, field: Field) // an amount's label pattern finds nothing

  type Record = map<Key, string>

  /** `remove_acentuacao(texto.upper())`: Latin-1 text without accented
      letters; text that is ASCII once upper-cased is just upper-cased. */
  function Normalize(texto: string): (r: string)
    ensures forall i :: 0 <= i < |r| ==> InLatin1(r[i]) && r[i] !in UpperBase && r[i] !in LowerBase
    ensures IsAscii(Upper(texto)) ==> r == Upper(texto)
  {
    RemoveAccents(Upper(texto), Latin1).value
  }

  // ---------------------------------------------------------------------------
  // Cutting the text into records

  /** Title starts as `finditer` gives them: increasing, within the text. */
  predicate ValidStarts(starts: seq<nat>, n: nat) {
    && (forall i :: 0 <= i < |starts| ==> starts[i] <= n)
    && (forall i :: 0 <= i < |starts| - 1 ==> starts[i] < starts[i + 1])
  }

  /** Where record `i` ends: at the next title, or at the end of the text. */
  function SpanEnd(starts: seq<nat>, i: nat, n: nat): nat
    requires i < |starts|
  {
    if i + 1 < |starts| then starts[i + 1] else n
  }

  /** The text of record `i`. */
  function RecordText(text: string, starts: seq<nat>, i: nat): string
    requires ValidStarts(starts, |text|) && i < |starts|
  {
    text[starts[i]..SpanEnd(starts, i, |text|)]
  }

  /** `texto[pos[0]:pos[1]]` over `zip_longest(start_record, end_record)`. */
  function Spans(text: string, starts: seq<nat>): (r: Result<seq<string>, FundError>)
    requires ValidStarts(starts, |text|)
    ensures r.Failure? <==> |starts| == 0
    ensures r.Failure? ==> r.error == NoRecords
    ensures r.Success? ==>
      && |r.value| == |starts|
      && forall i :: 0 <= i < |starts| ==> r.value[i] == RecordText(text, starts, i)
  {
    if |starts| == 0 then Failure(NoRecords)
    else Success(seq(|starts|, i requires 0 <= i < |starts| => RecordText(text, starts, i)))
  }

  function Concat(pieces: seq<string>): string {
    if |pieces| == 0 then "" else pieces[0] + Concat(pieces[1..])
  }

  lemma {:induction false} SpansFrom(text: string, starts: seq<nat>, spans: seq<string>, j: nat)
    requires ValidStarts(starts, |text|) && Spans(text, starts) == Success(spans)
    requires j < |starts|
    ensures Concat(spans[j..]) == text[starts[j]..]
    decreases |starts| - j
  {
    var e := SpanEnd(starts, j, |text|);
    var tail := spans[j..];
    assert tail[0] == spans[j] == RecordText(text, starts, j) == text[starts[j]..e];
    assert Concat(tail) == tail[0] + Concat(tail[1..]);
    if j + 1 < |starts| {
      assert tail[1..] == spans[j + 1..];
      SpansFrom(text, starts, spans, j + 1);
      assert e == starts[j + 1];
      assert text[starts[j]..] == text[starts[j]..e] + text[e..];
    } else {
      assert tail[1..] == [];
      assert e == |text|;
      assert text[starts[j]..e] + "" == text[starts[j]..];
    }
  }

  /** The records are the text from the first title on, cut at every title:
      in order, without overlap and without a gap. */
  lemma SpansPartition(text: string, starts: seq<nat>)
    requires ValidStarts(starts, |text|) && |starts| > 0
    ensures Concat(Spans(text, starts).value) == text[starts[0]..]
  {
    var spans := Spans(text, starts).value;
    SpansFrom(text, starts, spans, 0);
    assert spans[0..] == spans;
  }

  // ---------------------------------------------------------------------------
  // The month: `\d{2}/(\d{2})/(\d{4})\s?SALDO ATUAL`

  const SaldoAtualLabel: string := "SALDO ATUAL"

  /** A `DD/MM/YYYY` date, optionally one whitespace, then `SALDO ATUAL`, at `i`. */
  predicate PeriodAt(s: string, i: nat) {
    && i + 10 <= |s|
    && AllDigits(s[i..i + 2]) && s[i + 2] == '/' && AllDigits(s[i + 3..i + 5])
    && s[i + 5] == '/' && AllDigits(s[i + 6..i + 10])
    && (OccursAt(s, SaldoAtualLabel, i + 10)
        || (i + 10 < |s| && IsSpace(s[i + 10]) && OccursAt(s, SaldoAtualLabel, i + 11)))
  }

  function FirstPeriodFrom(s: string, i: nat): (r: Option<nat>)
    ensures r.Some? ==> i <= r.value && PeriodAt(s, r.value)
    ensures forall j :: i <= j && (r.None? || j < r.value) ==> !PeriodAt(s, j)
    decreases |s| - i
  {
    if i + 10 > |s| then None
    else if PeriodAt(s, i) then Some(i)
    else FirstPeriodFrom(s, i + 1)
  }

  /** `'{}-{}'.format(ano, mes)` from the first match: `YYYY-MM`. */
  function Period(s: string): (r: Option<string>)
    ensures r.None? <==> forall j :: !PeriodAt(s, j)
    ensures r.Some? ==>
      && |r.value| == 7 && r.value[4] == '-'
      && AllDigits(r.value[..4]) && AllDigits(r.value[5..])
    ensures r.Some? ==> exists i: nat ::
      && PeriodAt(s, i) && (forall k :: 0 <= k < i ==> !PeriodAt(s, k))
      && r.value == s[i + 6..i + 10] + "-" + s[i + 3..i + 5]
  {
    match FirstPeriodFrom(s, 0)
    case None => None
    case Some(i) =>
      var r := s[i + 6..i + 10] + "-" + s[i + 3..i + 5];
      assert r[..4] == s[i + 6..i + 10] && r[5..] == s[i + 3..i + 5];
      assert forall k :: 0 <= k < i ==> !PeriodAt(s, k);
      Some(r)
  }

  // ---------------------------------------------------------------------------
  // The fund's name

  /** Two funds were renamed in 2016-05; their old names map to the new ones. */
  const Renames: map<string, string> :=
    map["DIVIDA EXTERN MIL" := "RF DIVIDA EXT MIL", "REF DI LP 250 MIL" := "RF REF DI 250 MIL"]

  function Rename(name: string): (r: string)
    ensures r !in Renames
    ensures name !in Renames ==> r == name
    ensures name == "DIVIDA EXTERN MIL" ==> r == "RF DIVIDA EXT MIL"
    ensures name == "REF DI LP 250 MIL" ==> r == "RF REF DI 250 MIL"
  {
    assert "RF DIVIDA EXT MIL" != "DIVIDA EXTERN MIL" && "RF DIVIDA EXT MIL" != "REF DI LP 250 MIL";
    assert "RF REF DI 250 MIL" != "DIVIDA EXTERN MIL" && "RF REF DI 250 MIL" != "REF DI LP 250 MIL";
    if name in Renames then Renames[name] else name
  }

  /** Renaming twice is renaming once. */
  lemma RenameIdempotent(name: string)
    ensures Rename(Rename(name)) == Rename(name)
  {
  }

  // ---------------------------------------------------------------------------
  // One record

  /** The amounts of `fields`, in order; the first that is missing aborts. */
  function ReadFields(span: string, k: nat, pats: Patterns, fields: seq<Field>): (r: Result<seq<string>, FundError>)
    ensures r.Success? <==> forall i :: 0 <= i < |fields| ==> pats.money(fields[i])(span).Some?
    ensures r.Success? ==>
      && |r.value| == |fields|
      && forall i :: 0 <= i < |fields| ==> Some(r.value[i]) == pats.money(fields[i])(span)
    ensures r.Failure? ==>
      && r.error.MissingField? && r.error.record == k
      && r.error.field in fields && pats.money(r.error.field)(span).None?
  {
    if |fields| == 0 then Success([])
    else match pats.money(fields[0])(span)
      case None => Failure(MissingField(k, fields[0]))
      case Some(v) =>
        var rest :- ReadFields(span, k, pats, fields[1..]);
        Success([v] + rest)
  }

  /** The record of one span, its amounts already found. */
  function MakeRecord(mes: string, fundo: string, span: string, pats: Patterns): (r: Record)
    requires forall f :: pats.money(f)(span).Some?
    ensures r.Keys == FundKeys
  {
    map k | k in FundKeys :: match k
      case Mes => mes
      case Fundo => fundo
      case Amount(f) => pats.money(f)(span).value
  }

  /** The loop body for record `k`: month, name, then the eight amounts. */
  function BuildRecord(span: string, k: nat, pats: Patterns): (r: Result<Record, FundError>)
    ensures r.Success? ==> r.value.Keys == FundKeys
    ensures r.Success? ==> forall f :: Amount(f) in r.value
    ensures r.Success? ==> Period(span) == Some(r.value[Mes])
    ensures r.Success? ==> pats.title(span).Some? && r.value[Fundo] == Rename(pats.title(span).value)
    ensures r.Success? ==> forall f :: Some(r.value[Amount(f)]) == pats.money(f)(span)
    ensures r.Failure? <==>
      Period(span).None? || pats.title(span).None? || exists f :: pats.money(f)(span).None?
    ensures Period(span).None? ==> r == Failure(NoPeriod(k))
  {
    match Period(span)
    case None => Failure(NoPeriod(k))
    case Some(mes) =>
      match pats.title(span)
      case None => Failure(NoFundName(k))
      case Some(name) =>
        var _ :- ReadFields(span, k, pats, MoneyFields);
        AllFieldsListed();
        assert forall f :: pats.money(f)(span).Some? by {
          forall f ensures pats.money(f)(span).Some? {
            assert f in MoneyFields;
            var i :| 0 <= i < |MoneyFields| && MoneyFields[i] == f;
          }
        }
        var r := MakeRecord(mes, Rename(name), span, pats);
        assert forall f :: Amount(f) in r by {
          forall f ensures Amount(f) in r {
            AllKeysListed(Amount(f));
          }
        }
        Success(r)
  }

  lemma AllFieldsListed()
    ensures forall f :: f in MoneyFields
  {
    forall f ensures f in MoneyFields {
      match f
      case SaldoAnterior => assert MoneyFields[0] == f;
      case SaldoAtual => assert MoneyFields[1] == f;
      case RendBruto => assert MoneyFields[2] == f;
      case RendLiquido => assert MoneyFields[3] == f;
      case Retirada => assert MoneyFields[4] == f;
      case ImpostoRenda => assert MoneyFields[5] == f;
      case Iof => assert MoneyFields[6] == f;
      case Aplicacoes => assert MoneyFields[7] == f;
    }
  }

  // ---------------------------------------------------------------------------
  // The whole statement

  /** The `for` loop over the records, numbering them from `k`; `build` is the
      loop body, and the first record that fails aborts the loop. */
  function BuildAll(spans: seq<string>, k: nat, build: (string, nat) -> Result<Record, FundError>)
    : (r: Result<seq<Record>, FundError>)
    ensures r.Success? <==> forall i :: 0 <= i < |spans| ==> build(spans[i], k + i).Success?
    ensures r.Success? ==>
      && |r.value| == |spans|
      && forall i :: 0 <= i < |spans| ==> Success(r.value[i]) == build(spans[i], k + i)
    decreases |spans|
  {
    if |spans| == 0 then Success([])
    else
      var first :- build(spans[0], k);
      var rest :- BuildAll(spans[1..], k + 1, build);
      Success([first] + rest)
  }

  /** The loop of `_processa_extrato_fundo_investimento` over the normalized
      text: any record that lacks a field aborts the call. */
  function ProcessText(text: string, starts: seq<nat>, pats: Patterns): (r: Result<seq<Record>, FundError>)
    requires ValidStarts(starts, |text|)
    ensures |starts| == 0 ==> r == Failure(NoRecords)
    ensures r.Success? ==> |r.value| == |starts|
    ensures r.Success? ==> forall i :: 0 <= i < |r.value| ==> r.value[i].Keys == FundKeys
    ensures r.Success? ==> forall i :: 0 <= i < |r.value| ==>
      Success(r.value[i]) == BuildRecord(RecordText(text, starts, i), i, pats)
    ensures |starts| > 0 ==>
      (r.Success? <==> forall i :: 0 <= i < |starts| ==> BuildRecord(RecordText(text, starts, i), i, pats).Success?)
  {
    var spans :- Spans(text, starts);
    BuildAll(spans, 0, (span: string, k: nat) => BuildRecord(span, k, pats))
  }

  /** `_processa_extrato_fundo_investimento(texto)`, the title starts being those
      of the normalized text. */
  function ProcessStatement(texto: string, starts: seq<nat>, pats: Patterns): (r: Result<seq<Record>, FundError>)
    requires ValidStarts(starts, |Normalize(texto)|)
    ensures |starts| == 0 ==> r == Failure(NoRecords)
    ensures r.Success? ==> |r.value| == |starts|
    ensures r.Success? ==> forall i :: 0 <= i < |r.value| ==> r.value[i].Keys == FundKeys
  {
    ProcessText(Normalize(texto), starts, pats)
  }

  /** When the label patterns capture money amounts, as `__re_brl` does, every
      amount of a record is read by `locale.atof` later on. */
  lemma RecordAmountsRead(span: string, k: nat, pats: Patterns)
    requires BuildRecord(span, k, pats).Success?
    requires forall f :: pats.money(f)(span).Some? ==> IsBrlGrouped(pats.money(f)(span).value)
    ensures forall f :: Amount(f) in BuildRecord(span, k, pats).value
    ensures forall f :: LocaleAtof(BuildRecord(span, k, pats).value[Amount(f)]).Some?
  {
    forall f ensures LocaleAtof(BuildRecord(span, k, pats).value[Amount(f)]).Some? {
      GroupedParses(pats.money(f)(span).value);
    }
  }
}
