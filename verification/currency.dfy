/** `converte_moeda`: every column of a table is offered to `locale.atof`, cell
    by cell, and is replaced by the numbers read only if every one of its cells
    is read; the first cell that fails leaves the whole column as it was. */
module Currency {
  import opened Wrappers
  import opened Text
  import opened Numbers

  /** A column before the pass: its label and its cells as text (`astype(str)`). */
  datatype TextColumn = TextColumn(name: string, cells: seq<string>)

  /** A column after the pass: replaced by floats, or left exactly as it was. */
  datatype Column =
    | Numeric(name: string, values: seq<real>)
    | Unchanged(name: string, cells: seq<string>)

  /** Every cell of the column is read by `locale.atof`. */
  predicate AllRead(cells: seq<string>) {
    forall i :: 0 <= i < |cells| ==> LocaleAtof(cells[i]).Some?
  }

  /** `locale.atof` reads `cell` as `v`. */
  predicate ReadAs(cell: string, v: real) {
    LocaleAtof(cell).Some? && v == Value(LocaleAtof(cell).value)
  }

  /** How one output column relates to its input column: same label, numbers
      exactly when every cell is read (each the value of its own cell), and
      otherwise the very same cells. */
  ghost predicate ConvertedFrom(col: TextColumn, out: Column) {
    && out.name == col.name
    && (out.Numeric? <==> AllRead(col.cells))
    && (out.Numeric? ==>
          && |out.values| == |col.cells|
          && forall i :: 0 <= i < |col.cells| ==> out.values[i] == Value(LocaleAtof(col.cells[i]).value))
    && (out.Unchanged? ==> out.cells == col.cells)
  }

  /** The `try` body of one column: `apply(locale.atof)` stops at the first
      `ValueError`, which is silenced and leaves the column untouched. */
  method ConvertColumn(col: TextColumn) returns (out: Column)
    ensures ConvertedFrom(col, out)
  {
    var values: seq<real> := [];
    var i := 0;
    while i < |col.cells|
      invariant 0 <= i <= |col.cells|
      invariant |values| == i
      invariant forall j :: 0 <= j < i ==> ReadAs(col.cells[j], values[j])
    {
      var d := LocaleAtof(col.cells[i]);
      if d.None? {
        return Unchanged(col.name, col.cells);
      }
      assert ReadAs(col.cells[i], Value(d.value));
      values := values + [Value(d.value)];
      i := i + 1;
    }
    return Numeric(col.name, values);
  }

  /** `converte_moeda(dataframe)`: columns keep their order and labels, and each
      is converted or left alone on its own cells only. */
  method ConvertCurrency(table: seq<TextColumn>) returns (out: seq<Column>)
    ensures |out| == |table|
    ensures forall k :: 0 <= k < |table| ==> ConvertedFrom(table[k], out[k])
  {
    out := [];
    var k := 0;
    while k < |table|
      invariant 0 <= k <= |table|
      invariant |out| == k
      invariant forall j :: 0 <= j < k ==> ConvertedFrom(table[j], out[j])
    {
      var c := ConvertColumn(table[k]);
      out := out + [c];
      k := k + 1;
    }
  }

  /** Digits with thousands points anywhere among them. */
  predicate DigitsAndPoints(w: string) {
    forall i :: 0 <= i < |w| ==> IsDigit(w[i]) || w[i] == ThousandsSeparator
  }

  lemma {:induction false} DelocalizeDigitsAndPoints(w: string)
    requires DigitsAndPoints(w)
    ensures Delocalize(w) == DigitsOf(w)
  {
    if |w| > 0 {
      assert DigitsAndPoints(w[1..]);
      DelocalizeDigitsAndPoints(w[1..]);
    }
  }

  lemma DelocalizeComma(w: string, f: string)
    requires DigitsAndPoints(w) && AllDigits(f)
    ensures Delocalize(w + ("," + f)) == DigitsOf(w) + ("." + f)
  {
    DelocalizeDigitsAndPoints(w);
    DigitsUnchanged(f);
    DelocalizeAppend(w, "," + f);
    DelocalizeAppend(",", f);
    assert ","[1..] == "";
  }

  /** Digits and points, a comma, and digits, with a digit somewhere: read as
      all its digits over a power of ten for the ones after the comma, however
      the points are placed. */
  lemma PtBrRead(w: string, f: string)
    requires DigitsAndPoints(w) && AllDigits(f) && |DigitsOf(w)| + |f| >= 1
    ensures AllDigits(DigitsOf(w) + f)
    ensures LocaleAtof(w + "," + f) == Some(Decimal(DigitsValue(DigitsOf(w) + f), |f|))
  {
    var ip := DigitsOf(w);
    AllDigitsAppend(ip, f);
    DelocalizeComma(w, f);
    assert w + "," + f == w + ("," + f);
    var t := Delocalize(w + "," + f);
    assert t == "" + ip + "." + f;
    var d := Decimal(DigitsValue(ip + f), |f|);
    assert DenotesWith(t, d, "", ip, f);
    ParseFloatWith(t, d, "", ip, f);
  }

  // ---------------------------------------------------------------------------
  // Cells of the module's own test table

  const BillionWhole: string := "1.234.567.890"
  const BillionCents: string := "12"

  /** "1.234.567.890,12" has three thousands points and is still read as a number. */
  lemma BillionRead()
    ensures LocaleAtof(BillionWhole + "," + BillionCents).Some?
  {
    assert DigitsAndPoints(BillionWhole);
    assert AllDigits(BillionCents);
    PtBrRead(BillionWhole, BillionCents);
  }

  const Letter: string := "a"

  lemma LetterRefused()
    ensures LocaleAtof(Letter) == None
  {
    assert Delocalize(Letter) == Letter;
    assert FirstIndex(Letter, '.') == 1;
  }

  /** The test's en-US column and its column of words stay as they were: each
      holds a cell that is refused ("1,234,567.89" and "a"). */
  lemma RefusedColumnsUnchanged(enUs: seq<string>, words: seq<string>, out1: Column, out2: Column)
    requires |enUs| > 5 && enUs[5] == EnUsSample && |words| > 0 && words[0] == Letter
    requires ConvertedFrom(TextColumn("numero_en_us", enUs), out1)
    requires ConvertedFrom(TextColumn("string", words), out2)
    ensures out1 == Unchanged("numero_en_us", enUs) && out2 == Unchanged("string", words)
  {
    RefusesEnUs();
    LetterRefused();
  }
}
