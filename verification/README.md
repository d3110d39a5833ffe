# Banco do Brasil statement extractor — a Dafny model

`banco_brasil.py` turns statements exported from Banco do Brasil's web
site into tables. It has three parts. The checking-account part reads CSV
exports into a ledger. The investment-fund part cuts a text report into
one monthly record per fund. The BrasilPrev part reads the figures of a
pension-plan text statement. All three share two helpers: one reads
Brazilian-formatted numbers ("1.234,56") and one strips accents.

This project models that logic as pure Dafny functions over sequences.
It proves what each step computes, which inputs make it fail, and how the
steps fit together:

- `Numbers` models `locale.atof` under the pt_BR locale. The result is an
  exact decimal, not a float. The module also models the currency pattern
  `__re_brl`.
- `Currency` models `converte_moeda`: a column becomes numeric only when
  every one of its cells reads.
- `Accents` models `remove_acentuacao`: NFKD decomposition, then an
  encode to Latin-1 that drops what Latin-1 cannot hold.
- `Calendar` holds the proleptic Gregorian calendar, the weekday formula
  of Python's `date.weekday`, ISO date text and the pandas Timestamp range.
- `Scan` holds the two text searches the ledger uses:
  - the `dd/mm hh:mm` stamp found inside a ledger description;
  - the case-insensitive `s\s*a\s*l\s*d\s*o` test that marks balance lines.
- `Sorting` models the sort of the ledger by its `Data` text.
- `Ledger` models `_trata_df_extrato_cc`, step by step and as a whole
  (`Ledger.Transform`).
- `Funds` models `_processa_extrato_fundo_investimento`. The title and
  amount regexes are parameters (`Funds.Patterns`); the record cutting,
  period, renames and error paths are modelled concretely.
- `BrasilPrev` models the per-file body of `compila_brasilprev`. The
  regexes are parameters (`BrasilPrev.Patterns`); the mandatory and
  optional fields and the month taken from the file name are modelled
  concretely.
- `GroupedAmounts` holds the finding below about `__re_brl`.

The date column of the CSV export is read as MM/DD/YYYY. The slicing at
`banco_brasil.py:85` takes the year from the last four characters, the
month from characters 0-1 and the day from characters 3-4. The method's
docstring (`banco_brasil.py:65`) says DD/MM/YYYY. The model follows the code.

## Model

| member | source | states |
|---|---|---|
| Numbers.LocaleAtofSpec | banco_brasil.py:37 | `locale.atof` under pt_BR yields decimal d exactly when the text, with '.' removed and ',' turned into the decimal point, is a float literal denoting d (both directions) |
| Numbers.ReadsPtBr | banco_brasil.py:37 | "1.234,56" reads as 1234.56 |
| Numbers.ReadsFractionOnly | test_banco_brasil.py:17 | ",0" reads as 0: a fraction with no integer part is accepted |
| Numbers.RefusesEnUs | test_banco_brasil.py:24 | "1,234,567.89" (en-US grouping) is refused, so that column stays text |
| Numbers.IsBrlMatches | banco_brasil.py:156 | the hand-written recogniser of the currency pattern accepts exactly the strings the pattern's structure describes (sign, at most one 'ddd.' group, digits, ',dd') |
| Numbers.BrlSample | banco_brasil.py:156 | "1.234,56", with one thousands group, is matched by the currency pattern |
| Numbers.BrlParses | banco_brasil.py:156 | every string the currency pattern matches is read by `locale.atof` as its sign times its digits, with two decimal places |
| Currency.ConvertColumn | banco_brasil.py:34-39 | a column becomes numeric exactly when every cell reads, each value being its cell's reading; otherwise it is left as it was and the error is silenced |
| Currency.ConvertCurrency | banco_brasil.py:18-40 | every column of the table is converted independently by that rule; the column count is kept |
| Numbers.ReadsInteger | test_banco_brasil.py:29 | the cell "7890" reads as 7890 |
| Numbers.DigitStringRead | test_banco_brasil.py:27-30 | a cell of decimal digits reads as its integer value, so integer columns become numeric too |
| Currency.PtBrRead | banco_brasil.py:22-23 | digits with '.' thousands separators, a ',' and a fraction read as the digits' value scaled by the fraction length |
| Currency.BillionRead | test_banco_brasil.py:18 | "1.234.567.890,12", with three thousands points, is read as a number |
| Currency.RefusedColumnsUnchanged | test_banco_brasil.py:39-42 | the en-US column and the word column of the test table stay text |
| Accents.RemoveAccents | banco_brasil.py:42-57 | any encoding other than latin-1 fails; otherwise the result holds only Latin-1 characters, none of them an accented letter of the table of accented Latin-1 letters, and ASCII text comes back unchanged |
| Accents.StripsAccentedCapital | banco_brasil.py:44-46 | every accented capital of Latin-1 (and Ÿ) becomes its unaccented capital, as listed in an independent table of the 27 letters |
| Accents.StripsAccentedSmall | banco_brasil.py:44-46 | every accented small letter of Latin-1 becomes its unaccented small letter, as listed in an independent table of the 27 letters |
| Accents.RemoveAccentsIdempotent | banco_brasil.py:56-57 | stripping accents twice gives the same text as once |
| Accents.RemoveAccentsExample | test_banco_brasil.py:45 | "áÊïÕùç" becomes "aEiOuc" |
| Accents.OtherEncodingFails | test_banco_brasil.py:46-47 | asking for 'utf-8' raises the not-implemented error |
| Calendar.ParseFormat | banco_brasil.py:85 | a valid date in the Timestamp range, written YYYY-MM-DD, parses back to itself |
| Calendar.FormatParse | banco_brasil.py:85 | any text that parses as a date is exactly that date's YYYY-MM-DD form |
| Calendar.NextDayWeekday | banco_brasil.py:118-119 | the weekday of the next day is the following weekday, modulo 7 |
| Calendar.MillenniumSaturday | banco_brasil.py:118-119 | 2000-01-01 has weekday 5 (Saturday, counting Monday as 0) |
| Scan.FindStamp | banco_brasil.py:92-93 | the extract yields nothing exactly when no `dd/mm` followed by a whitespace character occurs; otherwise it yields the groups of the leftmost such match, with the `hh:mm` right after it when one is there |
| Scan.StampExample | banco_brasil.py:92 | "pix 12/03 14:35" yields day-month "12/03" and time "14:35" |
| Scan.ContainsSpacedIff | banco_brasil.py:123-124 | the balance test holds exactly when, after lower-casing, the word occurs with only whitespace between its letters |
| Scan.SpacedExample | banco_brasil.py:123-124 | "s a l d o anterior" is recognised as a balance line |
| Text.Lower | banco_brasil.py:83 | character by character, Python's lower case of Latin-1 and Ÿ; no capital ASCII letter is left |
| Text.LowerIdempotent | banco_brasil.py:83 | lower-casing twice is lower-casing once |
| Text.UpperChar | banco_brasil.py:172 | one character upper-cased: the character with the same lower case, and the capital one whenever the letter has a capital; ß becomes "SS" and µ the Greek capital mu |
| Text.Upper | banco_brasil.py:172 | no small ASCII letter is left; only ß lengthens the text, and text without ß is upper-cased character by character in place |
| Text.LowerUpper | banco_brasil.py:172 | on text without ß and µ, lower-casing the upper-cased text gives the lower-cased text, so upper-casing changes only the case of letters |
| Text.UpperSharpS | banco_brasil.py:172 | "straße" upper-cases to "STRASSE", one letter longer |
| Text.ParseInt | banco_brasil.py:87-88 | `int()` on text: defined exactly for ASCII digits with an optional sign; the value is the digits' value, negated after '-' |
| Text.UpperIdempotent | banco_brasil.py:297 | upper-casing twice is upper-casing once |
| Sorting.SortBy | banco_brasil.py:89 | the result is ordered by key and is a permutation of the input |
| Ledger.IsoFromStatementFormat | banco_brasil.py:85 | rewriting an MM/DD/YYYY date into YYYY-MM-DD order yields the ISO text of the same date |
| Ledger.StatementDateReads | banco_brasil.py:85 | the rewritten date of a valid MM/DD/YYYY token parses as that date |
| Ledger.ReadInts | banco_brasil.py:87-88 | `astype(int)` on text succeeds exactly when every cell is an optional sign followed by ASCII digits, each read as its value; otherwise it fails naming a cell that is not |
| Ledger.Derive | banco_brasil.py:83-88 | each entry gets the lower-cased, accent-free description, the rewritten date, AnoMes, Mes and Ano; it fails with the offending text exactly when some row's date pieces are not integers |
| Ledger.Describe | banco_brasil.py:83 | the cleaned description holds only Latin-1 characters and no accented letter; an ASCII description is just lower-cased |
| Ledger.Prepare | banco_brasil.py:83-111 | keeps the row count, fails exactly when deriving the columns fails, and leaves every row's `Ano` and `Dia` in agreement with its corrected date |
| Ledger.PrepareOrder | banco_brasil.py:89 | after the sort the entries are ordered by `Data` and are a permutation of the derived entries |
| Ledger.Correct | banco_brasil.py:95-111 | an entry with a stamp gets its hour, its day, and a date built from its year and the stamp's day and month; an entry without one only loses its hour and day; nothing else changes |
| Ledger.CorrectKeepsYear | banco_brasil.py:107 | the correction keeps the year of the date |
| Ledger.NameWeekdays | banco_brasil.py:116-119 | fails unless every date parses; otherwise each entry is named with its date's weekday ("Seg" … "Dom") and nothing else changes |
| Ledger.DropBalances | banco_brasil.py:121-125 | an entry is kept exactly when its description is not a balance line ("saldo", letters possibly spaced apart) |
| Ledger.DropBalancesAppend | banco_brasil.py:125 | the filter distributes over concatenation, so kept entries stay in their original order |
| Ledger.DropBalancesNone | banco_brasil.py:121-125 | a statement with no balance line loses nothing to the filter |
| Ledger.Reindex | banco_brasil.py:127 | entry i gets index i; nothing else changes |
| Ledger.Transform | banco_brasil.py:59-128 | the whole method: row count kept, or shrunk when balances are dropped; indexes 0..n-1; no balance line left when asked; every cleaned description of the statement survives as often as it occurs, except the balance lines when they are ignored; Ano, Dia and DiaSemana agree with each final date; a non-integer date fails |
| Ledger.DropBalancesCounts | banco_brasil.py:121-125 | counted per description, the filter removes every balance line and keeps every other description as often as it occurred |
| Ledger.DescriptionsPermute | banco_brasil.py:89 | sorting the rows reorders their descriptions without adding or losing any |
| Funds.Spans | banco_brasil.py:173-177 | each record runs from one title match to the next, the last to the end of the text |
| Funds.SpansPartition | banco_brasil.py:177 | the records, concatenated, are the text from the first title on |
| Funds.Period | banco_brasil.py:166-188 | nothing is found exactly when no `dd/mm/yyyy`, an optional whitespace and "SALDO ATUAL" occur; otherwise the value is year, '-', month of the leftmost such match, which has the form YYYY-MM |
| Funds.Rename | banco_brasil.py:192-196 | "DIVIDA EXTERN MIL" becomes "RF DIVIDA EXT MIL", "REF DI LP 250 MIL" becomes "RF REF DI 250 MIL", the result is never a retired name, and any other name is kept |
| Funds.RenameIdempotent | banco_brasil.py:192-196 | renaming the two retired fund names is idempotent |
| Funds.KeyNames | test_banco_brasil.py:91-93 | the ten keys of a record are named exactly as the test's expected key set |
| Funds.ReadFields | banco_brasil.py:201-212 | the eight amount searches succeed exactly when every one hits, each value being its capture; otherwise the error names the record and an amount whose search missed |
| Funds.BuildRecord | banco_brasil.py:184-212 | a record holds exactly Mes, Fundo and the eight amounts, each the capture of its pattern; it fails exactly when the period, the title or some amount is missing |
| Funds.Normalize | banco_brasil.py:172 | the normalized text holds only Latin-1 characters and no accented letter; text that is ASCII once upper-cased is just upper-cased |
| Funds.ProcessText | banco_brasil.py:172-216 | no title fails; otherwise there is one record per title, record `i` being what the loop body builds from the text between title `i` and title `i+1`, and the result succeeds exactly when every record builds |
| Funds.ProcessStatement | banco_brasil.py:169-171 | after upper-casing and removing accents, no title fails and a success holds one record per title, each with exactly the ten keys |
| Funds.RecordAmountsRead | banco_brasil.py:241-243 | when the captured amounts have the currency shape (any number of groups), every amount of the record reads as a number |
| BrasilPrev.YearMonthIn | banco_brasil.py:353 | the month search of the file name finds something exactly when a `dddd-dd` occurs in it, and then yields the leftmost occurrence |
| BrasilPrev.Normalize | banco_brasil.py:296-298 | the normalized text holds no small ASCII letter, and ASCII text is just upper-cased |
| BrasilPrev.ReadStatement | banco_brasil.py:294-353 | one file: fails exactly when a mandatory search misses in the normalized text; otherwise every value is its search's capture and Mes is the month found in the file name |
| BrasilPrev.Assemble | banco_brasil.py:302-353 | fails exactly when a mandatory search misses; otherwise the statement holds exactly the keys whose search hit, each with its capture |
| BrasilPrev.MandatoryPresent | banco_brasil.py:306-351 | a successful statement holds every mandatory key |
| BrasilPrev.ContributionsPaired | banco_brasil.py:314-336 | an optional contribution's quota count and value are present together or absent together |
| BrasilPrev.MonthShape | banco_brasil.py:353 | the statement's Mes has the form YYYY-MM |
| GroupedAmounts.MillionPrefixesRefused | banco_brasil.py:156 | no prefix of "1.234.567,89" is matched by the currency pattern as written |
| GroupedAmounts.MillionGrouped | test_banco_brasil.py:18 | "1.234.567,89", a cell of the test table and the input of the finding below, is matched by the corrected pattern |
| GroupedAmounts.GroupedExtends | banco_brasil.py:156 | the corrected pattern accepts everything the written one does |
| GroupedAmounts.GroupedParses | banco_brasil.py:156 | every string of the corrected pattern reads as its sign times its digits, with two decimal places |

## Left out

- Files and folders: globbing, opening, CSV and text reading, and the
  frame concatenation in `compila_conta_corrente`,
  `compila_fundo_investimento` and `compila_brasilprev` are left out. The
  model starts from the rows or the text already read.
- pandas frame mechanics are left out: dtypes, column reordering,
  `pd.DataFrame(book)` and `pd.concat`. A ledger row is a Dafny datatype.
  The fund and BrasilPrev statements are maps keyed by a datatype, not by
  column strings.
- Floating point: amounts are exact decimals and reals, not float64.
  Rounding is not modelled.
- Numbers.LocaleAtof: Python's float grammar is modelled for an optional
  sign, digits and one point. Not modelled: exponents, surrounding
  whitespace, underscores, "inf" and "nan", and characters other than
  ASCII digits. Each of these is refused by the model.
- Accents.RemoveAccents: NFKD is modelled by a decomposition table for
  Latin-1 letters only. A character above U+00FF is dropped whole, even
  when its NFKD form would keep a Latin-1 base letter.
- Text.Lower, Text.Upper: the case mapping covers Latin-1 and Ÿ only.
- Ledger.ReadInts: Python's `int()` also accepts surrounding whitespace,
  `_` between digits and non-ASCII decimal digits. `Text.ParseInt` accepts
  only an optional sign and ASCII digits, so a month slice such as " 1"
  fails in the model but reads as 1 in the source.
- BrasilPrev.YearMonthIn: the file name is not normalized, so the
  source's `\d` also matches non-ASCII decimal digits. The model matches
  ASCII digits only.
- BrasilPrev column names: the source's keys such as `FIX_SldAnt_Cts` are
  represented by the `BrasilPrev.Key` datatype. The strings themselves
  are not modelled.
- Calendar.ParseIso: `pd.to_datetime` accepts many layouts. The model
  accepts only the YYYY-MM-DD text that `Ledger.IsoFromStatement` builds, within
  the Timestamp range 1677-09-22 to 2262-04-11.
- Scan.ContainsSpaced: the pattern `s\s*a\s*\l\s*d\s*o` reads `\l` as a
  literal `l`, as older Python versions did. Python 3.6 and later reject
  `\l` as a bad escape, and the filter would then raise.
- Sorting.SortBy: the sort is stated as ordered and a permutation. Its
  stability is not stated.
- Ledger.Correct: `Mes` and `AnoMes` are not recomputed after a date is
  corrected. The model does the same, so `Ledger.Transform` states
  agreement for `Ano`, `Dia` and `DiaSemana` only.
- Ledger.Transform: which descriptions survive is stated as counts. Their
  order is that of the date sort, whose order among equal dates is not stated.
- Ledger.Transform: the failure for an unparsable date is stated by
  `Ledger.NameWeekdays`, not again at the top level.
- Missing descriptions: a missing (NaN) description makes
  `remove_acentuacao` raise a TypeError, because `unicodedata.normalize`
  refuses a float. This is not modelled: descriptions are always text.
- The `Documento` text conversion and `Valor` are carried through
  unchanged.
- Funds.Patterns, BrasilPrev.Patterns: the title, amount and movement
  regexes (`banco_brasil.py:157-165` and the BrasilPrev patterns) are
  parameters. Their exact text is not modelled.
- The `pasta` argument of `compila_brasilprev` is ignored by the source
  (it always globs the built-in folder). It is not modelled.
- Error messages and logging are reduced to the error datatypes.

## Findings

| source | as written | input that shows it | evidently intended | confidence | as-written member | corrected member |
|---|---|---|---|---|---|---|
| banco_brasil.py:156 | the currency pattern allows at most one `ddd.` thousands group, `(?:\d{1,3}\.)?`, so an amount of a million or more never matches and the fund-field search raises | "1.234.567,89": neither it nor any prefix of it matches | any number of groups, `(?:\d{1,3}\.)*`, as the docstring's "1.234.567,890" example shows; `GroupedAmounts.MillionGrouped` shows the corrected pattern accepts the input | not executed; medium | GroupedAmounts.MillionPrefixesRefused | GroupedAmounts.GroupedParses |
