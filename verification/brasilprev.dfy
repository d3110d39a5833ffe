/** The record assembly inside `compila_brasilprev`: one pension statement
    gives one record of quotas (`_Cts`) and values (`_Vlr`) per movement and
    fund, the accumulated and per-fund yields, and the month named in the file
    name. Balances are required; contributions appear only when the statement
    has them. */
module BrasilPrev {
  import opened Wrappers
  import opened Text
  import opened Accents

  /** The two funds of the plan: `RT FIX V FIC` and `RT COMPOSTO RV 20 V FIC`
      (`FIX` and `COMP` in the column names). */
  datatype Fund = Fix | Comp

  /** The movements of the history section (`SldAnt`, `ContrPer`, `ContrEsp`
      and `SldAtual` in the column names). */
  datatype Movement = SaldoAnterior | ContribPeriodica | ContribEsporadica | SaldoAtual

  /** Balances must be there; contributions may be missing. */
  predicate Optional(m: Movement) {
    m == ContribPeriodica || m == ContribEsporadica
  }

  datatype Key =
    | Quotas(movement: Movement, fund: Fund)   // `<FUND>_<Mov>_Cts`
    | Amount(movement: Movement, fund: Fund)   // `<FUND>_<Mov>_Vlr`
    | Rend                                     // accumulated yield of the period
    | FundRend(fund: Fund)                     // `FIX_Rend`, `COMP_Rend`
    | Mes

  /** The patterns, kept abstract: the two captures of each movement line,
      the capture of the accumulated yield, and the two captures of the
      per-fund yield section. */
  datatype Patterns = Patterns(
    movement: (Movement, Fund) -> string -> Option<(string, string)>,
    accumulated: string -> Option<string>,
    perFund: string -> Option<(string, string)>)

  // ---------------------------------------------------------------------------
  // The month in the file name: `(\d{4}-\d{2})`

  predicate YearMonthAt(s: string, i: nat) {
    i + 7 <= |s| && AllDigits(s[i..i + 4]) && s[i + 4] == '-' && AllDigits(s[i + 5..i + 7])
  }

  function FirstYearMonthFrom(s: string, i: nat): (r: Option<nat>)
    ensures r.Some? ==> i <= r.value && YearMonthAt(s, r.value)
    ensures forall j :: i <= j && (r.None? || j < r.value) ==> !YearMonthAt(s, j)
    decreases |s| - i
  {
    if i + 7 > |s| then None
    else if YearMonthAt(s, i) then Some(i)
    else FirstYearMonthFrom(s, i + 1)
  }

  /** `re.search('(\d{4}-\d{2})', fname).groups()[0]`. */
  function YearMonthIn(fname: string): (r: Option<string>)
    ensures r.None? <==> forall j :: !YearMonthAt(fname, j)
    ensures r.Some? ==> exists j: nat ::
      && YearMonthAt(fname, j) && (forall k :: 0 <= k < j ==> !YearMonthAt(fname, k))
      && r.value == fname[j..j + 7]
  {
    match FirstYearMonthFrom(fname, 0)
    case None => None
    case Some(i) =>
      assert forall k :: 0 <= k < i ==> !YearMonthAt(fname, k);
      Some(fname[i..i + 7])
  }

  // ---------------------------------------------------------------------------
  // The record

  /** `remove_acentuacao(text).upper()`: accents go before the case changes,
      no small ASCII letter is left, and ASCII text is just upper-cased. */
  function Normalize(text: string): (r: string)
    ensures forall i :: 0 <= i < |r| ==> !IsAsciiLower(r[i])
    ensures IsAscii(text) ==> r == Upper(text)
  {
    Upper(RemoveAccents(text, Latin1).value)
  }

  /** What the statement gives for one key, if anything. */
  function Lookup(k: Key, text: string, fname: string, pats: Patterns): Option<string> {
    match k
    case Quotas(m, f) => (match pats.movement(m, f)(text) case None => None case Some(g) => Some(g.0))
    case Amount(m, f) => (match pats.movement(m, f)(text) case None => None case Some(g) => Some(g.1))
    case Rend => pats.accumulated(text)
    case FundRend(f) =>
      (match pats.perFund(text) case None => None case Some(g) => Some(if f == Fix then g.0 else g.1))
    case Mes => YearMonthIn(fname)
  }

  const Funds: seq<Fund> := [Fix, Comp]
  const Movements: seq<Movement> := [SaldoAnterior, ContribPeriodica, ContribEsporadica, SaldoAtual]

  /** Every key a record can have. */
  const AllKeys: set<Key> :=
    (set m, f | m in Movements && f in Funds :: Quotas(m, f))
    + (set m, f | m in Movements && f in Funds :: Amount(m, f))
    + {Rend, FundRend(Fix), FundRend(Comp), Mes}

  predicate Mandatory(k: Key) {
    !((k.Quotas? || k.Amount?) && Optional(k.movement))
  }

  /** The keys whose lookups must succeed, in the order the source makes them. */
  const MandatoryOrder: seq<Key> := [
    Quotas(SaldoAnterior, Fix), Amount(SaldoAnterior, Fix),
    Quotas(SaldoAnterior, Comp), Amount(SaldoAnterior, Comp),
    Quotas(SaldoAtual, Fix), Amount(SaldoAtual, Fix),
    Quotas(SaldoAtual, Comp), Amount(SaldoAtual, Comp),
    Rend, FundRend(Fix), FundRend(Comp), Mes]

  datatype PrevError = Missing(key: Key)

  /** The first key of `keys` the statement does not give. */
  function FirstMissing(keys: seq<Key>, text: string, fname: string, pats: Patterns): (r: Option<Key>)
    ensures r.None? <==> forall i :: 0 <= i < |keys| ==> Lookup(keys[i], text, fname, pats).Some?
    ensures r.Some? ==> r.value in keys && Lookup(r.value, text, fname, pats).None?
  {
    if |keys| == 0 then None
    else if Lookup(keys[0], text, fname, pats).None? then Some(keys[0])
    else FirstMissing(keys[1..], text, fname, pats)
  }

  /** The loop body for one file: `text` already normalized. */
  function Assemble(text: string, fname: string, pats: Patterns): (r: Result<map<Key, string>, PrevError>)
    ensures r.Failure? <==> exists i :: 0 <= i < |MandatoryOrder| && Lookup(MandatoryOrder[i], text, fname, pats).None?
    ensures r.Failure? ==> r.error.key in MandatoryOrder
    ensures r.Success? ==> r.value.Keys <= AllKeys
    ensures r.Success? ==> forall k :: k in AllKeys && Lookup(k, text, fname, pats).Some? <==> k in r.value
    ensures r.Success? ==> forall k :: k in r.value ==> Some(r.value[k]) == Lookup(k, text, fname, pats)
  {
    match FirstMissing(MandatoryOrder, text, fname, pats)
    case Some(k) => Failure(Missing(k))
    case None => Success(map k | k in AllKeys && Lookup(k, text, fname, pats).Some? :: Lookup(k, text, fname, pats).value)
  }

  /** The body of the loop over the files: the text read in Latin-1 is
      normalized and then searched; the month comes from the file name. */
  function ReadStatement(raw: string, fname: string, pats: Patterns): (r: Result<map<Key, string>, PrevError>)
    ensures r.Failure? <==>
      exists i :: 0 <= i < |MandatoryOrder| && Lookup(MandatoryOrder[i], Normalize(raw), fname, pats).None?
    ensures r.Success? ==> forall k :: k in r.value ==> Some(r.value[k]) == Lookup(k, Normalize(raw), fname, pats)
    ensures r.Success? ==> Mes in r.value && Some(r.value[Mes]) == YearMonthIn(fname)
  {
    var r := Assemble(Normalize(raw), fname, pats);
    if r.Success? then
      MandatoryPresent(Normalize(raw), fname, pats, Mes);
      r
    else r
  }

  lemma MandatoryListed(k: Key)
    requires k in AllKeys && Mandatory(k)
    ensures k in MandatoryOrder
  {
    if k.Quotas? || k.Amount? {
      assert k.movement in Movements && k.fund in Funds;
    }
  }

  /** A record holds every balance, both yields and the month. */
  lemma MandatoryPresent(text: string, fname: string, pats: Patterns, k: Key)
    requires Assemble(text, fname, pats).Success?
    requires k in AllKeys && Mandatory(k)
    ensures k in Assemble(text, fname, pats).value
  {
    MandatoryListed(k);
  }

  /** The quotas and the value of a contribution are both there or both absent,
      and they are there exactly when the statement has that contribution. */
  lemma ContributionsPaired(text: string, fname: string, pats: Patterns, m: Movement, f: Fund)
    requires Assemble(text, fname, pats).Success?
    ensures Quotas(m, f) in Assemble(text, fname, pats).value <==> pats.movement(m, f)(text).Some?
    ensures Quotas(m, f) in Assemble(text, fname, pats).value <==> Amount(m, f) in Assemble(text, fname, pats).value
  {
    assert m in Movements by {
      match m
      case SaldoAnterior =>
      case ContribPeriodica =>
      case ContribEsporadica =>
      case SaldoAtual =>
    }
    assert f in Funds by {
      match f
      case Fix =>
      case Comp =>
    }
    assert Quotas(m, f) in AllKeys && Amount(m, f) in AllKeys;
  }

  /** The month of a record is written `YYYY-MM`. */
  lemma MonthShape(text: string, fname: string, pats: Patterns)
    requires Assemble(text, fname, pats).Success?
    ensures Mes in Assemble(text, fname, pats).value
    ensures var v := Assemble(text, fname, pats).value[Mes];
      |v| == 7 && v[4] == '-' && AllDigits(v[..4]) && AllDigits(v[5..])
  {
    MandatoryPresent(text, fname, pats, Mes);
    var j: nat :| YearMonthAt(fname, j) && YearMonthIn(fname).value == fname[j..j + 7];
    var v := fname[j..j + 7];
    assert v[..4] == fname[j..j + 4] && v[5..] == fname[j + 5..j + 7];
  }
}
