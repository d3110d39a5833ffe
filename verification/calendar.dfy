/** The calendar arithmetic behind `pd.to_datetime(...).dayofweek`: proleptic
    Gregorian dates, the day count from 0001-01-01 and the weekday it gives,
    Monday being 0, together with reading and writing `YYYY-MM-DD`. */
module Calendar {
  import opened Wrappers
  import opened Text

  datatype Date = Date(year: int, month: int, day: int)

  predicate IsLeap(y: int) {
    y % 4 == 0 && (y % 100 != 0 || y % 400 == 0)
  }

  function DaysInMonth(y: int, m: int): (n: int)
    requires 1 <= m <= 12
    ensures 28 <= n <= 31
    ensures n == 29 <==> m == 2 && IsLeap(y)
  {
    if m == 2 then (if IsLeap(y) then 29 else 28)
    else if m == 4 || m == 6 || m == 9 || m == 11 then 30
    else 31
  }

  predicate IsValid(dt: Date) {
    1 <= dt.month <= 12 && 1 <= dt.day <= DaysInMonth(dt.year, dt.month)
  }

  /** Lexicographic order on (year, month, day). */
  predicate NotAfter(a: Date, b: Date) {
    a.year < b.year || (a.year == b.year && (a.month < b.month || (a.month == b.month && a.day <= b.day)))
  }

  /** The first and last whole days a pandas `Timestamp` (nanoseconds in a
      signed 64-bit integer) can hold. */
  const FirstTimestampDay: Date := Date(1677, 9, 22)
  const LastTimestampDay: Date := Date(2262, 4, 11)

  predicate InTimestampRange(dt: Date) {
    NotAfter(FirstTimestampDay, dt) && NotAfter(dt, LastTimestampDay)
  }

  /** Days of the months before `m` in year `y`. */
  function DaysBeforeMonth(y: int, m: int): (n: int)
    requires 1 <= m <= 12
    ensures 0 <= n <= 31 * (m - 1)
    decreases m
  {
    if m == 1 then 0 else DaysBeforeMonth(y, m - 1) + DaysInMonth(y, m - 1)
  }

  /** Days of the years before `y`. */
  function DaysBeforeYear(y: int): int {
    var p := y - 1;
    365 * p + p / 4 - p / 100 + p / 400
  }

  /** The day number of a date, 0001-01-01 being day 1 (Python's `date.toordinal`). */
  function Ordinal(dt: Date): int
    requires 1 <= dt.month <= 12
  {
    DaysBeforeYear(dt.year) + DaysBeforeMonth(dt.year, dt.month) + dt.day
  }

  /** `dayofweek`: Monday is 0 and Sunday is 6; 0001-01-01 was a Monday. */
  function Weekday(dt: Date): (w: nat)
    requires 1 <= dt.month <= 12
    ensures w < 7
  {
    (Ordinal(dt) + 6) % 7
  }

  /** The day after a valid date. */
  function NextDay(dt: Date): (r: Date)
    requires IsValid(dt)
    ensures IsValid(r)
    ensures NotAfter(dt, r) && r != dt
  {
    if dt.day < DaysInMonth(dt.year, dt.month) then Date(dt.year, dt.month, dt.day + 1)
    else if dt.month < 12 then Date(dt.year, dt.month + 1, 1)
    else Date(dt.year + 1, 1, 1)
  }

  /** Dividing by 4, 100 or 400 steps up by one exactly at the multiples. */
  lemma DivStep4(y: int)
    ensures y / 4 - (y - 1) / 4 == if y % 4 == 0 then 1 else 0
  {
  }

  lemma DivStep100(y: int)
    ensures y / 100 - (y - 1) / 100 == if y % 100 == 0 then 1 else 0
  {
  }

  lemma DivStep400(y: int)
    ensures y / 400 - (y - 1) / 400 == if y % 400 == 0 then 1 else 0
  {
  }

  lemma YearLength(y: int)
    ensures DaysBeforeYear(y + 1) - DaysBeforeYear(y) == if IsLeap(y) then 366 else 365
  {
    DivStep4(y);
    DivStep100(y);
    DivStep400(y);
  }

  /** Each day is one more than the one before: the day count has no gaps. */
  lemma NextDayOrdinal(dt: Date)
    requires IsValid(dt)
    ensures Ordinal(NextDay(dt)) == Ordinal(dt) + 1
  {
    var y, m := dt.year, dt.month;
    if dt.day < DaysInMonth(y, m) {
      assert NextDay(dt) == Date(y, m, dt.day + 1);
    } else if m < 12 {
      assert NextDay(dt) == Date(y, m + 1, 1);
      assert dt == Date(y, m, DaysInMonth(y, m));
      MonthEndOrdinal(y, m);
    } else {
      assert NextDay(dt) == Date(y + 1, 1, 1);
      assert dt == Date(y, 12, 31);
      NewYearOrdinal(y);
    }
  }

  /** The first of a month follows the last day of the month before. */
  lemma MonthEndOrdinal(y: int, m: int)
    requires 1 <= m < 12
    ensures Ordinal(Date(y, m + 1, 1)) == Ordinal(Date(y, m, DaysInMonth(y, m))) + 1
  {
    var before := DaysBeforeMonth(y, m);
    assert DaysBeforeMonth(y, m + 1) == before + DaysInMonth(y, m);
  }

  /** The first of January follows the last of December. */
  lemma NewYearOrdinal(y: int)
    ensures Ordinal(Date(y + 1, 1, 1)) == Ordinal(Date(y, 12, 31)) + 1
  {
    YearLength(y);
    DaysBeforeDecember(y);
  }

  /** All of the year but December: 334 days, one more in a leap year. */
  lemma DaysBeforeDecember(y: int)
    ensures DaysBeforeMonth(y, 12) == if IsLeap(y) then 335 else 334
  {
    assert DaysBeforeMonth(y, 3) == if IsLeap(y) then 60 else 59;
    assert DaysBeforeMonth(y, 7) == DaysBeforeMonth(y, 3) + 122;
  }

  /** So the weekday names go round in order from one day to the next. */
  lemma NextDayWeekday(dt: Date)
    requires IsValid(dt)
    ensures Weekday(NextDay(dt)) == (Weekday(dt) + 1) % 7
  {
    NextDayOrdinal(dt);
    WeekStep(Ordinal(dt) + 6);
  }

  lemma WeekStep(x: int)
    ensures (x + 1) % 7 == (x % 7 + 1) % 7
  {
  }

  /** 2000-01-01 was a Saturday. */
  lemma MillenniumSaturday()
    ensures Weekday(Date(2000, 1, 1)) == 5
  {
    assert DaysBeforeYear(2000) == 730119;
  }

  // ---------------------------------------------------------------------------
  // `YYYY-MM-DD`

  function DigitChar(d: nat): (c: char)
    requires d <= 9
    ensures IsDigit(c) && DigitValue(c) == d
  {
    ('0' as int + d) as char
  }

  /** The last `width` decimal digits of `n`, zero-padded. */
  function PadDigits(n: nat, width: nat): (s: string)
    ensures |s| == width && AllDigits(s)
  {
    if width == 0 then "" else PadDigits(n / 10, width - 1) + [DigitChar(n % 10)]
  }

  lemma {:induction false} PadDigitsValue(n: nat, width: nat)
    requires n < Pow10(width)
    ensures DigitsValue(PadDigits(n, width)) == n
  {
    if width > 0 {
      var s := PadDigits(n, width);
      assert s[..width - 1] == PadDigits(n / 10, width - 1);
      PadDigitsValue(n / 10, width - 1);
    }
  }

  lemma {:induction false} PadDigitsOfValue(s: string)
    requires AllDigits(s)
    ensures PadDigits(DigitsValue(s), |s|) == s
  {
    if |s| > 0 {
      var p := s[..|s| - 1];
      assert AllDigits(p);
      PadDigitsOfValue(p);
      var v := DigitsValue(s);
      assert v / 10 == DigitsValue(p) && v % 10 == DigitValue(s[|s| - 1]);
      assert s == p + [s[|s| - 1]];
    }
  }

  function FormatIso(dt: Date): (s: string)
    requires 0 <= dt.year && 0 <= dt.month && 0 <= dt.day
    ensures |s| == 10 && s[4] == '-' && s[7] == '-'
  {
    PadDigits(dt.year, 4) + "-" + PadDigits(dt.month, 2) + "-" + PadDigits(dt.day, 2)
  }

  /** What `pd.to_datetime` accepts here: exactly `YYYY-MM-DD`, a calendar date
      that a `Timestamp` can hold. */
  function ParseIso(s: string): (r: Option<Date>)
    ensures r.Some? ==> IsValid(r.value) && InTimestampRange(r.value)
  {
    if |s| == 10 && s[4] == '-' && s[7] == '-'
       && AllDigits(s[..4]) && AllDigits(s[5..7]) && AllDigits(s[8..])
    then
      var dt := Date(DigitsValue(s[..4]), DigitsValue(s[5..7]), DigitsValue(s[8..]));
      if IsValid(dt) && InTimestampRange(dt) then Some(dt) else None
    else None
  }

  /** Reading a written date gives the date back. */
  lemma ParseFormat(dt: Date)
    requires IsValid(dt) && InTimestampRange(dt)
    ensures ParseIso(FormatIso(dt)) == Some(dt)
  {
    var s := FormatIso(dt);
    assert s[..4] == PadDigits(dt.year, 4);
    assert s[5..7] == PadDigits(dt.month, 2);
    assert s[8..] == PadDigits(dt.day, 2);
    PadDigitsValue(dt.year, 4);
    PadDigitsValue(dt.month, 2);
    PadDigitsValue(dt.day, 2);
  }

  /** A string that is read is exactly how its date is written. */
  lemma FormatParse(s: string)
    requires ParseIso(s).Some?
    ensures FormatIso(ParseIso(s).value) == s
  {
    PadDigitsOfValue(s[..4]);
    PadDigitsOfValue(s[5..7]);
    PadDigitsOfValue(s[8..]);
    assert s == s[..4] + "-" + s[5..7] + "-" + s[8..];
  }
}
