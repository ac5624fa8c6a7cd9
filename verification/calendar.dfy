/**
 * Epoch seconds to a calendar date in the proleptic Gregorian calendar, as
 * `datetime.datetime.fromtimestamp(t).strftime('%Y-%m-%d')` produces it, with
 * the host's local time taken as a fixed offset from UTC.
 */
module Calendar {
  import opened Wrappers
  import opened Decimal

  const SecondsPerDay := 86400
  const DaysPer400Years := 146097
  const DaysPer100Years := 36524
  const DaysPer4Years := 1461
  /** Days from 0001-01-01 to 1970-01-01. */
  const EpochDayNumber := 719162

  datatype Date = Date(year: int, month: int, day: int)

  predicate IsLeapYear(y: int) {
    y % 4 == 0 && (y % 100 != 0 || y % 400 == 0)
  }

  function DaysInYear(y: int): int {
    if IsLeapYear(y) then 366 else 365
  }

  function DaysInMonth(y: int, m: int): int
    requires 1 <= m <= 12
  {
    if m == 2 then (if IsLeapYear(y) then 29 else 28)
    else if m == 4 || m == 6 || m == 9 || m == 11 then 30
    else 31
  }

  /** Days of year `y` that lie before the first of month `m`. */
  function DaysBeforeMonth(y: int, m: int): (r: int)
    requires 1 <= m <= 12
    ensures 0 <= r
  {
    if m == 1 then 0 else DaysBeforeMonth(y, m - 1) + DaysInMonth(y, m - 1)
  }

  predicate ValidDate(d: Date) {
    1 <= d.month <= 12 && 1 <= d.day <= DaysInMonth(d.year, d.month)
  }

  /** Days from 0001-01-01 to January 1st of year `y` (negative before year 1). */
  function DaysBeforeYear(y: int): int {
    var p := y - 1;
    365 * p + p / 4 - p / 100 + p / 400
  }

  /** Days from 1970-01-01 to `d`: the reference numbering every conversion is measured against. */
  function DayNumber(d: Date): int
    requires ValidDate(d)
  {
    DaysBeforeYear(d.year) + DaysBeforeMonth(d.year, d.month) + d.day - 1 - EpochDayNumber
  }

  /** The twelve months exactly fill the year. */
  lemma {:induction false} MonthsFillYear(y: int)
    ensures DaysBeforeMonth(y, 12) + DaysInMonth(y, 12) == DaysInYear(y)
  {
    var leap := if IsLeapYear(y) then 1 else 0;
    assert DaysBeforeMonth(y, 2) == 31;
    assert DaysBeforeMonth(y, 3) == 59 + leap;
    assert DaysBeforeMonth(y, 4) == 90 + leap;
    assert DaysBeforeMonth(y, 5) == 120 + leap;
    assert DaysBeforeMonth(y, 6) == 151 + leap;
    assert DaysBeforeMonth(y, 7) == 181 + leap;
    assert DaysBeforeMonth(y, 8) == 212 + leap;
    assert DaysBeforeMonth(y, 9) == 243 + leap;
    assert DaysBeforeMonth(y, 10) == 273 + leap;
    assert DaysBeforeMonth(y, 11) == 304 + leap;
    assert DaysBeforeMonth(y, 12) == 334 + leap;
  }

  /** January 1st of year `y + 1` follows the whole of year `y`. */
  lemma YearStep(y: int)
    ensures DaysBeforeYear(y + 1) == DaysBeforeYear(y) + DaysInYear(y)
  {
    var p := y - 1;
    assert y / 4 == p / 4 + (if y % 4 == 0 then 1 else 0);
    assert y / 100 == p / 100 + (if y % 100 == 0 then 1 else 0);
    assert y / 400 == p / 400 + (if y % 400 == 0 then 1 else 0);
    assert y % 400 == 0 ==> y % 100 == 0;
    assert y % 100 == 0 ==> y % 4 == 0;
  }

  /**
   * The first day of year 400a + 100b + 4c + e + 1, counted by whole cycles of
   * 400, 100, 4 and 1 years.
   */
  lemma DaysBeforeCycleYear(a: int, b: int, c: int, e: int)
    requires 0 <= b <= 3 && 0 <= c <= 24 && 0 <= e <= 3
    ensures DaysBeforeYear(400 * a + 100 * b + 4 * c + e + 1)
            == DaysPer400Years * a + DaysPer100Years * b + DaysPer4Years * c + 365 * e
  {
    var p := 400 * a + 100 * b + 4 * c + e;
    assert p / 4 == 100 * a + 25 * b + c;
    assert p / 100 == 4 * a + b;
    assert p / 400 == a;
  }

  /** The year that closes a 4-year cycle is a leap year, except a century year not divisible by 400. */
  lemma LeapCycleEnds(a: int, b: int, c: int)
    requires 0 <= b <= 3 && 0 <= c <= 24
    requires c == 24 ==> b == 3
    ensures IsLeapYear(400 * a + 100 * b + 4 * c + 4)
  {
    var y := 400 * a + 100 * b + 4 * c + 4;
    assert y % 4 == 0;
    if c == 24 {
      assert y % 400 == 0;
    } else {
      assert y % 100 == 4 * c + 4;
    }
  }

  /**
   * Splits a count of days since 0001-01-01 into a year and a zero-based day
   * of that year, by whole 400-, 100-, 4- and 1-year cycles.
   */
  function YearAndDayOfYear(n: int): (r: (int, int))
    ensures 0 <= r.1 < DaysInYear(r.0)
    ensures DaysBeforeYear(r.0) + r.1 == n
  {
    var n400, r400 := n / DaysPer400Years, n % DaysPer400Years;
    var n100, r100 := r400 / DaysPer100Years, r400 % DaysPer100Years;
    var n4, r4 := r100 / DaysPer4Years, r100 % DaysPer4Years;
    var n1, r1 := r4 / 365, r4 % 365;
    CycleYear(n, n400, r400, n100, r100, n4, r4, n1, r1)
  }

  /** YearAndDayOfYear once the day count is split into cycles: `n = 146097 n400 + 36524 n100 + 1461 n4 + 365 n1 + r1`. */
  function CycleYear(n: int, n400: int, r400: int, n100: int, r100: int, n4: int, r4: int, n1: int, r1: int): (r: (int, int))
    requires n == DaysPer400Years * n400 + r400 && 0 <= r400 < DaysPer400Years
    requires r400 == DaysPer100Years * n100 + r100 && 0 <= r100 < DaysPer100Years
    requires r100 == DaysPer4Years * n4 + r4 && 0 <= r4 < DaysPer4Years
    requires r4 == 365 * n1 + r1 && 0 <= r1 < 365
    ensures 0 <= r.1 < DaysInYear(r.0)
    ensures DaysBeforeYear(r.0) + r.1 == n
  {
    if n100 == 4 then
      // the last day of a 400-year cycle: December 31st of a leap year
      DaysBeforeCycleYear(n400, 3, 24, 3);
      LeapCycleEnds(n400, 3, 24);
      (400 * n400 + 400, 365)
    else if n1 == 4 then
      // the last day of a 4-year cycle: December 31st of a leap year
      DaysBeforeCycleYear(n400, n100, n4, 3);
      LeapCycleEnds(n400, n100, n4);
      (400 * n400 + 100 * n100 + 4 * n4 + 4, 365)
    else
      DaysBeforeCycleYear(n400, n100, n4, n1);
      (400 * n400 + 100 * n100 + 4 * n4 + n1 + 1, r1)
  }

  /** The month, from `m` on, whose days contain day `doy` (zero-based) of year `y`. */
  function MonthFrom(y: int, doy: int, m: int): (r: int)
    requires 1 <= m <= 12 && DaysBeforeMonth(y, m) <= doy < DaysInYear(y)
    ensures m <= r <= 12
    ensures DaysBeforeMonth(y, r) <= doy < DaysBeforeMonth(y, r) + DaysInMonth(y, r)
    decreases 12 - m
  {
    if m == 12 then
      MonthsFillYear(y);
      m
    else if doy < DaysBeforeMonth(y, m) + DaysInMonth(y, m) then m
    else MonthFrom(y, doy, m + 1)
  }

  /** The calendar date `z` days after 1970-01-01 (before it when `z` is negative). */
  function CivilFromDays(z: int): (d: Date)
    ensures ValidDate(d)
    ensures DayNumber(d) == z
  {
    var yd := YearAndDayOfYear(z + EpochDayNumber);
    var m := MonthFrom(yd.0, yd.1, 1);
    Date(yd.0, m, yd.1 - DaysBeforeMonth(yd.0, m) + 1)
  }

  /** The local calendar date of epoch second `s` at a fixed offset of `utcOffset` seconds east of UTC. */
  function LocalDate(s: int, utcOffset: int): (d: Date)
    ensures ValidDate(d)
    ensures DayNumber(d) == (s + utcOffset) / SecondsPerDay
  {
    CivilFromDays((s + utcOffset) / SecondsPerDay)
  }

  /** Later years start after the whole of every earlier year. */
  lemma {:induction false} YearsOrdered(y1: int, y2: int)
    requires y1 < y2
    ensures DaysBeforeYear(y1) + DaysInYear(y1) <= DaysBeforeYear(y2)
    decreases y2 - y1
  {
    YearStep(y1);
    if y1 + 1 < y2 {
      YearsOrdered(y1 + 1, y2);
    }
  }

  /** Later months of a year start after the whole of every earlier month. */
  lemma {:induction false} MonthsOrdered(y: int, m1: int, m2: int)
    requires 1 <= m1 < m2 <= 12
    ensures DaysBeforeMonth(y, m1) + DaysInMonth(y, m1) <= DaysBeforeMonth(y, m2)
    decreases m2 - m1
  {
    if m1 + 1 < m2 {
      MonthsOrdered(y, m1, m2 - 1);
    }
  }

  /** The zero-based day of the year of a valid date lies inside its year. */
  lemma DayOfYearInYear(d: Date)
    requires ValidDate(d)
    ensures 0 <= DaysBeforeMonth(d.year, d.month) + d.day - 1 < DaysInYear(d.year)
  {
    MonthsFillYear(d.year);
    if d.month < 12 {
      MonthsOrdered(d.year, d.month, 12);
    }
  }

  /** Distinct valid dates have distinct day numbers. */
  lemma DayNumberInjective(d1: Date, d2: Date)
    requires ValidDate(d1) && ValidDate(d2)
    requires DayNumber(d1) == DayNumber(d2)
    ensures d1 == d2
  {
    DayOfYearInYear(d1);
    DayOfYearInYear(d2);
    if d1.year < d2.year {
      YearsOrdered(d1.year, d2.year);
    } else if d2.year < d1.year {
      YearsOrdered(d2.year, d1.year);
    }
    assert d1.year == d2.year;
    if d1.month < d2.month {
      MonthsOrdered(d1.year, d1.month, d2.month);
    } else if d2.month < d1.month {
      MonthsOrdered(d1.year, d2.month, d1.month);
    }
  }

  /** Converting a valid date to its day number and back gives the same date. */
  lemma CivilFromDayNumber(d: Date)
    requires ValidDate(d)
    ensures CivilFromDays(DayNumber(d)) == d
  {
    DayNumberInjective(CivilFromDays(DayNumber(d)), d);
  }

  /** Every second of the same local day gives the same date. */
  lemma SameDaySameDate(s: int, t: int, utcOffset: int, k: int)
    requires k * SecondsPerDay <= s + utcOffset < (k + 1) * SecondsPerDay
    requires k * SecondsPerDay <= t + utcOffset < (k + 1) * SecondsPerDay
    ensures LocalDate(s, utcOffset) == LocalDate(t, utcOffset) == CivilFromDays(k)
  {
    var ds, dt := LocalDate(s, utcOffset), LocalDate(t, utcOffset);
    assert DayNumber(ds) == k && DayNumber(dt) == k;
    DayNumberInjective(ds, CivilFromDays(k));
    DayNumberInjective(dt, CivilFromDays(k));
  }

  /** A day's worth of seconds later is the next calendar day. */
  lemma NextDay(s: int, utcOffset: int)
    ensures DayNumber(LocalDate(s + SecondsPerDay, utcOffset)) == DayNumber(LocalDate(s, utcOffset)) + 1
  {
  }

  /** Years that Python 2's fromtimestamp (at most 9999) and strftime (at least 1900) both accept. */
  predicate StrftimeYear(y: int) {
    1900 <= y <= 9999
  }

  /** A `YYYY-MM-DD` string: four, two and two decimal digits separated by hyphens. */
  predicate IsDateText(t: string) {
    |t| == 10 && t[4] == '-' && t[7] == '-' &&
    AllDigits(t[..4]) && AllDigits(t[5..7]) && AllDigits(t[8..])
  }

  /** The date a `YYYY-MM-DD` string names. */
  function DateOfText(t: string): Date
    requires IsDateText(t)
  {
    Date(DigitsValue(t[..4]), DigitsValue(t[5..7]), DigitsValue(t[8..]))
  }

  /** strftime('%Y-%m-%d'): the year in four digits, month and day in two, zero-padded. */
  function FormatDate(d: Date): (t: string)
    requires 0 <= d.year <= 9999 && ValidDate(d)
    ensures IsDateText(t) && DateOfText(t) == d
  {
    var year, month, day := PadDigits(d.year, 4), PadDigits(d.month, 2), PadDigits(d.day, 2);
    var t := year + "-" + month + "-" + day;
    assert t[..4] == year && t[5..7] == month && t[8..] == day;
    t
  }

  /**
   * `datetime.datetime.fromtimestamp(s).strftime('%Y-%m-%d')` with local time
   * at `utcOffset` seconds east of UTC: the date text, or the local year that
   * Python refuses.
   */
  function EpochToDateText(s: int, utcOffset: int): (r: Result<string, int>)
    ensures r.Ok? <==> StrftimeYear(LocalDate(s, utcOffset).year)
    ensures r.Ok? ==> IsDateText(r.value) && DateOfText(r.value) == LocalDate(s, utcOffset)
    ensures r.Err? ==> r.error == LocalDate(s, utcOffset).year
  {
    var d := LocalDate(s, utcOffset);
    if StrftimeYear(d.year) then Ok(FormatDate(d)) else Err(d.year)
  }

  /** Every second of the same local day gives the same date text, or the same refusal. */
  lemma SameDaySameText(s: int, t: int, utcOffset: int, k: int)
    requires k * SecondsPerDay <= s + utcOffset < (k + 1) * SecondsPerDay
    requires k * SecondsPerDay <= t + utcOffset < (k + 1) * SecondsPerDay
    ensures EpochToDateText(s, utcOffset) == EpochToDateText(t, utcOffset)
  {
    SameDaySameDate(s, t, utcOffset, k);
  }

  /** The date text read back is a valid calendar date: month in 1..12, day within its month. */
  lemma DateTextIsValid(s: int, utcOffset: int)
    requires EpochToDateText(s, utcOffset).Ok?
    ensures ValidDate(DateOfText(EpochToDateText(s, utcOffset).value))
    ensures 1 <= DateOfText(EpochToDateText(s, utcOffset).value).month <= 12
  {
  }

  /** Second 0 is 1970-01-01 in UTC. */
  lemma EpochText()
    ensures EpochToDateText(0, 0) == Ok("1970-01-01")
  {
    EpochDate();
    EpochDateFormat();
    KnownDate(Date(1970, 1, 1), 0, 0, "1970-01-01");
  }

  /** Second 1609459200 is 2021-01-01 in UTC. */
  lemma NewYear2021Text()
    ensures EpochToDateText(1609459200, 0) == Ok("2021-01-01")
  {
    NewYear2021Date();
    NewYear2021Format();
    KnownDate(Date(2021, 1, 1), 18628, 1609459200, "2021-01-01");
  }

  lemma EpochDate()
    ensures ValidDate(Date(1970, 1, 1)) && DayNumber(Date(1970, 1, 1)) == 0
  {
  }

  lemma EpochDateFormat()
    ensures FormatDate(Date(1970, 1, 1)) == "1970-01-01"
  {
  }

  lemma NewYear2021Date()
    ensures ValidDate(Date(2021, 1, 1)) && DayNumber(Date(2021, 1, 1)) == 18628
  {
  }

  lemma NewYear2021Format()
    ensures FormatDate(Date(2021, 1, 1)) == "2021-01-01"
  {
  }

  /** A valid date with day number `z` and text `t` is what second `z * 86400` gives in UTC. */
  lemma KnownDate(d: Date, z: int, s: int, t: string)
    requires 1900 <= d.year <= 9999 && ValidDate(d) && DayNumber(d) == z && s == z * SecondsPerDay
    requires FormatDate(d) == t
    ensures EpochToDateText(s, 0) == Ok(t)
  {
    assert (s + 0) / SecondsPerDay == z;
    CivilFromDayNumber(d);
    assert LocalDate(s, 0) == d;
  }
}
