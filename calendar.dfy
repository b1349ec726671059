/**
  The proleptic Gregorian calendar in UTC, counted from the Unix epoch
  (1970-01-01T00:00:00). This is the conversion that `DateTime::from_timestamp`
  performs before the archive stamp and the time-mode check read the date
  fields. Days are turned into a date by walking whole years from 1970 and
  then whole months of the year found; the inverse sums them back.
 */
module Calendar {

  const EpochYear: int := 1970
  const SecondsPerMinute: nat := 60
  const SecondsPerHour: nat := 3600
  const SecondsPerDay: nat := 86400

  /** The last second of chrono's `NaiveDate::MAX`, 262143-12-31T23:59:59 UTC
      in the chrono releases this model assumes (later releases end a year
      earlier). Past it `from_timestamp` gives no value and the caller's
      `expect` panics. */
  const MaxTimestamp: nat := 8210298412799

  predicate IsLeapYear(y: int) {
    y % 4 == 0 && (y % 100 != 0 || y % 400 == 0)
  }

  function DaysInYear(y: int): (n: nat)
    ensures n == 365 || n == 366
    ensures n == 366 <==> IsLeapYear(y)
  {
    if IsLeapYear(y) then 366 else 365
  }

  function DaysInMonth(y: int, m: int): (n: nat)
    requires 1 <= m <= 12
    ensures 28 <= n <= 31
  {
    if m == 2 then (if IsLeapYear(y) then 29 else 28)
    else if m == 4 || m == 6 || m == 9 || m == 11 then 30
    else 31
  }

  /** Days of year y that lie before the first of month m (m == 13: the whole year). */
  function DaysBeforeMonth(y: int, m: int): (n: nat)
    requires 1 <= m <= 13
    decreases m
  {
    if m == 1 then 0 else DaysBeforeMonth(y, m - 1) + DaysInMonth(y, m - 1)
  }

  /** The months of a year fill it exactly: 366 days in a leap year, 365 otherwise. */
  lemma MonthsFillYear(y: int)
    ensures DaysBeforeMonth(y, 13) == DaysInYear(y)
    ensures DaysBeforeMonth(y, 13) == 366 <==> IsLeapYear(y)
  {
    assert DaysBeforeMonth(y, 2) == 31;
    assert DaysBeforeMonth(y, 3) == 31 + DaysInMonth(y, 2);
    assert DaysBeforeMonth(y, 4) == 62 + DaysInMonth(y, 2);
    assert DaysBeforeMonth(y, 5) == 92 + DaysInMonth(y, 2);
    assert DaysBeforeMonth(y, 6) == 123 + DaysInMonth(y, 2);
    assert DaysBeforeMonth(y, 7) == 153 + DaysInMonth(y, 2);
    assert DaysBeforeMonth(y, 8) == 184 + DaysInMonth(y, 2);
    assert DaysBeforeMonth(y, 9) == 215 + DaysInMonth(y, 2);
    assert DaysBeforeMonth(y, 10) == 245 + DaysInMonth(y, 2);
    assert DaysBeforeMonth(y, 11) == 276 + DaysInMonth(y, 2);
    assert DaysBeforeMonth(y, 12) == 306 + DaysInMonth(y, 2);
  }

  /** Later months start no earlier than the end of earlier ones. */
  lemma {:induction false} MonthsOrdered(y: int, m1: int, m2: int)
    requires 1 <= m1 < m2 <= 13
    ensures DaysBeforeMonth(y, m1) + DaysInMonth(y, m1) <= DaysBeforeMonth(y, m2)
    decreases m2
  {
    if m2 > m1 + 1 {
      MonthsOrdered(y, m1, m2 - 1);
    }
  }

  /** Days of the whole years y0, y0 + 1, ..., y - 1. */
  function DaysBetweenYears(y0: int, y: int): (n: nat)
    requires y0 <= y
    decreases y - y0
  {
    if y0 == y then 0 else DaysInYear(y0) + DaysBetweenYears(y0 + 1, y)
  }

  lemma {:induction false} DaysBetweenYearsSplit(y0: int, y: int)
    requires y0 < y
    ensures DaysBetweenYears(y0, y) == DaysBetweenYears(y0, y - 1) + DaysInYear(y - 1)
    decreases y - y0
  {
    if y0 < y - 1 {
      DaysBetweenYearsSplit(y0 + 1, y);
    }
  }

  /** Later years start no earlier than the end of earlier ones. */
  lemma {:induction false} YearsOrdered(y0: int, y1: int, y2: int)
    requires y0 <= y1 < y2
    ensures DaysBetweenYears(y0, y1) + DaysInYear(y1) <= DaysBetweenYears(y0, y2)
    decreases y2 - y1
  {
    DaysBetweenYearsSplit(y0, y2);
    if y2 > y1 + 1 {
      YearsOrdered(y0, y1, y2 - 1);
    }
  }

  /** Walks forward from year y0, one whole year at a time, until `days` falls
      inside a year; returns that year and the day of the year (0-based). */
  function YearOfDay(days: nat, y0: int): (r: (int, nat))
    ensures y0 <= r.0 && r.1 < DaysInYear(r.0)
    ensures DaysBetweenYears(y0, r.0) + r.1 == days
    decreases days
  {
    if days < DaysInYear(y0) then (y0, days)
    else YearOfDay(days - DaysInYear(y0), y0 + 1)
  }

  /** Walks forward from month m of year y until day-of-year `doy` falls inside it. */
  function MonthOfDay(y: int, doy: nat, m: int): (m': int)
    requires 1 <= m <= 12
    requires DaysBeforeMonth(y, m) <= doy < DaysInYear(y)
    ensures m <= m' <= 12
    ensures DaysBeforeMonth(y, m') <= doy < DaysBeforeMonth(y, m') + DaysInMonth(y, m')
    decreases 12 - m
  {
    if m == 12 then MonthsFillYear(y); m
    else if doy < DaysBeforeMonth(y, m + 1) then m
    else MonthOfDay(y, doy, m + 1)
  }

  /** A calendar date; `month` and `day` are 1-based as chrono reports them. */
  datatype Date = Date(year: int, month: int, day: int)

  predicate ValidDate(d: Date) {
    1 <= d.month <= 12 && 1 <= d.day <= DaysInMonth(d.year, d.month)
  }

  /** The date `days` days after 1970-01-01. */
  function DateFromDays(days: nat): (d: Date)
    ensures ValidDate(d) && d.year >= EpochYear
  {
    var (y, doy) := YearOfDay(days, EpochYear);
    var m := MonthOfDay(y, doy, 1);
    Date(y, m, doy - DaysBeforeMonth(y, m) + 1)
  }

  /** Days from 1970-01-01 to a date on or after it. */
  function DaysFromDate(d: Date): nat
    requires ValidDate(d) && d.year >= EpochYear
  {
    DaysBetweenYears(EpochYear, d.year) + DaysBeforeMonth(d.year, d.month) + d.day - 1
  }

  lemma {:induction false} YearOfDayInverse(y0: int, y: int, k: nat)
    requires y0 <= y && k < DaysInYear(y)
    ensures YearOfDay(DaysBetweenYears(y0, y) + k, y0) == (y, k)
    decreases y - y0
  {
    if y0 < y {
      YearOfDayInverse(y0 + 1, y, k);
    }
  }

  /** The month walk finds the one month whose days contain `doy`. */
  lemma MonthOfDayUnique(y: int, doy: nat, m: int)
    requires 1 <= m <= 12
    requires DaysBeforeMonth(y, m) <= doy < DaysBeforeMonth(y, m) + DaysInMonth(y, m)
    ensures DaysBeforeMonth(y, 1) <= doy < DaysInYear(y)
    ensures MonthOfDay(y, doy, 1) == m
  {
    MonthsFillYear(y);
    if m < 12 {
      MonthsOrdered(y, m, 13);
    }
    var m' := MonthOfDay(y, doy, 1);
    if m' < m {
      MonthsOrdered(y, m', m);
    } else if m < m' {
      MonthsOrdered(y, m, m');
    }
  }

  /** The date of day `doy` of year `y` is found by the month walk over that year. */
  lemma DateFromDaysInYear(y: int, doy: nat)
    requires y >= EpochYear && doy < DaysInYear(y)
    ensures var m := MonthOfDay(y, doy, 1);
            DateFromDays(DaysBetweenYears(EpochYear, y) + doy) == Date(y, m, doy - DaysBeforeMonth(y, m) + 1)
  {
    YearOfDayInverse(EpochYear, y, doy);
  }

  /** Counting days and reading them back as a date is the identity on dates. */
  lemma DateRoundTrip(d: Date)
    requires ValidDate(d) && d.year >= EpochYear
    ensures DateFromDays(DaysFromDate(d)) == d
  {
    var doy := DaysBeforeMonth(d.year, d.month) + d.day - 1;
    MonthOfDayUnique(d.year, doy, d.month);
    DateFromDaysInYear(d.year, doy);
  }

  /** Reading days as a date and counting them back is the identity on day counts. */
  lemma DaysRoundTrip(days: nat)
    ensures DaysFromDate(DateFromDays(days)) == days
  {
  }

  /** Dates after 1970 are ordered as their day counts are. */
  lemma DaysFromDateMonotone(a: Date, b: Date)
    requires ValidDate(a) && a.year >= EpochYear
    requires ValidDate(b) && b.year >= EpochYear
    requires a.year < b.year
          || (a.year == b.year && a.month < b.month)
          || (a.year == b.year && a.month == b.month && a.day < b.day)
    ensures DaysFromDate(a) < DaysFromDate(b)
  {
    if a.year < b.year {
      MonthsFillYear(a.year);
      if a.month < 12 {
        MonthsOrdered(a.year, a.month, 13);
      }
      YearsOrdered(EpochYear, a.year, b.year);
    } else if a.month < b.month {
      MonthsOrdered(a.year, a.month, b.month);
    }
  }

  /** A broken-down UTC or local date-time as chrono's accessors report it. */
  datatype DateTime = DateTime(year: int, month: int, day: int, hour: int, minute: int, second: int)

  predicate ValidDateTime(t: DateTime) {
    ValidDate(Date(t.year, t.month, t.day))
    && 0 <= t.hour < 24 && 0 <= t.minute < 60 && 0 <= t.second < 60
  }

  /** The UTC date-time `secs` seconds after the epoch, as `DateTime::from_timestamp(secs, 0)`. */
  function FromTimestamp(secs: nat): (t: DateTime)
    ensures ValidDateTime(t) && t.year >= EpochYear
  {
    var d := DateFromDays(secs / SecondsPerDay);
    var rem := secs % SecondsPerDay;
    DateTime(d.year, d.month, d.day, rem / SecondsPerHour, rem % SecondsPerHour / SecondsPerMinute, rem % SecondsPerMinute)
  }

  /** Seconds from the epoch to a date-time on or after it. */
  function Timestamp(t: DateTime): nat
    requires ValidDateTime(t) && t.year >= EpochYear
  {
    DaysFromDate(Date(t.year, t.month, t.day)) * SecondsPerDay
      + t.hour * SecondsPerHour + t.minute * SecondsPerMinute + t.second
  }

  lemma TimestampRoundTrip(secs: nat)
    ensures Timestamp(FromTimestamp(secs)) == secs
  {
    var t := FromTimestamp(secs);
    DaysRoundTrip(secs / SecondsPerDay);
    var rem := secs % SecondsPerDay;
    assert rem == t.hour * 3600 + t.minute * 60 + t.second;
  }

  /** Splitting a day count and a time of day back out of a second count. */
  lemma SecondsSplit(days: nat, h: int, m: int, s: int)
    requires 0 <= h < 24 && 0 <= m < 60 && 0 <= s < 60
    ensures var secs := days * SecondsPerDay + h * SecondsPerHour + m * SecondsPerMinute + s;
            var rem := secs % SecondsPerDay;
            secs / SecondsPerDay == days && rem / SecondsPerHour == h
            && rem % SecondsPerHour / SecondsPerMinute == m && rem % SecondsPerMinute == s
  {
    var rem := h * 3600 + m * 60 + s;
    assert 0 <= rem < SecondsPerDay;
    var secs := days * SecondsPerDay + rem;
    assert secs / SecondsPerDay == days && secs % SecondsPerDay == rem;
    assert rem / 3600 == h;
    assert rem % 3600 == m * 60 + s;
    assert rem % 60 == s;
  }

  lemma DateTimeRoundTrip(t: DateTime)
    requires ValidDateTime(t) && t.year >= EpochYear
    ensures FromTimestamp(Timestamp(t)) == t
  {
    var d := Date(t.year, t.month, t.day);
    SecondsSplit(DaysFromDate(d), t.hour, t.minute, t.second);
    DateRoundTrip(d);
  }

  /** The days of consecutive runs of years add up. */
  lemma {:induction false} DaysBetweenYearsAdd(y0: int, y1: int, y2: int)
    requires y0 <= y1 <= y2
    ensures DaysBetweenYears(y0, y2) == DaysBetweenYears(y0, y1) + DaysBetweenYears(y1, y2)
    decreases y1 - y0
  {
    if y0 < y1 {
      DaysBetweenYearsAdd(y0 + 1, y1, y2);
    }
  }

  /** 2000 is a leap year although a century year, because 400 divides it:
      2000-02-29 is a valid date, and it starts 951782400 seconds after the
      epoch, the Unix time of that instant, and decoding 951782400 gives
      2000-02-29 back. */
  lemma LeapDay2000()
    ensures ValidDateTime(DateTime(2000, 2, 29, 0, 0, 0))
    ensures Timestamp(DateTime(2000, 2, 29, 0, 0, 0)) == 951782400
    ensures FromTimestamp(951782400) == DateTime(2000, 2, 29, 0, 0, 0)
  {
    DaysBetweenYearsAdd(EpochYear, 1980, 2000);
    DaysBetweenYearsAdd(1980, 1990, 2000);
    DecadeLengths();
    assert DaysFromDate(Date(2000, 2, 29)) == 10957 + 31 + 28;
    DateTimeRoundTrip(DateTime(2000, 2, 29, 0, 0, 0));
  }

  /** The three decades between the epoch and 2000 hold two, three and two leap years. */
  lemma DecadeLengths()
    ensures DaysBetweenYears(1970, 1980) == 3652
    ensures DaysBetweenYears(1980, 1990) == 3653
    ensures DaysBetweenYears(1990, 2000) == 3652
  {
    assert DaysBetweenYears(1970, 1980) == 3652;
    assert DaysBetweenYears(1980, 1990) == 3653;
  }

  /** Two instants lie in the same UTC day exactly when their day counts agree. */
  lemma SameDaySameDate(s1: nat, s2: nat)
    ensures s1 / SecondsPerDay == s2 / SecondsPerDay
        <==> DateFromDays(s1 / SecondsPerDay) == DateFromDays(s2 / SecondsPerDay)
  {
    DaysRoundTrip(s1 / SecondsPerDay);
    DaysRoundTrip(s2 / SecondsPerDay);
  }
}
