/**
  The date stamp of an archived log file (`getbackup_with_time`): the UTC
  start of the archived period written as `%Y%m%d%H`, `%Y%m%d` or `%Y%m`
  according to the rotation mode.
 */
module Backup {

  import opened Calendar
  import opened Digits
  import opened Modes

  /** chrono's `%Y`: four zero-padded digits for years 0..9999; any other year
      is written with an explicit sign, here always `+`. */
  function YearText(y: nat): (s: string)
    ensures y <= 9999 ==> |s| == 4 && AllDigits(s)
    ensures y > 9999 ==> |s| > 1 && s[0] == '+' && AllDigits(s[1..])
  {
    if y <= 9999 then Pad(y, 4) else "+" + Decimal(y)
  }

  lemma YearTextInjective(y1: nat, y2: nat)
    requires YearText(y1) == YearText(y2)
    ensures y1 == y2
  {
    if y1 <= 9999 && y2 <= 9999 {
      PadInjective(y1, y2, 4);
    } else if y1 > 9999 && y2 > 9999 {
      assert Decimal(y1) == YearText(y1)[1..];
      assert Decimal(y2) == YearText(y2)[1..];
      DecimalRoundTrip(y1);
      DecimalRoundTrip(y2);
    }
  }

  /** The number of characters of a stamp for years up to 9999. */
  function StampWidth(mode: Mode): nat {
    match mode
    case Hour => 10
    case Day => 8
    case Month => 6
  }

  /** The stamp of a broken-down date-time at the granularity of `mode`. */
  function StampOf(t: DateTime, mode: Mode): string
    requires ValidDateTime(t) && t.year >= 0
  {
    var yearMonth := YearText(t.year) + Pad(t.month, 2);
    match mode
    case Month => yearMonth
    case Day => yearMonth + Pad(t.day, 2)
    case Hour => yearMonth + Pad(t.day, 2) + Pad(t.hour, 2)
  }

  /** The archive stamp for a file whose period began `startsec` seconds after
      the epoch, read as UTC. Instants past `MaxTimestamp`, the end of
      chrono's date range, make the source panic, hence the precondition. */
  function GetBackupWithTime(startsec: nat, mode: Mode): (r: string)
    requires startsec <= MaxTimestamp
    ensures FromTimestamp(startsec).year <= 9999 ==> |r| == StampWidth(mode) && AllDigits(r)
  {
    StampOf(FromTimestamp(startsec), mode)
  }

  /** A stamp starts with the `%Y` year, and for years up to 9999 it is
      10 (HOUR), 8 (DAY) or 6 (MONTH) digits. */
  lemma StampOfLayout(t: DateTime, mode: Mode)
    requires ValidDateTime(t) && t.year >= 0
    ensures YearText(t.year) <= StampOf(t, mode)
    ensures t.year <= 9999 ==> |StampOf(t, mode)| == StampWidth(mode) && AllDigits(StampOf(t, mode))
  {
  }

  /** The MONTH stamp extends to the DAY stamp, and that to the HOUR stamp, by two characters each. */
  lemma StampPrefixes(startsec: nat)
    requires startsec <= MaxTimestamp
    ensures GetBackupWithTime(startsec, Month) <= GetBackupWithTime(startsec, Day)
    ensures GetBackupWithTime(startsec, Day) <= GetBackupWithTime(startsec, Hour)
    ensures |GetBackupWithTime(startsec, Day)| == |GetBackupWithTime(startsec, Month)| + 2
    ensures |GetBackupWithTime(startsec, Hour)| == |GetBackupWithTime(startsec, Day)| + 2
  {
  }

  /** The UTC hour, day or month (counted from the epoch) that `secs` falls in. */
  function PeriodIndex(secs: nat, mode: Mode): int {
    match mode
    case Hour => secs / SecondsPerHour
    case Day => secs / SecondsPerDay
    case Month =>
      var t := FromTimestamp(secs);
      (t.year - EpochYear) * 12 + t.month - 1
  }

  lemma HourIndexSplit(secs: nat)
    ensures secs / SecondsPerHour == secs / SecondsPerDay * 24 + secs % SecondsPerDay / SecondsPerHour
  {
    var d, r := secs / SecondsPerDay, secs % SecondsPerDay;
    var h, q := r / SecondsPerHour, r % SecondsPerHour;
    assert secs == SecondsPerHour * (d * 24 + h) + q;
  }

  lemma SplitEqual(a1: string, b1: string, a2: string, b2: string)
    requires a1 + b1 == a2 + b2 && |b1| == |b2|
    ensures a1 == a2 && b1 == b2
  {
    assert a1 == (a1 + b1)[..|a1|];
    assert a2 == (a2 + b2)[..|a2|];
    assert b1 == (a1 + b1)[|a1|..];
    assert b2 == (a2 + b2)[|a2|..];
  }

  /** Equal stamps come from equal fields, at every granularity. */
  lemma StampFieldsEqual(t1: DateTime, t2: DateTime, mode: Mode)
    requires ValidDateTime(t1) && t1.year >= 0
    requires ValidDateTime(t2) && t2.year >= 0
    requires StampOf(t1, mode) == StampOf(t2, mode)
    ensures t1.year == t2.year && t1.month == t2.month
    ensures mode != Month ==> t1.day == t2.day
    ensures mode == Hour ==> t1.hour == t2.hour
  {
    var ym1 := YearText(t1.year) + Pad(t1.month, 2);
    var ym2 := YearText(t2.year) + Pad(t2.month, 2);
    match mode {
      case Month =>
      case Day =>
        SplitEqual(ym1, Pad(t1.day, 2), ym2, Pad(t2.day, 2));
        PadInjective(t1.day, t2.day, 2);
      case Hour =>
        SplitEqual(ym1 + Pad(t1.day, 2), Pad(t1.hour, 2), ym2 + Pad(t2.day, 2), Pad(t2.hour, 2));
        SplitEqual(ym1, Pad(t1.day, 2), ym2, Pad(t2.day, 2));
        PadInjective(t1.day, t2.day, 2);
        PadInjective(t1.hour, t2.hour, 2);
    }
    SplitEqual(YearText(t1.year), Pad(t1.month, 2), YearText(t2.year), Pad(t2.month, 2));
    YearTextInjective(t1.year, t2.year);
    PadInjective(t1.month, t2.month, 2);
  }

  /** A number written with a low digit in base `base` has one such writing. */
  lemma MixedRadixUnique(q1: int, r1: int, q2: int, r2: int, base: int)
    requires 0 <= r1 < base && 0 <= r2 < base
    requires q1 * base + r1 == q2 * base + r2
    ensures q1 == q2 && r1 == r2
  {
    var d := q1 - q2;
    assert d * base == r2 - r1;
    // |r2 - r1| < base, so a non-zero d is impossible.
    if d >= 1 {
      assert false;
    } else if d <= -1 {
      assert false;
    }
  }

  /** Equal stamps mean the same UTC hour, day or month. */
  lemma StampsEqualSamePeriod(s1: nat, s2: nat, mode: Mode)
    requires s1 <= MaxTimestamp && s2 <= MaxTimestamp
    requires GetBackupWithTime(s1, mode) == GetBackupWithTime(s2, mode)
    ensures PeriodIndex(s1, mode) == PeriodIndex(s2, mode)
  {
    var t1, t2 := FromTimestamp(s1), FromTimestamp(s2);
    StampFieldsEqual(t1, t2, mode);
    match mode {
      case Month =>
      case Day =>
        SameDaySameDate(s1, s2);
      case Hour =>
        SameDaySameDate(s1, s2);
        HourIndexSplit(s1);
        HourIndexSplit(s2);
    }
  }

  /** The same UTC hour, day or month means equal stamps. */
  lemma SamePeriodSameStamp(s1: nat, s2: nat, mode: Mode)
    requires s1 <= MaxTimestamp && s2 <= MaxTimestamp
    requires PeriodIndex(s1, mode) == PeriodIndex(s2, mode)
    ensures GetBackupWithTime(s1, mode) == GetBackupWithTime(s2, mode)
  {
    var t1, t2 := FromTimestamp(s1), FromTimestamp(s2);
    match mode {
      case Month =>
        MixedRadixUnique(t1.year - EpochYear, t1.month - 1, t2.year - EpochYear, t2.month - 1, 12);
      case Day =>
        SameDaySameDate(s1, s2);
      case Hour =>
        HourIndexSplit(s1);
        HourIndexSplit(s2);
        MixedRadixUnique(s1 / SecondsPerDay, s1 % SecondsPerDay / SecondsPerHour,
                         s2 / SecondsPerDay, s2 % SecondsPerDay / SecondsPerHour, 24);
        SameDaySameDate(s1, s2);
    }
  }

  /** Two instants get the same archive stamp exactly when they lie in the same
      UTC hour, day or month: the stamp depends on nothing else, and no two
      periods share one. */
  lemma StampIdentifiesPeriod(s1: nat, s2: nat, mode: Mode)
    requires s1 <= MaxTimestamp && s2 <= MaxTimestamp
    ensures GetBackupWithTime(s1, mode) == GetBackupWithTime(s2, mode)
        <==> PeriodIndex(s1, mode) == PeriodIndex(s2, mode)
  {
    if GetBackupWithTime(s1, mode) == GetBackupWithTime(s2, mode) {
      StampsEqualSamePeriod(s1, s2, mode);
    }
    if PeriodIndex(s1, mode) == PeriodIndex(s2, mode) {
      SamePeriodSameStamp(s1, s2, mode);
    }
  }
}
