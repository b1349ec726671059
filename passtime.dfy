/**
  The time-mode rotation decision (`passtimemode`): has "now" passed out of the
  hour, day or month in which the current log file was started?

  The source compares a single calendar field of "now" with the same field of
  the start instant using strict `>`. `PassTimeMode` models that as written;
  `PassPeriod` is the comparison of whole periods that the rotation evidently
  intends, and the lemmas below relate the two.

  The clock is a parameter: `now` is the date-time the source reads with
  `Local::now().naive_local()`. The callers are not part of this model. The
  start instant is assumed to be a value of `timesec` (src/lib.rs:252-255),
  which reads the same local clock as if it were UTC. Decoding it as UTC then
  gives back local calendar fields, so the two sides of the comparison agree.
 */
module PassTime {

  import opened Calendar
  import opened Modes
  import opened Backup

  /** The calendar field that `mode` compares. */
  function Field(t: DateTime, mode: Mode): int {
    match mode
    case Hour => t.hour
    case Day => t.day
    case Month => t.month
  }

  /** The largest value the field that `mode` compares can take. */
  function LastValue(mode: Mode): int {
    match mode
    case Hour => 23
    case Day => 31
    case Month => 12
  }

  /** `passtimemode` as written: now's field strictly above the start's field.
      It can only hold when the start's field is below its largest value. */
  function PassTimeMode(startsec: nat, mode: Mode, now: DateTime): (r: bool)
    requires startsec <= MaxTimestamp
    ensures r && ValidDateTime(now) ==> Field(FromTimestamp(startsec), mode) < LastValue(mode)
  {
    var start := FromTimestamp(startsec);
    match mode
    case Hour => now.hour > start.hour
    case Day => now.day > start.day
    case Month => now.month > start.month
  }

  /** The decision looks at one field of now and nothing else: not its date,
      not whether now is even later than the start. */
  lemma PassTimeModeReadsOneField(startsec: nat, mode: Mode, now1: DateTime, now2: DateTime)
    requires startsec <= MaxTimestamp
    requires Field(now1, mode) == Field(now2, mode)
    ensures PassTimeMode(startsec, mode, now1) == PassTimeMode(startsec, mode, now2)
    ensures PassTimeMode(startsec, mode, now1) <==> Field(now1, mode) > Field(FromTimestamp(startsec), mode)
  {
  }

  /** A file started in hour 23 (HOUR), on day 31 (DAY) or in December (MONTH)
      is never rotated by time: no valid date-time has a larger field. */
  lemma PassTimeModeStuckAtLastValue(startsec: nat, mode: Mode, now: DateTime)
    requires startsec <= MaxTimestamp && ValidDateTime(now)
    requires mode == Hour ==> FromTimestamp(startsec).hour == 23
    requires mode == Day ==> FromTimestamp(startsec).day == 31
    requires mode == Month ==> FromTimestamp(startsec).month == 12
    ensures !PassTimeMode(startsec, mode, now)
  {
  }

  /** The fields that name the period of `t` at the granularity of `mode`, most significant first. */
  function PeriodKey(t: DateTime, mode: Mode): seq<int> {
    match mode
    case Month => [t.year, t.month]
    case Day => [t.year, t.month, t.day]
    case Hour => [t.year, t.month, t.day, t.hour]
  }

  /** Lexicographic "strictly before" on keys of equal length. */
  predicate LexLess(a: seq<int>, b: seq<int>)
    requires |a| == |b|
  {
    |a| > 0 && (a[0] < b[0] || (a[0] == b[0] && LexLess(a[1..], b[1..])))
  }

  /** No key is before itself. */
  lemma {:induction false} LexLessIrreflexive(a: seq<int>)
    ensures !LexLess(a, a)
    decreases |a|
  {
    if |a| > 0 {
      LexLessIrreflexive(a[1..]);
    }
  }

  /** The corrected decision: now lies in a later hour, day or month than the
      start. It never holds while now is still in the start's own period. */
  function PassPeriod(startsec: nat, mode: Mode, now: DateTime): (r: bool)
    requires startsec <= MaxTimestamp
    ensures r ==> PeriodKey(FromTimestamp(startsec), mode) != PeriodKey(now, mode)
  {
    LexLessIrreflexive(PeriodKey(now, mode));
    LexLess(PeriodKey(FromTimestamp(startsec), mode), PeriodKey(now, mode))
  }

  /** The date part of a date-time. */
  function DateOf(t: DateTime): Date {
    Date(t.year, t.month, t.day)
  }

  /** One step of the lexicographic comparison. */
  lemma LexLessStep(x: int, xs: seq<int>, y: int, ys: seq<int>)
    requires |xs| == |ys|
    ensures LexLess([x] + xs, [y] + ys) <==> (x < y || (x == y && LexLess(xs, ys)))
  {
    assert ([x] + xs)[1..] == xs && ([y] + ys)[1..] == ys;
  }

  lemma LexLessMonth(a: DateTime, b: DateTime)
    ensures LexLess(PeriodKey(a, Month), PeriodKey(b, Month))
        <==> (a.year < b.year || (a.year == b.year && a.month < b.month))
  {
    LexLessStep(a.month, [], b.month, []);
    LexLessStep(a.year, [a.month], b.year, [b.month]);
  }

  lemma LexLessDate(a: DateTime, b: DateTime)
    ensures LexLess(PeriodKey(a, Day), PeriodKey(b, Day))
        <==> (a.year < b.year
          || (a.year == b.year && a.month < b.month)
          || (a.year == b.year && a.month == b.month && a.day < b.day))
  {
    LexLessStep(a.day, [], b.day, []);
    LexLessStep(a.month, [a.day], b.month, [b.day]);
    LexLessStep(a.year, [a.month, a.day], b.year, [b.month, b.day]);
  }

  lemma LexLessHour(a: DateTime, b: DateTime)
    ensures LexLess(PeriodKey(a, Hour), PeriodKey(b, Hour))
        <==> (LexLess(PeriodKey(a, Day), PeriodKey(b, Day))
          || (DateOf(a) == DateOf(b) && a.hour < b.hour))
  {
    LexLessDate(a, b);
    LexLessStep(a.hour, [], b.hour, []);
    LexLessStep(a.day, [a.hour], b.day, [b.hour]);
    LexLessStep(a.month, [a.day, a.hour], b.month, [b.day, b.hour]);
    LexLessStep(a.year, [a.month, a.day, a.hour], b.year, [b.month, b.day, b.hour]);
  }

  /** For dates after 1970, "earlier in the calendar" and "fewer days since the epoch" agree. */
  lemma DateOrderIsDayOrder(a: DateTime, b: DateTime)
    requires ValidDateTime(a) && a.year >= EpochYear
    requires ValidDateTime(b) && b.year >= EpochYear
    ensures LexLess(PeriodKey(a, Day), PeriodKey(b, Day)) <==> DaysFromDate(DateOf(a)) < DaysFromDate(DateOf(b))
    ensures DateOf(a) == DateOf(b) <==> DaysFromDate(DateOf(a)) == DaysFromDate(DateOf(b))
  {
    LexLessDate(a, b);
    LexLessDate(b, a);
    if LexLess(PeriodKey(a, Day), PeriodKey(b, Day)) {
      DaysFromDateMonotone(DateOf(a), DateOf(b));
    } else if LexLess(PeriodKey(b, Day), PeriodKey(a, Day)) {
      DaysFromDateMonotone(DateOf(b), DateOf(a));
    }
  }

  /** The index of the period `t` lies in, read back from the date fields. */
  lemma PeriodIndexOfDateTime(t: DateTime, mode: Mode)
    requires ValidDateTime(t) && t.year >= EpochYear
    ensures mode == Hour ==> PeriodIndex(Timestamp(t), mode) == DaysFromDate(DateOf(t)) * 24 + t.hour
    ensures mode == Day ==> PeriodIndex(Timestamp(t), mode) == DaysFromDate(DateOf(t))
    ensures mode == Month ==> PeriodIndex(Timestamp(t), mode) == (t.year - EpochYear) * 12 + t.month - 1
  {
    DateTimeRoundTrip(t);
    var secs := Timestamp(t);
    var rem := t.hour * SecondsPerHour + t.minute * SecondsPerMinute + t.second;
    assert secs == DaysFromDate(DateOf(t)) * SecondsPerDay + rem;
    assert secs / SecondsPerHour == DaysFromDate(DateOf(t)) * 24 + t.hour;
  }

  /** The corrected decision holds exactly when now lies in a later UTC hour,
      day or month than the start: a rotation is due at every period boundary
      and never inside a period. */
  lemma PassPeriodMeansLaterPeriod(startsec: nat, mode: Mode, now: DateTime)
    requires startsec <= MaxTimestamp
    requires ValidDateTime(now) && now.year >= EpochYear
    ensures PassPeriod(startsec, mode, now) <==> PeriodIndex(startsec, mode) < PeriodIndex(Timestamp(now), mode)
  {
    var start := FromTimestamp(startsec);
    TimestampRoundTrip(startsec);
    PeriodIndexOfDateTime(start, mode);
    PeriodIndexOfDateTime(now, mode);
    match mode {
      case Hour =>
        LexLessHour(start, now);
        DateOrderIsDayOrder(start, now);
      case Day =>
        DateOrderIsDayOrder(start, now);
      case Month =>
        LexLessMonth(start, now);
    }
  }

  /** Whenever the corrected decision rotates, the archive about to be named for
      the start's period and the stamp of now's period differ. */
  lemma PassPeriodGivesFreshStamp(startsec: nat, mode: Mode, nowsec: nat)
    requires startsec <= MaxTimestamp && nowsec <= MaxTimestamp
    requires PassPeriod(startsec, mode, FromTimestamp(nowsec))
    ensures GetBackupWithTime(startsec, mode) != GetBackupWithTime(nowsec, mode)
  {
    TimestampRoundTrip(nowsec);
    PassPeriodMeansLaterPeriod(startsec, mode, FromTimestamp(nowsec));
    StampIdentifiesPeriod(startsec, nowsec, mode);
  }

  /** Within one day (HOUR), month (DAY) or year (MONTH) the literal field
      comparison and the corrected one agree. */
  lemma AgreeWithinLargerUnit(startsec: nat, mode: Mode, now: DateTime)
    requires startsec <= MaxTimestamp
    requires var k := PeriodKey(FromTimestamp(startsec), mode);
             k[..|k| - 1] == PeriodKey(now, mode)[..|k| - 1]
    ensures PassPeriod(startsec, mode, now) == PassTimeMode(startsec, mode, now)
  {
    var start := FromTimestamp(startsec);
    var ks, kn := PeriodKey(start, mode), PeriodKey(now, mode);
    match mode {
      case Hour =>
        LexLessHour(start, now);
        LexLessDate(start, now);
        assert ks[..3] == [start.year, start.month, start.day];
        assert kn[..3] == [now.year, now.month, now.day];
      case Day =>
        LexLessDate(start, now);
        assert ks[..2] == [start.year, start.month];
        assert kn[..2] == [now.year, now.month];
      case Month =>
        LexLessMonth(start, now);
        assert ks[..1] == [start.year];
        assert kn[..1] == [now.year];
    }
  }

  /** HOUR: a file started at 1970-01-01 23:00 is not rotated at midnight,
      though the corrected decision rotates it. */
  lemma HourRolloverMissed()
    ensures FromTimestamp(82800) == DateTime(1970, 1, 1, 23, 0, 0)
    ensures !PassTimeMode(82800, Hour, DateTime(1970, 1, 2, 0, 0, 0))
    ensures PassPeriod(82800, Hour, DateTime(1970, 1, 2, 0, 0, 0))
  {
    assert DateFromDays(0) == Date(1970, 1, 1);
    LexLessHour(DateTime(1970, 1, 1, 23, 0, 0), DateTime(1970, 1, 2, 0, 0, 0));
    LexLessDate(DateTime(1970, 1, 1, 23, 0, 0), DateTime(1970, 1, 2, 0, 0, 0));
  }

  /** DAY: a file started on 1970-01-31 is not rotated on 1970-02-01, though
      the corrected decision rotates it. */
  lemma DayRolloverMissed()
    ensures FromTimestamp(2592000) == DateTime(1970, 1, 31, 0, 0, 0)
    ensures !PassTimeMode(2592000, Day, DateTime(1970, 2, 1, 0, 0, 0))
    ensures PassPeriod(2592000, Day, DateTime(1970, 2, 1, 0, 0, 0))
  {
    assert DateFromDays(30) == Date(1970, 1, 31) by {
      DateRoundTrip(Date(1970, 1, 31));
    }
    LexLessDate(DateTime(1970, 1, 31, 0, 0, 0), DateTime(1970, 2, 1, 0, 0, 0));
  }

  /** 28857600 seconds after the epoch is the start of 1970-12-01. */
  lemma DecemberFirst1970()
    ensures FromTimestamp(28857600) == DateTime(1970, 12, 1, 0, 0, 0)
  {
    assert DateFromDays(334) == Date(1970, 12, 1) by {
      MonthsFillYear(1970);
      assert DaysBeforeMonth(1970, 12) == 334;
      MonthOfDayUnique(1970, 334, 12);
      DateFromDaysInYear(1970, 334);
    }
  }

  /** MONTH: a file started on 1970-12-01 is not rotated on 1971-01-01, though
      the corrected decision rotates it. */
  lemma MonthRolloverMissed()
    ensures FromTimestamp(28857600) == DateTime(1970, 12, 1, 0, 0, 0)
    ensures !PassTimeMode(28857600, Month, DateTime(1971, 1, 1, 0, 0, 0))
    ensures PassPeriod(28857600, Month, DateTime(1971, 1, 1, 0, 0, 0))
  {
    DecemberFirst1970();
    LexLessMonth(DateTime(1970, 12, 1, 0, 0, 0), DateTime(1971, 1, 1, 0, 0, 0));
  }
}
