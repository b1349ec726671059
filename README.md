# tklog helpers in Dafny

tklog is a leveled Rust logging library that writes to a rotating file sink. A
file is archived each hour, day or month (or once it reaches a size) and may
then be compressed. This project models the pure and sequential helpers in
`src/lib.rs` that the sink and the logger use, and proves properties of them:

- **Log-line templates** (`parse_and_format_log`). `Template.Render` gives the
  meaning of a template, read from the front. `Template.ParseAndFormatLog` is
  the source's single pass, which keeps a result buffer, an "inside a
  placeholder" flag and a placeholder buffer. It is proved to compute `Render`.
- **Short file names** (`get_short_file_path`). `ShortPath.GetShortFilePath`
  scans from the back and stops at the first `/` or `\`. It is proved to return
  the one separator-free suffix that reaches back to the last separator.
- **Archive stamps** (`getbackup_with_time`). `Calendar` turns seconds since the
  epoch into a UTC date: it walks whole years from 1970, then whole months.
  Both directions of the conversion are proved to round-trip. `Digits` and
  `Backup` write the date the way chrono's `%Y%m%d%H`, `%Y%m%d` and `%Y%m` do.
- **Time-mode rotation decision** (`passtimemode`). The current time is a
  parameter instead of a clock read. `PassTime.PassTimeMode` is the code as
  written. `PassTime.PassPeriod` is the corrected decision (see Findings).
- **Levels and flags**: the `LEVEL` enum and its derived order (`Levels`), the
  `Format` bit flags (`Format`), and the `MODE` / `CUTMODE` enums (`Modes`).

The callers of `passtimemode` are not part of this model, so where its
`startsec` comes from is an assumption here. The model assumes it is a value of
`timesec` (src/lib.rs:252-255): the local wall-clock time read as if it were
UTC. Decoded as UTC, it then gives back local calendar fields, the same kind of
fields as `now`, which is `Local::now().naive_local()`. The model takes `now` as
a broken-down `Calendar.DateTime`. Under this assumption, "UTC hour, day or
month" in the lemmas below means the local hour, day or month. If a caller
passed a true UTC instant, the two sides of the comparison would be in
different time zones, and the model does not cover that case.

Neither the code nor its comments say whether comparing only one field was
intended. The model follows the code as written
and proves its consequences. The corrected decision is stated beside it.

## Model

| member | source | states |
|---|---|---|
| `Levels.Discriminant` | src/lib.rs:98-108 | each level is represented by a `u8` between 1 and 7 |
| `Levels.FromDiscriminant` | src/lib.rs:99-108 | a `u8` names a level exactly when it is between 1 and 7, and the level it names has that discriminant |
| `Levels.DiscriminantRoundTrip` | src/lib.rs:99-108 | reading a level's discriminant back gives the same level |
| `Levels.LevelTotalOrder` | src/lib.rs:98 | the derived `PartialOrd` is a total order: reflexive, antisymmetric, transitive, and any two levels are comparable; `<` is `<=` without equality |
| `Levels.LevelLadder` | src/lib.rs:100-108 | Trace < Debug < Info < Warn < Error < Fatal < Off; Trace is the least level and Off the greatest |
| `Format.Bit` | src/lib.rs:51-57 | each `Format` constant (`Date` 1, `Time` 2, `Microseconds` 4, `LongFileName` 8, `ShortFileName` 16, `LevelFlag` 32) is a single non-zero bit |
| `Format.FlagsAreDisjointBits` | src/lib.rs:51-57 | every non-zero flag is one bit; two distinct flags share no bit, so OR-ing them equals adding them |
| `Format.HasOr` | src/lib.rs:50-58 | OR-ing one more flag into a mask selects that flag and keeps every flag the mask already selected, and no other |
| `Format.CombineSelectsExactly` | src/lib.rs:50-58 | a mask built by OR-ing a list of flags selects a flag exactly when that flag is in the list |
| `Calendar.MonthsFillYear` | src/lib.rs:221 | the twelve month lengths add up to the year's length, 366 days exactly in Gregorian leap years |
| `Calendar.DaysInMonth` | src/lib.rs:221 | every month has between 28 and 31 days |
| `Calendar.YearOfDay` | src/lib.rs:221 | the year walk ends in a year that contains the remaining day, and the whole years skipped plus that day add up to the input |
| `Calendar.MonthOfDay` | src/lib.rs:221 | the month walk ends in the month that contains the day of the year |
| `Calendar.DateFromDays` | src/lib.rs:221 | any day count gives a valid date in 1970 or later |
| `Calendar.FromTimestamp` | src/lib.rs:221 | any number of seconds gives a valid date-time in 1970 or later (month 1..12, a day in that month, hour 0..23, minute and second 0..59) |
| `Calendar.DateFromDaysInYear` | src/lib.rs:221 | the date of a day in a given year is found by the month walk over that year |
| `Calendar.SecondsSplit` | src/lib.rs:221 | seconds built from a day count and a time of day are split back into that day count, hour, minute and second |
| `Calendar.DateRoundTrip` | src/lib.rs:221 | counting a date's days from the epoch and converting back gives the same date |
| `Calendar.DaysRoundTrip` | src/lib.rs:221 | converting a day count to a date and counting back gives the same number |
| `Calendar.TimestampRoundTrip` | src/lib.rs:221 | decoding seconds into a date-time and encoding it again gives the same seconds |
| `Calendar.DateTimeRoundTrip` | src/lib.rs:221 | encoding a valid date-time from 1970 on and decoding it gives the same date-time |
| `Calendar.DaysFromDateMonotone` | src/lib.rs:221 | a date that is earlier in the calendar has a smaller day count |
| `Calendar.MonthsOrdered` | src/lib.rs:221 | each month ends no later than any later month starts |
| `Calendar.YearsOrdered` | src/lib.rs:221 | each year ends no later than any later year starts |
| `Calendar.MonthOfDayUnique` | src/lib.rs:221 | the month walk finds the only month that contains a given day of the year |
| `Calendar.SameDaySameDate` | src/lib.rs:221 | two instants share a UTC day count exactly when they decode to the same date |
| `Calendar.DaysBetweenYearsAdd` | src/lib.rs:221 | the days from one year to a later one split at any year in between |
| `Calendar.LeapDay2000` | src/lib.rs:221 | 2000-02-29 exists, since 400 divides 2000, and it is Unix time 951782400 both ways: encoding it gives that number and decoding that number gives it back |
| `Digits.PadRoundTrip` | src/lib.rs:224 | reading a zero-padded fixed-width rendering back gives the number that was written |
| `Digits.DecimalRoundTrip` | src/lib.rs:224 | reading a plain decimal rendering back gives the number that was written |
| `Digits.PadInjective` | src/lib.rs:224 | two numbers with the same zero-padded rendering are equal |
| `Backup.YearText` | src/lib.rs:224 | `%Y` writes years up to 9999 as four digits, and later years as `+` followed by digits |
| `Backup.YearTextInjective` | src/lib.rs:224 | different years get different `%Y` text |
| `Backup.StampOfLayout` | src/lib.rs:223-234 | the `%Y%m%d%H`, `%Y%m%d` or `%Y%m` text of a date-time starts with its `%Y` year; for years up to 9999 it is 10, 8 or 6 digits |
| `Backup.GetBackupWithTime` | src/lib.rs:220-236 | for years up to 9999 the stamp is all digits: 10 of them for HOUR, 8 for DAY, 6 for MONTH |
| `Backup.StampPrefixes` | src/lib.rs:223-234 | for one start instant, the MONTH stamp is a prefix of the DAY stamp, which is a prefix of the HOUR stamp; each is two characters longer than the one before |
| `Backup.StampFieldsEqual` | src/lib.rs:223-234 | equal stamps have equal year and month, equal day (HOUR, DAY) and equal hour (HOUR) |
| `Backup.HourIndexSplit` | src/lib.rs:224 | the hour since the epoch is 24 times the day since the epoch, plus the hour of the day |
| `Backup.StampsEqualSamePeriod` | src/lib.rs:220-236 | two start instants with the same stamp lie in the same UTC hour, day or month |
| `Backup.SamePeriodSameStamp` | src/lib.rs:220-236 | two start instants in the same UTC hour, day or month get the same stamp |
| `Backup.StampIdentifiesPeriod` | src/lib.rs:220-236 | two start instants get the same stamp exactly when they lie in the same UTC hour, day or month: the stamp is deterministic, and no two periods share one |
| `PassTime.PassTimeMode` | src/lib.rs:257-266 | as written, the decision compares one field with strict `>`, so it can be true only when the start's hour is below 23 (HOUR), its day below 31 (DAY) or its month below 12 (MONTH) |
| `PassTime.PassTimeModeReadsOneField` | src/lib.rs:257-266 | the decision depends only on the one field of `now` named by the mode, and is true exactly when that field is strictly greater than the start's field |
| `PassTime.PassTimeModeStuckAtLastValue` | src/lib.rs:260-265 | a file started in hour 23 (HOUR), on day 31 (DAY) or in December (MONTH) is never rotated, whatever `now` is |
| `PassTime.HourRolloverMissed` | src/lib.rs:258-261 | a file started at 1970-01-01 23:00 is not rotated at 00:00 the next day as written; the corrected decision rotates it |
| `PassTime.DayRolloverMissed` | src/lib.rs:262-264 | a file started on 1970-01-31 is not rotated on 1970-02-01 as written; the corrected decision rotates it |
| `PassTime.MonthRolloverMissed` | src/lib.rs:265 | a file started in December 1970 is not rotated in January 1971 as written; the corrected decision rotates it |
| `PassTime.AgreeWithinLargerUnit` | src/lib.rs:260-265 | when `now` is in the same day (HOUR), month (DAY) or year (MONTH) as the start, the code as written and the corrected decision agree |
| `PassTime.PassPeriod` | src/lib.rs:257-266 | the corrected decision compares the whole (year, month, day, hour) key up to the mode's unit; it is never true while `now` is still in the start's own period |
| `PassTime.PassPeriodMeansLaterPeriod` | src/lib.rs:257-266 | the corrected decision is true exactly when `now` lies in a later UTC hour, day or month than the start |
| `PassTime.PassPeriodGivesFreshStamp` | src/lib.rs:220-266 | whenever the corrected decision rotates, the start's archive stamp differs from the stamp of `now`'s period |
| `PassTime.LexLessStep` | src/lib.rs:260-265 | one step of comparing period keys: the first fields decide, and only on a tie do the remaining fields |
| `PassTime.LexLessMonth` | src/lib.rs:265 | comparing MONTH keys is comparing years, then months |
| `PassTime.LexLessDate` | src/lib.rs:263 | comparing DAY keys is comparing years, then months, then days |
| `PassTime.LexLessHour` | src/lib.rs:261 | comparing HOUR keys is comparing dates, then hours on the same date |
| `PassTime.DateOrderIsDayOrder` | src/lib.rs:263 | for dates from 1970 on, "earlier in the calendar" means "fewer days since the epoch", and the same date means the same day count |
| `PassTime.PeriodIndexOfDateTime` | src/lib.rs:260-265 | the hour, day and month index of an encoded date-time can be read from its date fields |
| `Template.IndexOf` | src/lib.rs:198 | returns nothing exactly when the character is absent; otherwise returns the position of its first occurrence |
| `Template.LookupSelects` | src/lib.rs:200-206 | the collected name selects the level, time, file or message text; the result is one of those four or empty, and it is non-empty only for those four names |
| `Template.RenderAppend` | src/lib.rs:196-216 | rendering a prefix whose braces are all closed, then the rest, gives the same line as rendering the whole template |
| `Template.ClosedAppend` | src/lib.rs:196-216 | a template made of two parts whose braces are all closed has all its braces closed |
| `Template.IndexOfPrefix` | src/lib.rs:198 | the first `}` after a `{` is found in the part already read when that part has one |
| `Template.RenderPlaceholder` | src/lib.rs:198-207 | a complete `{name}` renders to the field the name selects |
| `Template.RenderDangling` | src/lib.rs:192-217 | a `{` with no `}` after it renders to nothing |
| `Template.RenderLiteral` | src/lib.rs:211-215 | a template with no `{` is returned unchanged, `}` characters included |
| `Template.RenderSubstitutes` | src/lib.rs:198-207 | literal text followed by `{name}` renders as the text, then the named field (`level`, `time`, `file` or `message`), or nothing for any other name, then the rest |
| `Template.RenderDropsUnterminated` | src/lib.rs:192-217 | in literal text followed by an unterminated `{...`, neither the brace nor the characters after it appear in the result |
| `Template.ExtendByPlaceholder` | src/lib.rs:198-207 | reading a whole placeholder after a closed prefix appends what the name selects |
| `Template.ExtendByLiteral` | src/lib.rs:213-214 | reading one character other than `{` after a closed prefix appends that character |
| `Template.EndInPlaceholder` | src/lib.rs:217 | a placeholder still open at the end of the template adds nothing |
| `Template.StepLiteral` | src/lib.rs:211-215 | one loop step outside a placeholder: a character other than `{` is appended to the line, and the part read stays closed |
| `Template.StepClose` | src/lib.rs:198-207 | one loop step inside a placeholder: the `}` appends the field the collected name selects, and the part read is closed again |
| `Template.StepEndOpen` | src/lib.rs:217 | when the loop ends inside a placeholder, the line is what the part before its `{` renders to |
| `Template.ParseAndFormatLog` | src/lib.rs:185-218 | the single pass, with its mutable buffers and flag, returns exactly `Render` of the template and the four fields |
| `ShortPath.ShortNameSuffix` | src/lib.rs:240-249 | the short name is a suffix of the path |
| `ShortPath.ShortNameNoSeparator` | src/lib.rs:240-249 | the short name contains no `/` or `\` |
| `ShortPath.ShortNameBoundary` | src/lib.rs:240-249 | the short name is the whole path or starts right after a separator |
| `ShortPath.ShortNameIsLastComponent` | src/lib.rs:238-250 | the short name is a suffix of the path without `/` or `\`; it is either the whole path or starts right after a separator |
| `ShortPath.ShortNameUnique` | src/lib.rs:238-250 | only one suffix has those properties |
| `ShortPath.GetShortFilePath` | src/lib.rs:238-250 | the reverse scan returns the short name; it is the whole path exactly when there is no separator, and it is empty when the path ends with a separator |

## Left out

- `zlib`, `gzip`, `async_gzip` (src/lib.rs:138-183): file I/O, async I/O and a foreign compression library.
- `timenow` and `timesec` (src/lib.rs:132-136, 252-255) read the wall clock. The model takes the start seconds and `now` as parameters instead.
- The callers of `passtimemode` (the file sinks) are not part of this model. That `startsec` is a `timesec` value, local time read as UTC, is an assumption. A true UTC `startsec` would be compared with local `now` fields, and the model says nothing about that case.
- The global `Lazy` / `static mut` logger instances and `AA::set_level` (src/lib.rs:71-90): process-wide mutable state around loggers that are not part of this model.
- src/syncmulti.rs: macros that lock a shared `Logger` and call its methods. That `Logger` is not part of this model.
- The rotating file sink, the rename to an archive and the background compression queue: `syncfile`, `asyncfile` and `handle` are not part of this model. The size-based archive name and collision handling belong there too.
- `DateType`, `PRINTMODE`, `COLUMN` and `ErrCode` (src/lib.rs:43-69, 92-116): enums with no logic in the modelled functions.
- `Modes.Mode` and `Modes.CutMode` are data only. `CUTMODE` is used only by the sink.
- `Backup.GetBackupWithTime`: requires `startsec <= Calendar.MaxTimestamp`, the last second of chrono's `NaiveDate::MAX`, which is 262143-12-31 in the chrono releases this model assumes (later releases end a year earlier). Past it the source panics in `expect`. A `u64` of 2^63 or more is cast to a negative `i64`; such values (instants before 1970, or a panic) are not modelled.
- `PassTime.PassTimeMode` has the same precondition on `startsec`, for the same reason.
- Strings are modelled as sequences of Unicode scalar values, not UTF-8 bytes. `get_short_file_path` cuts at a byte index, but the separators are one byte each, so the result is the same.
- `Template.ParseAndFormatLog` calls `Template.Lookup` in place of the source's `match` on the placeholder name. `Lookup` is that match, written as a function.

## Findings

| source | as written | input that shows it | evidently intended | confidence | as-written member | corrected member |
|---|---|---|---|---|---|---|
| src/lib.rs:260-265 | compares only now's hour, day or month with the start's, using strict `>` | `startsec = 82800` (1970-01-01 23:00) in HOUR mode: false for every `now`, including 1970-01-02 00:00. The same happens on day 31 in DAY mode and in December in MONTH mode (`PassTime.DayRolloverMissed`, `PassTime.MonthRolloverMissed`) | rotate once `now` lies in a later hour, day or month than the start | medium, not executed | `PassTime.HourRolloverMissed` | `PassTime.PassPeriodMeansLaterPeriod` |
