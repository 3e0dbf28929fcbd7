# timesheet — a verified model of the summary engine

`timesheet` is a command-line tool that logs work intervals and days off and
reports, per year or per date, how the hours worked compare with the hours
expected. This project models in Dafny the part of it that does the work
behind the command line:

- the `runner` with its two stores (events and settings) held as fields of a
  class `Runner`:
  - `Add`, `Off` and `SettingsSet` write to the stores;
  - `Backup` copies both stores into a backup document, field for field;
  - `Restore` empties them and adds the document's records back in order;
  - `settingToInt` and `getSettings` read the `workday` and `break` settings
    and fail rather than fall back to a default;
  - `SummaryYear` and `SummaryDay` group the events by year or by date, work
    out the expected, worked and difference minutes, and sort the rows with a
    stable sort on the first cell;
- the `utils` helpers:
  - `IntOfMinutesToString`, the subtract-sixty loop that prints `<H>h <M>m`;
  - `ErrorHandler`, the fail-fast rule;
  - `IntFromString`, which is `strconv.Atoi`;
  - the `TimeFrom*` functions, which build an RFC 3339 `date-time` text from
    a date and a clock and parse it;
  - the grouping helpers the summaries call: `BuildListOf`,
    `FilterEventsFrom`, `CalculateTotal`, `IsDayExcluded` and
    `CountDaysNotExcluded`.

Files:

| file | module | contents |
|---|---|---|
| `results.dfy` | `Results` | the error values (`NotFound`, `SyntaxError`, `RangeError`) and `Result`/`Option` |
| `decimal.dfy` | `Decimal` | decimal digits, fixed-width fields, `strconv.Itoa`/`Atoi` on 64-bit values |
| `ordering.dfy` | `Ordering` | Go's `<` on strings (byte-wise, a prefix first) as a strict total order |
| `civil.dfy` | `Civil` | UTC instants in years 0000–9999, their count of seconds, `End.Sub(Start)` in whole minutes |
| `timeformat.dfy` | `TimeFormat` | `Format` with the layouts `"2006"`, `"2006-01-02"` and RFC 3339, and `time.Parse` on `YYYY-MM-DDTHH:MM:SSZ` |
| `models.dfy`, `backupmodels.dfy` | `Models`, `BackupModels` | the stored records and the backup document |
| `utils.dfy` | `Utils` | the `utils` package and the grouping helpers, with what grouping preserves |
| `stablesort.dfy` | `StableSort` | `sort.SliceStable` on the first cell of a row |
| `runner.dfy` | `Runner` | the settings store, the summaries' row specifications, class `Runner` and the summary loops |

The grouping helpers are called from `runner/runner.go` but their bodies are
not part of this model. They are defined here from their call sites:

- `BuildListOf` lists each period key once, in order of first appearance. The
  order does not matter, because the rows are sorted afterwards.
- `FilterEventsFrom` keeps the events whose start prints as the key.
- `IsDayExcluded` holds when some event of the day is excluded.
- `CountDaysNotExcluded` counts the dates on which no event is excluded.
- `CalculateTotal` sums `End.Sub(Start)` in whole minutes, truncated per
  event.

The event store's `GetAll` calls `Order("start asc")` after `Find` has already
run, so the events come back in insertion order, and that is what the model
uses. The settings store's `Exist` is true only when exactly one setting has
the key, so `AddOrUpdate` updates in that case and appends otherwise; the
model keeps that rule and proves that keys stay unique under it.

## Model

| member | source | states |
|---|---|---|
| Utils.ErrorHandler | utils/utils.go:42-46 | the outcome is a panic exactly when there is an error, and the panic carries that error |
| Utils.IntOfMinutesToString | utils/utils.go:49-65 | the loop keeps `h * 60 + m == minutes` with `h >= 0` and ends with `m < 60`; the text is `FormatDuration(minutes)` |
| Utils.FormatDuration | utils/utils.go:48-65 | for a count that is not negative the text is `<minutes div 60>h <minutes mod 60>m`; for a negative count the loop never runs, so it is `0h <minutes>m` |
| Utils.HoursAndMinutes | utils/utils.go:54-62 | whole hours and remaining minutes add back up to the count; hours are not negative, minutes are below 60, and not negative for a count that is not; below an hour the hours are 0 |
| Utils.HoursAndMinutesUnique | utils/utils.go:54-62 | any split the loop can stop at (hours not negative, minutes below 60) is the one `HoursAndMinutes` gives |
| Utils.FormatDurationExamples | utils/utils_test.go:12-17 | 0, 60, 30 and 125 minutes print as `0h 0m`, `1h 0m`, `0h 30m` and `2h 5m`; -30 prints as `0h -30m` |
| Decimal.Atoi | utils/utils.go:37-39 | a text of digits, with an optional sign, whose value fits in 64 bits reads as exactly that value; a decimal text out of range, or one whose leading digits already pass 2^64 − 1 before a non-digit, is a range error naming the text; any other text is a syntax error naming it |
| Decimal.AtoiAfterItoa | utils/utils.go:37-39 | every 64-bit integer printed in decimal reads back as itself |
| Decimal.ItoaAfterAtoi | utils/utils.go:37-39 | a canonical decimal text (no `+`, no leading zero) that reads as a value prints back as the same text |
| Decimal.ScanUintReads | utils/utils.go:37-39 | the digit loop of `ParseUint` ends with the value of the digits when all are digits and within 64 bits, with a range error once the leading digits pass 2^64 − 1, and with a syntax error otherwise |
| Decimal.OverflowIsRangeError | utils/utils.go:37-39 | a text whose leading digits pass 2^64 − 1 is a range error whatever follows them |
| Decimal.AtoiOverflowBeforeLetter | utils/utils.go:37-39 | `"99999999999999999999x"` is a range error, not a syntax error |
| Utils.IntFromString | utils/utils.go:37-39 | succeeds exactly on a decimal text whose value fits in 64 bits, and then returns that value; a canonical text prints back as itself |
| Utils.IntFromStringExamples | utils/utils_test.go:73-82 | `"1"` reads as 1 and `"A"` is an error |
| TimeFormat.Parse | utils/utils.go:12-14 | a text is accepted exactly when it has the `YYYY-MM-DDTHH:MM:SSZ` shape and names a real date and time; what is accepted prints back as the same text |
| TimeFormat.ParseAfterFormat | utils/utils.go:12-14 | parsing what `Format` prints gives back the same instant |
| TimeFormat.FormatInjective | utils/utils.go:12-14 | two instants that print the same are the same instant |
| Utils.TimeFromDateString | utils/utils.go:17-19 | an accepted date gives midnight UTC of the date whose key is that text |
| Utils.TimeFromDateStringAccepts | utils/utils.go:17-19 | every date's own `YYYY-MM-DD` text is accepted and gives that date's midnight |
| Utils.TimeFromDateStringExamples | utils/utils_test.go:24-35 | `2010-01-01` gives 2010-01-01 00:00:00 UTC and `Hello World` is an error |
| Utils.TimeFromDateStringAndTimeString | utils/utils.go:22-24 | an accepted pair gives the instant with that date key and that `HH:MM` clock key, with seconds always 0 |
| Utils.TimeFromDateStringAndTimeStringAccepts | utils/utils.go:22-24 | every whole-minute instant is accepted from its own date and clock texts |
| Utils.TimeFromDateStringAndTimeStringExamples | utils/utils_test.go:55-71 | `2010-01-01` with `08:00` gives 08:00:00 that day; `abc`/`bc` and `2010-01-01`/`bc` are errors |
| Utils.TimeFromDateStringAndTimeString2 | utils/utils.go:27-29 | an accepted pair gives the instant that prints as the date, `T`, the clock and `Z` |
| Utils.TimeFromDateStringAndTimeString2Accepts | utils/utils.go:27-29 | every instant is accepted from its own date text and `HH:MM:SS` clock text |
| Utils.TimeFromString | utils/utils.go:32-34 | an accepted text is what the instant prints as, less the trailing `Z` |
| Utils.TimeFromStringAccepts | utils/utils.go:32-34 | every instant is accepted from its own text without the `Z` |
| Utils.TimeFromFullClockExamples | utils/utils_test.go:37-53 | `2010-01-01` with `08:00:00` gives 08:00:00 that day; `abc`/`bc` and `2010-01-01`/`bc` are errors; `TimeFromString("2010-01-01T08:00:00")` gives the same instant |
| Utils.BuildListOf | runner/runner.go:236 | the keys are distinct; every event's key is among them and each of them is some event's key |
| Utils.FilterEventsFrom | runner/runner.go:244 | every event occurs in the result as often as in the input if its start prints as the key, and not at all otherwise |
| Utils.IsDayExcluded | runner/runner.go:294 | holds exactly when some event of the list is excluded |
| Utils.CountDaysNotExcluded | runner/runner.go:246 | no more days are counted than there are dates among the events |
| Utils.CountDaysNotExcludedMeaning | runner/runner.go:246 | the count is the number of dates some event falls on and no event of that date excludes |
| Utils.CountIncludedDaysIsSize | runner/runner.go:246 | over distinct dates, the count is the size of the set of those dates with no excluded event |
| Utils.IncludedDatesOfKeys | runner/runner.go:236-246 | the dates of `BuildListOf` with no excluded event are exactly the events' dates with no exclusion |
| Utils.RegroupCounts | runner/runner.go:236-244 | over distinct keys, the groups together hold each event as often as the input when its key is among the keys, else never |
| Utils.NoEventLostOrDuplicated | runner/runner.go:236-244 | the groups for the keys of `BuildListOf` together hold exactly the events, none lost and none twice |
| Utils.TotalOfConcat | runner/runner.go:250 | the minutes of two lists of events together are the sum of their minutes |
| Utils.TotalSplitsByKey | runner/runner.go:243-250 | the per-period totals over all periods add up to the total of all events |
| Utils.GroupExcluded | runner/runner.go:292-294 | a date's group is excluded exactly when some event on that date is excluded |
| Utils.NoExclusionCountsEveryDay | runner/runner.go:246 | with no excluded event, every date counts |
| Utils.AllExcludedCountsNoDay | runner/runner.go:246 | with every event excluded, no date counts |
| Utils.DistinctDatesCount | runner/runner.go:246 | when no two events share a date, the days that count are the events that are not excluded |
| Utils.FiveDaysExample | runner/runner.go:246 | five events on five dates, two of them excluded, give three counted days |
| Utils.OffAddsNoMinutes | runner/runner.go:128-132 | a day off, starting and ending at the same instant, adds no minutes to a total |
| Utils.SameDayEventMinutes | runner/runner.go:250 | an event within one date counts the minutes between its clocks |
| Utils.ReversedIntervalCountsNegative | runner/runner.go:250 | an event that ends before it starts is not clamped: it counts its minutes negative and lowers the total by them |
| Utils.OnePeriod | runner/runner.go:236-244 | when every event has the same key, that key is the only period and its group is all the events |
| Runner.CountKey | repositories/settings/settings.go:33-39 | the count of a key is 0 exactly when no setting has it |
| Runner.CountUnique | repositories/settings/settings.go:33-39 | with unique keys, a present key is counted exactly once, so `Exist` is true exactly when the key is present |
| Runner.GetOne | repositories/settings/settings.go:42-48 | found exactly when some setting has the key; the setting found is the first with that key; otherwise the error is not found for that key |
| Runner.GetOneUnique | repositories/settings/settings.go:42-48 | with unique keys, the lookup finds the stored setting |
| Runner.AddOrUpdate | repositories/settings/settings.go:60-78 | afterwards the key is present, nothing is removed, and every setting with another key stays where it was |
| Runner.AddOrUpdateKeys | repositories/settings/settings.go:60-78 | a present key is updated in place; a new key is appended at the end |
| Runner.AddOrUpdateUnique | repositories/settings/settings.go:60-78 | keys stay unique |
| Runner.AddOrUpdateThenGetOne | repositories/settings/settings.go:60-78 | the key then reads back the new value |
| Runner.AddOrUpdateKeepsOthers | repositories/settings/settings.go:60-78 | every other key reads back what it read before |
| Runner.AddAllUnique | runner/runner.go:222-225 | adding the document's settings one by one keeps keys unique |
| Runner.RestoreUndoesBackup | runner/runner.go:169-177 | adding back the backed-up settings, in order, into an empty store rebuilds the store exactly |
| Runner.SettingToInt | runner/runner.go:53-67 | a missing setting is a not-found error, never a default; a value is returned only when a stored setting of that name parses to it, within 64 bits |
| Runner.SettingToIntFailsFast | runner/runner.go:53-67 | the result is an error exactly when `ErrorHandler` panics on the lookup's or on the parse's error, and it is the error it panics with |
| Runner.SettingToIntOfStored | runner/runner.go:53-67 | with unique keys, the result is the stored text parsed by `Atoi`, error included |
| Runner.SetThenRead | runner/runner.go:91-95 | a number stored with `SettingsSet` reads back as that number |
| Runner.GetSettings | runner/runner.go:69-71 | succeeds exactly when both the workday and the break read; the error is the workday's if it fails, else the break's |
| Runner.GetSettingsOfStored | runner/runner.go:69-71 | with both stored as numbers, both are read back |
| Runner.MissingWorkdayFails | runner/runner.go:277 | without a workday setting the settings fail with not found for `workday`, so `SummaryDay` fails though it uses only the break |
| Runner.YearFiguresMeaning | runner/runner.go:246-254 | a year's counted days are the dates in that year with no excluded event; expected = days × workday; total = the year's minutes − days × break; difference = total − expected |
| Runner.WorkedDatesOfYear | runner/runner.go:244-246 | the dates counted for a year are the dates in that year with no excluded event |
| Runner.YearTotalsAddUp | runner/runner.go:243-252 | the year totals, each with its breaks added back, add up to the minutes of all events |
| Runner.YearRowsOnePerYear | runner/runner.go:236-261 | a row is in the year rows exactly when it is the row of some event's year, and no two rows share a year |
| Runner.BreakUnlessExcluded | runner/runner.go:292-300 | a day's total is its minutes, less the break exactly when no event of that day is excluded |
| Runner.DayRowsOnePerDay | runner/runner.go:289-305 | a row is in the day rows exactly when it is the row of some event's date whose adjusted total is positive |
| Runner.DayRowsComeFromEvents | runner/runner.go:289-305 | every day row belongs to some event's date with a positive adjusted total |
| Runner.EventsGiveDayRows | runner/runner.go:289-305 | every event's date with a positive adjusted total has its row |
| Runner.DayRowsDistinct | runner/runner.go:289-305 | no two day rows share a date |
| Runner.RowsOfMembers | runner/runner.go:243-262 | the rows built over keys are exactly the rows of those keys |
| Runner.KeptRowsOfMembers | runner/runner.go:291-305 | the rows kept over distinct keys are exactly the rows of the accepted keys, and no two share a first cell |
| Runner.SameMembers | runner/runner.go:264-266 | two orderings of the same rows have the same members |
| Runner.YearEntry | runner/runner.go:244-261 | the straight-line body of the year loop yields exactly the year's row: key, expected, total, difference |
| Runner.YearData | runner/runner.go:241-262 | the year loop yields the year rows in the order of `BuildListOf` |
| Runner.DayEntry | runner/runner.go:292-304 | the body of the day loop yields the date's row when its adjusted total is positive, and nothing otherwise |
| Runner.DayData | runner/runner.go:287-305 | the day loop yields the rows of the dates with a positive adjusted total, in the order of `BuildListOf` |
| Runner.SortedYearRows | runner/runner.go:264-266 | after the stable sort the year rows are the same rows, in strictly increasing order of year |
| Runner.SortedDayRows | runner/runner.go:307-309 | after the stable sort the day rows are the same rows, each with a positive total, in strictly increasing order of date |
| StableSort.SortByKey | runner/runner.go:264-266 | the result is sorted by first cell, holds the same rows, and for every key keeps the rows with that key in their original order |
| StableSort.InsertSorted | runner/runner.go:264-266 | inserting a row into sorted rows keeps them sorted |
| StableSort.InsertStable | runner/runner.go:264-266 | the inserted row comes after every row with the same key |
| StableSort.SortedDistinctIsStrict | runner/runner.go:264-266 | sorting rows whose keys are all different orders them strictly |
| TimeFormat.YearKeyOrder | runner/runner.go:264-266 | year keys compare as strings in the order of the years, so sorting by key sorts by year |
| TimeFormat.YearKeySameYear | runner/runner.go:236-244 | two instants share a year key exactly when they fall in the same year |
| TimeFormat.DateKeySameDate | runner/runner.go:289-292 | two instants share a date key exactly when they fall on the same date |
| Runner.Runner.constructor | runner/runner.go:45-51 | a runner over the stores as they stand: its fields are the given stores |
| Runner.Runner.AddEvent | repositories/event/event.go:46-52 | the event is appended under the next ID; the settings are unchanged |
| Runner.Runner.Add | runner/runner.go:121-125 | appends the interval with its excluded flag, never as a day off |
| Runner.Runner.Off | runner/runner.go:128-132 | appends a day off that starts and ends at the date and is not excluded |
| Runner.Runner.SettingsSet | runner/runner.go:91-95 | the store becomes `AddOrUpdate` of the old one, the key reads back the value, and the events are unchanged |
| Runner.Runner.Backup | runner/runner.go:160-194 | the document holds every setting (key, value) and every event (start, end, excluded, off), field for field and in order |
| Runner.Runner.Restore | runner/runner.go:204-226 | both stores are emptied; the events become the document's, in order, under fresh increasing IDs; the settings become the document's added one by one |
| Runner.Runner.AddEvents | runner/runner.go:217-220 | each event of the document is added in order under the next ID |
| Runner.Runner.SetAll | runner/runner.go:222-225 | each setting of the document is added or updated in order |
| Runner.Runner.BackupThenRestore | runner/runner.go:160-226 | backup then restore gives back the same settings, and the same events in the same order apart from their IDs |
| Runner.Runner.SummaryYear | runner/runner.go:229-273 | fails exactly when the settings cannot be read, with their error; otherwise one row per year among the events, each with that year's figures, in strictly increasing year order |
| Runner.ThreeDaysYearRows | runner/runner.go:229-273 | three 08:00–10:00 events in 2010 with workday and break 0 give the one row `2010`, `0h 0m`, `6h 0m`, `6h 0m` |
| Runner.SummaryYearExample | runner/runner.go:229-273 | `SummaryYear` over stores holding those three events and a workday and break of 0 returns exactly that one row |
| Runner.Runner.SummaryDay | runner/runner.go:276-316 | fails exactly when the settings cannot be read; otherwise one row per date whose adjusted total is positive, every row's total positive, in strictly increasing date order |

## Left out

- Terminal output is not modelled: the `tablewriter` tables, the prompts, and `Setup`'s reading from standard input. The summaries return their rows instead of printing them.
- `List`, `SettingsList`, `Delete` and `Setup` are not modelled. They only print, delete by ID, or prompt, and none of them feeds the summaries.
- Backup files are not modelled. The JSON encoding and the file reads and writes in `Backup` and `Restore` are left out, and the document is passed in and out as a value.
- `OpenOrCreate` and `exist` are left out because they only touch the filesystem.
- The gorm and SQLite layer is not modelled. The stores are sequences, and their calls never fail. `Backup` ignores the stores' errors in the source anyway.
- Runner.Runner.Restore: does not model the absence of rollback when a store call fails partway, because the modelled stores cannot fail.
- The setting IDs are left out because nothing in the core reads them. Event IDs are kept.
- Runner.Runner.SummaryYear, Runner.Runner.SummaryDay, Runner.SettingToInt and Runner.GetSettings: the `ErrorHandler` panic on a missing or non-numeric setting is modelled as an `Err` result carrying the same error.
- Stored and restored event instants are whole-second UTC (`Civil.Time`). A backup document whose times carry a fraction of a second or a zone offset cannot be represented, so the date keys Go would print in such a location are not modelled.
- TimeFormat.Parse: accepts only the fixed `YYYY-MM-DDTHH:MM:SSZ` shape. Go's `time.Parse` also takes fractional seconds and numeric zone offsets, and these are not modelled.
- TimeFormat.Parse: Go's layout element `15` also reads a one-digit hour, so the program accepts `2010-01-01T8:00:00Z` and `add 2010-01-01 8:00 16:00`, but both are errors here.
- Runner.YearEntry: does not model 64-bit wrap-around of `numberOfDays * workday`, `numberOfDays * breaktime` or the sums, because integers are unbounded here.
- Runner.DayEntry, Runner.Runner.SummaryDay, Runner.Runner.SummaryYear: do not model the 64-bit wrap-around of `total -= breaktime` before the `total > 0` test, of the sums in `CalculateTotal`, or of the year figures, because integers are unbounded here. With a break of -9223372036854775808, which `Atoi` accepts, a 1-minute day wraps to a negative total in the program and loses its row, but keeps it here.
- Utils.EventMinutes: does not model the saturation of `time.Duration` for intervals longer than about 292 years.
- Utils.CalculateTotal: truncates each event to whole minutes before summing. Its body is not part of this model, and summing seconds first would differ by under a minute per event.
- StableSort.SortByKey: does not model the algorithm of `sort.SliceStable`. An insertion sort with the same contract stands in: sorted, the same rows, and the order within each key kept.
- `main.go`, `cmd/cmd.go` and `read/read.go` are not part of this model. They handle argument parsing and command wiring.
