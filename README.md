# cxe2stix helper: time-range partitioner and window names

`cxe2stix_helper.py` drives bulk CVE and CPE conversions over a date range. It takes a
range specifier such as `1m`, `2d` or `1y` and splits `[earliest, latest]` into
calendar-aligned windows. For every window it then names a scratch objects directory
and an output bundle path. This project models three parts of that file:

- `parse_time_range`, the argument validator for `--file_time_range`. It matches
  `(\d+)(\w+)`, lowercases the unit, checks its first letter and rejects a zero count.
- `get_time_ranges`, the partitioner. Its `while` loop advances a cursor `num`
  calendar units with the inner `for` loop, steps back to 23:59:59 of the previous day,
  clamps the end to `latest` and emits `(unit, lo, hi)`.
- The names `main` derives from each window:
  - the `%Y_%m_%d-%H_%M_%S` stamps;
  - the bundle sub-directory chosen by the unit tag;
  - `<kind>_objects-<lo>-<hi>`;
  - `<kind>/<subdir>/<kind>-bundle-<lo>-<hi>.json`.

Modules:

- `Wrappers` defines `Option` and `Result`.
- `Digits` covers `int()` of a digit string and the zero padding of `strftime`.
- `Calendar` models Python `datetime` at second resolution, proleptic Gregorian, years
  1 to 9999. `+1 second` and `±1 day` are written with explicit carries, and proved
  equal to `+1`, `+86400` and `-86400` on an absolute seconds count. Python's `<` on
  datetimes is proved to be the order of that count.
- `TimeRange` models the regular expression, including the backtracking that makes
  `12` match as count `1` and unit `2`, and `parse_time_range` with its three errors.
- `Partition` models `get_time_ranges` as an imperative method with both loops. It is
  proved against the predicate `IsPartition`, and lemmas follow from that predicate.
- `Naming` models the window names. Each name has a reader, and a round trip is proved
  for each, so that distinct windows get distinct names.

In several places the code does not do what a reader of its help text or of its
output layout might expect; the model follows the code:

- One might expect the last window to end exactly at `latest`. The code ends it
  either at `latest` or one second before it. The second case happens when the computed
  end falls at `latest - 1s`. The loop then stops without a clamped window
  (`Partition.EndsOneSecondEarlyExample`).
- One might expect year-unit bundles to go under `YYYY`. In the code, only `m` gives
  `YYYY` and `d` gives `YYYY-MM`. Every other tag, `y` included, gives `.`
  (`Naming.SubDirContents`).
- One might expect the specifier to have the form `^\d+[A-Za-z]+$`. The code uses
  `re.match` on `(\d+)(\w+)`. That is a prefix match, so trailing text is allowed, digits
  and `_` count as word characters, and a digit may be given back to the unit group.
  The `1` that the help text offers as a format is rejected
  (`TimeRange.UnparseableExamples`).
- For `d` the inner loop adds a day and a second per pass. A window from time of day
  `t` therefore ends `(t + num) / 86400` days later than `num` whole days
  (`Partition.DayWindowEnd`).

## Model

| member | source | states |
|---|---|---|
| TimeRange.MatchSpecIsRegexMatch | cxe2stix_helper.py:29 | `re.match(r'(\d+)(\w+)', s)` succeeds exactly when `s` starts with a digit followed by a word character; the groups meet what the regex promises (digit then word group, a prefix, the word group maximal, no longer digit group possible) |
| TimeRange.ParseTimeRangeAccepts | cxe2stix_helper.py:27-40 | `parse_time_range` returns its argument unchanged, and accepts exactly the strings whose leading digit run is not all zeros and is followed by one of `dDmMyY` |
| TimeRange.ParseTimeRangeErrors | cxe2stix_helper.py:34-39 | which error is raised, in order: no match; unit letter (lowercased) not d, m or y; zero count. Each is stated in both directions |
| TimeRange.AcceptedSpecHasUnitAndCount | cxe2stix_helper.py:32-39 | an accepted specifier matches, has a count of at least one and a unit letter in `dDmMyY`, and lowering leaves a tag that is already d, m or y unchanged |
| TimeRange.HelpTextExamples | cxe2stix_helper.py:35 | `2d`, `1m` and `6m` are accepted |
| TimeRange.UnitSpellingExamples | cxe2stix_helper.py:32-36 | `6M` and `10years` are accepted |
| TimeRange.UnparseableExamples | cxe2stix_helper.py:29-35 | `abc`, `1` and `d1` raise the parse error |
| TimeRange.UnknownUnitExamples | cxe2stix_helper.py:36-37 | `1x` and `12` raise the unknown-unit error |
| TimeRange.ZeroPrefixExamples | cxe2stix_helper.py:38-39 | `0d` and `00d` raise the zero-prefix error |
| Digits.ValueOfPad | cxe2stix_helper.py:127 | zero padding to a width the number fits in keeps its value |
| Digits.PadOfValue | cxe2stix_helper.py:127 | a digit string is the padding of its value to its own width |
| Digits.ValueZeroIffAllZeros | cxe2stix_helper.py:38 | `int(num) == 0` exactly when every digit is `0` |
| Calendar.ChronologicalOrder | cxe2stix_helper.py:51 | Python's `<` on datetimes is the order of the absolute seconds count |
| Calendar.SecondsInjective | cxe2stix_helper.py:51 | distinct valid timestamps have distinct seconds counts |
| Calendar.NextSecondIsOneSecondLater | cxe2stix_helper.py:61 | `+ ONESEC` adds one second, stays valid and overflows only at `datetime.max` |
| Calendar.AddDayIsOneDayLater | cxe2stix_helper.py:58 | `+= ONEDAY` adds 86400 seconds and overflows only on 9999-12-31 |
| Calendar.SubDayIsOneDayEarlier | cxe2stix_helper.py:62 | `-= ONEDAY` subtracts 86400 seconds and overflows only on 0001-01-01 |
| Calendar.DayNumberWithinYear | cxe2stix_helper.py:55 | the day number of a date lies within its year, using `monthrange` month lengths |
| Partition.Partition | cxe2stix_helper.py:48-68 | the loop's output is a partition: empty exactly when `earliest >= latest`; every window tagged with the unit; the first starts at `earliest` and each later one a second after the previous end; `lo <= hi <= latest`, `lo < latest`; each end is the computed end clamped to `latest`; every window but the last ends more than a second before `latest`, and the last ends at `latest` or a second before it |
| Partition.GetTimeRanges | cxe2stix_helper.py:42-68 | for an accepted specifier with a lowercase unit, the result is the partition for `int(num)` and `unit[0]` |
| Partition.GetTimeRangesIgnoringCase | cxe2stix_helper.py:42-68 | with the unit lowercased as `parse_time_range` does, every accepted specifier yields the partition for the lowered tag |
| Partition.ExtendPartial | cxe2stix_helper.py:51-67 | one outer iteration keeps the loop invariant and strictly moves the cursor forward |
| Partition.FinishPartial | cxe2stix_helper.py:51-68 | when `hi < latest` fails, the invariant gives a partition |
| Partition.NextWindowBounded | cxe2stix_helper.py:52-67 | the window emitted from a cursor before `latest` has `lo <= hi <= latest`, and the next cursor is valid and later than `lo` |
| Partition.StepUnitAdvances | cxe2stix_helper.py:53-61 | one inner pass stays valid, moves forward by at most a year, reaches the next day for d, m and y, adds a day and a second for d, and a second for any other tag |
| Partition.AdvanceAdvances | cxe2stix_helper.py:53-61 | `num` inner passes stay valid within `num` years and move forward by at least `num` seconds (exact amounts for d and other tags) |
| Partition.WindowEndInRange | cxe2stix_helper.py:62-63 | the computed end is valid, at 23:59:59, the last second before the cursor's day, not before `lo` |
| Partition.MonthWindowEnd | cxe2stix_helper.py:54-63 | a month window from month M ends at 23:59:59 on the true last day of month M + num - 1 |
| Partition.AdvanceByMonths | cxe2stix_helper.py:54-61 | `k` month passes reach the first of the month `k` months on |
| Partition.YearWindowEnd | cxe2stix_helper.py:59-63 | a year window from year Y ends at Dec 31 23:59:59 of year Y + num - 1 |
| Partition.AdvanceByYears | cxe2stix_helper.py:59-61 | `k` year passes reach Jan 1 of the year `k` years on |
| Partition.DayWindowEnd | cxe2stix_helper.py:57-63 | a day window from day D ends at 23:59:59 on day D + num - 1 + (time of day + num) / 86400 |
| Partition.DayWindowEndFromMidnight | cxe2stix_helper.py:57-63 | from midnight a day window covers exactly `num` calendar days, for every `num` within the year bound |
| Partition.StartsIncrease | cxe2stix_helper.py:51-67 | window starts strictly increase |
| Partition.InteriorWindowsUnclamped | cxe2stix_helper.py:64-65 | every window but the last ends at its unclamped computed end at 23:59:59, and the next starts at midnight |
| Partition.LastWindowCloses | cxe2stix_helper.py:51-67 | after the last window the cursor is at or past `latest` |
| Partition.PartitionUnique | cxe2stix_helper.py:48-68 | the partition contract determines the output uniquely |
| Partition.OneWindowPartition | cxe2stix_helper.py:50-67 | a single window that starts at `earliest`, has the clamped computed end and closes the range is the partition |
| Partition.CalendarExamples | cxe2stix_helper.py:53-63 | 1m from 2024-01-01, 2024-02-01 and 2023-02-01 ends on Jan 31, Feb 29 and Feb 28; 3m from 2024-11-05 ends 2025-01-31; 1y from 2020-03-15 ends 2020-12-31; 2d from 2024-02-28 ends 2024-02-29 |
| Partition.SingleWindowExample | cxe2stix_helper.py:64-66 | 1m over 2024-01-01 to 2024-01-10 gives the single clamped window |
| Partition.EndsOneSecondEarlyExample | cxe2stix_helper.py:51-67 | 1m over 2024-01-01 to 2024-02-01 gives one window ending 2024-01-31 23:59:59, not `latest` |
| Partition.OtherTagGoesBackToMidnight | cxe2stix_helper.py:49-63 | for a tag other than d, m, y, when the start's time of day plus `num` seconds stays within the day, the next cursor is midnight of the window's own start day (except on 0001-01-01, where line 62 raises `OverflowError`) |
| Partition.UppercaseMonthNeverAdvances | cxe2stix_helper.py:42-67 | `1M` is accepted, its tag is `M`, and from 2024-01-01 00:00:00 the window ends a second before the cursor and, for every later `latest`, the clamped end returns the cursor to the same instant |
| Naming.KindRoundTrip | cxe2stix_helper.py:138 | the job kind prefix (`cve` here, `cpe` at line 159) has three letters and reads back |
| Naming.FieldsRoundTrip | cxe2stix_helper.py:127 | `%Y_%m_%d` / `%H_%M_%S` fields have fixed width and read back |
| Naming.ReadFieldsIsInverse | cxe2stix_helper.py:127 | every text the field reader accepts is the printed form of its result |
| Naming.StampRoundTrip | cxe2stix_helper.py:127 | a `%Y_%m_%d-%H_%M_%S` stamp is 19 characters and reads back to the timestamp |
| Naming.ReadStampIsInverse | cxe2stix_helper.py:127 | every text the stamp reader accepts is the stamp of what it reads |
| Naming.StampInjective | cxe2stix_helper.py:127 | distinct timestamps have distinct stamps |
| Naming.StampPairRoundTrip | cxe2stix_helper.py:138 | `<lo>-<hi>` is 39 characters and reads back to both bounds |
| Naming.ReadStampPairIsInverse | cxe2stix_helper.py:138 | every text the pair reader accepts is the pair of what it reads |
| Naming.SubDirContents | cxe2stix_helper.py:128-135 | the sub-directory is the start's `%Y` for `m`, `%Y-%m` for `d` and `.` otherwise, and never contains `/` |
| Naming.ObjectsDirNameRoundTrip | cxe2stix_helper.py:138 | `<kind>_objects-<lo>-<hi>` (line 159 for cpe) reads back to the kind and both bounds |
| Naming.ReadObjectsDirNameIsInverse | cxe2stix_helper.py:138 | every name the reader accepts is the objects directory of what it reads |
| Naming.BundleFileRoundTrip | cxe2stix_helper.py:141 | `<kind>-bundle-<lo>-<hi>.json` is 55 characters and reads back |
| Naming.BundleDirParts | cxe2stix_helper.py:141 | `<kind>/<subdir>/` has the kind, the sub-directory and the two slashes where the reader looks |
| Naming.BundleNameRoundTrip | cxe2stix_helper.py:141 | a bundle path (line 162 for cpe) reads back to its kind, bounds and sub-directory |
| Naming.PartitionStampable | cxe2stix_helper.py:125-127 | from a start in year 1000 or later every window bound can be stamped |
| Naming.NamesDistinct | cxe2stix_helper.py:125-162 | no two windows of a run, and no two job kinds, share an objects directory or a bundle path |
| Naming.PadExamples | cxe2stix_helper.py:127 | `%Y` of 2024 is `2024`; two-digit fields pad with `0` |
| Naming.FieldsExamples | cxe2stix_helper.py:127 | the date and time fields of 2024-01-01 00:00:00 and 2024-01-31 23:59:59 |
| Naming.StampExamples | cxe2stix_helper.py:127 | the stamps of 2024-01-01 00:00:00 and 2024-01-31 23:59:59 |
| Naming.ObjectsDirNameExample | cxe2stix_helper.py:138 | the cve objects directory of the first January 2024 month window |
| Naming.BundleNameExample | cxe2stix_helper.py:162 | the cpe bundle path of that window, under `2024` |

## Left out

- `main`'s orchestration is not modelled: the Celery worker start and kill
  (`start_celery`, subprocess, `kill`), task submission and waiting, and the filesystem
  effects (`rmtree`, `mkdir`). These are I/O and foreign calls.
- The environment variables and the `isdigit` checks of the page-size settings are not
  modelled: they are process environment.
- `valid_date`, `parse_args` and the `latest < earliest` check are not modelled. This is
  argparse plumbing; its result comes in as the `DateTime` parameters.
- The `%Y-%m-%dT%H:%M:%S` config strings passed to the converters are not modelled. They
  are arguments to foreign code.
- The `cve2stix` and `cpe2stix` modules are not part of this model.
- Unicode classes are not modelled: `\d` and `\w` are ASCII here. Python's `re` also
  matches other Unicode digits and letters, and `int()` reads Unicode digits.
- `str.lower` is modelled on ASCII letters only.
- Partition.Partition: requires `latest.year + num <= 9999`, for every unit. That is
  enough to rule out `OverflowError`, but it counts every unit as if it were a year, so
  it also excludes large day and month counts that the source runs to completion, such
  as `8000d` or `9000m` with `latest` in 2024. The same bound is on
  `Partition.GetTimeRanges`, `Partition.GetTimeRangesIgnoringCase`,
  `Partition.AdvanceAdvances`, `Partition.WindowEndInRange` and
  `Partition.OtherTagGoesBackToMidnight`.
- Partition.NextWindowBounded: carries the same year bound `latest.year + num <= 9999`.
  It is therefore not proved for the large day and month counts the source completes.
- Partition.DayWindowEnd: requires `lo.year + num <= 9999`. The end of a day window is
  not proved for day counts above that bound, which the source handles. An example is
  `20000d` from 2024-01-01, whose first window ends on day D + 19999.
- Partition.DayWindowEndFromMidnight: has the same bound, so exact `num`-day alignment
  from midnight is proved only for `num <= 9999 - lo.year`. The source keeps that
  alignment for every count below 86400.
- Partition.GetTimeRanges: requires a lowercase unit letter. With an uppercase one and
  a count below 86400 the loop never ends once the cursor is at a midnight before
  `latest`, except on 0001-01-01, where line 62 raises `OverflowError` (see Findings).
  The runs with an uppercase unit that do end are not modelled.
- Naming.Stampable: stamps are modelled for years 1000 and later only. How `strftime`
  pads `%Y` below 1000 depends on the C library.
- The objects and bundle names are modelled as the relative strings that `main` formats.
  The joining to the absolute `./output/objects` and `./output/bundles` paths is not
  modelled.

## Findings

| source | as written | input that shows it | evidently intended | confidence | as-written member | corrected member |
|---|---|---|---|---|---|---|
| cxe2stix_helper.py:32, 49 | `parse_time_range` lowercases the unit before checking it, but `get_time_ranges` takes `unit[0]` as it is, so `M`, `D` and `Y` match none of the three branches; with a count below 86400 each pass only adds a second, so a window that starts at midnight ends a second before it and the cursor returns to it, and once the cursor is at a midnight before `latest` the `while` loop never ends (except on 0001-01-01, where line 62 raises `OverflowError`; with a count of 86400 or more the cursor moves on and the loop can end) | `--file_time_range 1M`, earliest 2024-01-01T00:00:00, latest 2024-02-01T00:00:00 | the unit lowercased in `get_time_ranges` too, so `1M` partitions by months | not executed | Partition.UppercaseMonthNeverAdvances | Partition.GetTimeRangesIgnoringCase |
