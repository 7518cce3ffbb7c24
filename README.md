# SystemMonitor network core in Dafny

SystemMonitor is a Windows tray application that records how many bytes the
machine's network interfaces have sent and received. This project models the
logic beneath its user interface:

- **Sampling.** A loop reads the interface counters. It files each reading
  under the minute ceiling of its time (a time already on a whole minute keeps
  it), in a dictionary of `Log` records (time, bytes received, bytes sent).
- **Counters.** A running difference turns cumulative counters into per-interval
  deltas. A bounded queue keeps the last few inputs for a moving average.
- **Queries.** The details forms filter the records from a cut-off time for a
  chosen range (last hour, today, last 24 hours, this week, and so on). They
  group the records into fixed-width time buckets and sum each bucket.
- **Alert.** The tray alert sums the records of the current hour, day or month.
- **Settings.** A colour, a window location, a window size and an enum value are
  stored as text by hand-written converters. Each converter pairs a writer with
  a regular-expression reader.

Times are tick counts (100 ns units), as in .NET `DateTime`. `DateTime.Now`,
`DateTime.Today`, the start of the week and the start of the month are inputs,
bundled in `Ranges.Clock`. The interface statistics are an input sequence.
Unchecked `long` arithmetic (`+=`, `-`) wraps modulo 2^64 (`Int64.Wrap`). A .NET
exception becomes `None` or an `Err` value.

Modules, one per file:

- `DateTimes`: ticks, rounding to an interval.
- `Int64`: 64-bit wrap-around.
- `Logs`: the record and counter sums.
- `Units`: byte units.
- `RunningDiffs` and `ConsoleRunningDiff`: the two running-difference classes.
- `SmaQueue`: the moving-average queue.
- `Monitor`: the sampling step and the interface sum.
- `LogQueries`: filtering, grouping and bucket sums.
- `Ranges`: the range enum and the clock.
- `DetailsForms`: both `DetailsForm.cs` files, whose query logic is identical.
- `TrayDetails`: the tray's details window.
- `TrayAlert`: the alert window selection.
- `Decimal`: decimal text.
- `Patterns`: the regular expressions as explicit matchers.
- `SettingsConverters`: colour, point and size converters.
- `EnumConverters`: the enum converter.
- `Wrappers`: `Option` and `Result`.

## Model

| member | source | states |
|---|---|---|
| DateTimes.RoundDown | Networking/DateTimeExtensions.cs:10-13 | keeps the Kind; the result is a multiple of the interval, at or before the input and less than one interval before it |
| DateTimes.Ceiling | Networking/DateTimeExtensions.cs:7 | the tick count RoundUp computes is a multiple of the interval, at or after the input and less than one interval after it |
| DateTimes.RoundUp | Networking/DateTimeExtensions.cs:5-8 | fails exactly when the ceiling passes DateTime.MaxValue (the constructor throws); otherwise keeps the Kind and returns the ceiling |
| DateTimes.RoundDownIsGreatest | Networking/DateTimeExtensions.cs:12 | every multiple of the interval at or before the input is at or before RoundDown: it is the floor |
| DateTimes.CeilingIsLeast | Networking/DateTimeExtensions.cs:7 | every multiple of the interval at or after the input is at or after the ceiling |
| DateTimes.RoundUpFailsOnlyPastMaxValue | Networking/DateTimeExtensions.cs:7 | RoundUp fails if and only if no multiple of the interval lies between the input and DateTime.MaxValue |
| DateTimes.AlignedIsFixed | Networking/DateTimeExtensions.cs:5-13 | an input that is already a multiple is returned unchanged by both roundings |
| DateTimes.RoundDownIsIdempotent | Networking/DateTimeExtensions.cs:10-13 | rounding a rounded-down value down again changes nothing, for every positive interval |
| DateTimes.RoundUpIsIdempotent | Networking/DateTimeExtensions.cs:5-8 | a rounded-up value has room to be rounded up again without overflow, and rounding it up again changes nothing |
| DateTimes.CeilingMinusFloor | Networking/DateTimeExtensions.cs:7-12 | ceiling minus floor is 0 on aligned inputs and exactly one interval otherwise |
| Int64.Wrap | Networking/RunningDiff.cs:11 | unchecked long arithmetic: the identity on longs, congruent to the input modulo 2^64 |
| Int64.WrapAdd | Networking/NetworkMonitor.cs:25-26 | wrapping after every += gives the same long as wrapping the exact sum once |
| Units.Bytes | Networking/Unit.cs:3-11 | each unit's value is 1024 to the power of its position |
| Units.AllUnits | Networking/Unit.cs:3-11 | the six units in declaration order, each at its own position |
| Units.UnitsIncrease | Networking/Unit.cs:5-10 | a later unit is strictly larger than an earlier one: B < KB < MB < GB < TB < PB |
| Units.UnitValues | Networking/Unit.cs:3-10 | B is 1, GB is 2^30, PB is 2^50, and PB fits the long base type |
| Units.PowerOfTwo | Networking/Unit.cs:6-10 | 1024^k equals 2^(10k): each unit is 1024 times the previous, a power of two |
| Logs.SumTotalSplits | Networking/Log.cs:6-11 | the BytesTotal sum of a set of records is the received sum plus the sent sum |
| Logs.SumAppend | SystemMonitor/DetailsForm.cs:231 | counter sums add up over concatenated record lists |
| Logs.Sum | SystemMonitor/DetailsForm.cs:278-279 | LINQ Sum over a selector: 0 for no records; SumAppend and SumNonNegative give its additivity and sign |
| Logs.SumNonNegative | SystemMonitor/DetailsForm.cs:278-279 | a sum of non-negative counts is never negative |
| RunningDiffs.Diff | Networking/RunningDiff.cs:9-11 | 0 while the sentinel long.MinValue is stored; otherwise the difference from the stored reading |
| RunningDiffs.Diffs | Networking/RunningDiff.cs:7-16 | one difference per reading fed in order to a fresh instance |
| RunningDiffs.FirstDiffIsZero | Networking/RunningDiff.cs:9-11 | the first call returns 0 |
| RunningDiffs.DecreaseIsNegative | Networking/RunningDiff.cs:11 | a reading below the previous one yields a negative difference: no clamping, no reset handling |
| RunningDiffs.DiffsTelescope | Networking/RunningDiff.cs:7-16 | for non-negative readings the differences sum to the last reading minus the first |
| RunningDiffs.RunningDiff.Next | Networking/RunningDiff.cs:7-16 | returns Diff of the old Value and the reading; afterwards Value is the reading; the result extends Diffs of all readings so far |
| ConsoleRunningDiff.RunningDiff.Next | SystemMonitorConsole/NetworkMonitor/RunningDiff.cs:7-16 | as RunningDiffs.RunningDiff.Next, with the stored reading in Previous |
| SmaQueue.Window | SystemMonitorConsole/NetworkMonitor/Sma.cs:14-15 | the last min(n, Periods) inputs in arrival order, as a suffix of the history |
| SmaQueue.WindowLength | SystemMonitorConsole/NetworkMonitor/Sma.cs:15 | the number of inputs kept is min(n, Periods), or 0 for Periods <= 0 |
| SmaQueue.WindowStep | SystemMonitorConsole/NetworkMonitor/Sma.cs:14-15 | the window after one more input depends only on the previous window and that input |
| SmaQueue.Sma.Next | SystemMonitorConsole/NetworkMonitor/Sma.cs:12-18 | the queue becomes the window of the whole history, at most Periods long; with negative Periods the call fails (Dequeue on an empty queue) |
| Monitor.Accumulate | Networking/NetworkMonitor.cs:23-27 | the entry keeps its Time, and its received and sent counters grow by the reading's (unchecked) |
| Monitor.Reading | Networking/NetworkMonitor.cs:39-53 | the record GetLog builds: the given time and the interfaces' counter sums, exact when they fit a long and otherwise congruent modulo 2^64; zero for no interfaces |
| Monitor.Upsert | Networking/NetworkMonitor.cs:20-31 | gains only the window key; a new key maps to the reading; an existing entry accumulates the reading; other keys are untouched |
| Monitor.UpsertAddsAtMostOneKey | Networking/NetworkMonitor.cs:20-31 | one iteration adds exactly one key when the window is new and none otherwise |
| Monitor.UpsertAllSums | Networking/NetworkMonitor.cs:25-26 | k iterations in a new window leave one record with the first reading's time and the sums of all k readings; other keys are untouched |
| Monitor.NetworkMonitor.GetLog | Networking/NetworkMonitor.cs:39-53 | the record has the given Time and the sums over all interfaces; with no interfaces both counters are 0 |
| Monitor.NetworkMonitor.Step | Networking/NetworkMonitor.cs:14-31 | the window is the minute ceiling of now, at or after now and under a minute later; the map becomes Upsert of the reading; every key stays a whole minute equal to its record's Time |
| LogQueries.Since | SystemMonitor/DetailsForm.cs:273 | `Where(log => log.Time >= earliest)`: no longer than the input, and every kept record is at or after the cut-off |
| LogQueries.SinceKeeps | SystemMonitor/DetailsForm.cs:273 | a record is kept if and only if it is in the input and its time is at or after the cut-off |
| LogQueries.After | SystemMonitor/Tray.cs:108 | `Where(log => log.Time > today)`: no longer than the input, and every kept record is strictly after the cut-off |
| LogQueries.AfterKeeps | SystemMonitor/Tray.cs:108 | a record is kept if and only if it is in the input and its time is strictly after the cut-off |
| LogQueries.SinceMinValueKeepsAll | SystemMonitor/DetailsForm.cs:296 | the cut-off DateTime.MinValue keeps every record, in order |
| LogQueries.MembersHaveKey | SystemMonitor/DetailsForm.cs:274 | a record is in a group if and only if it is in the input and its ticks / size equals the group's key |
| LogQueries.Keys | SystemMonitor/DetailsForm.cs:274 | the group keys, without repeats, no more of them than records |
| LogQueries.KeysOfRecords | SystemMonitor/DetailsForm.cs:274 | a key is listed if and only if some record has it |
| LogQueries.RecordKeyIsAKey | SystemMonitor/DetailsForm.cs:274 | every record's key is listed |
| LogQueries.Buckets | SystemMonitor/DetailsForm.cs:275-280 | one bucket record per key, in key order |
| LogQueries.GroupAndSum | SystemMonitor/DetailsForm.cs:274-280 | one output record per distinct key, never more than the input |
| LogQueries.BucketIndex | SystemMonitor/DetailsForm.cs:274 | each record lands in an output bucket whose key is its own |
| LogQueries.SameBucketIffSameKey | SystemMonitor/DetailsForm.cs:274 | two records share an output bucket if and only if their ticks / size are equal |
| LogQueries.FirstIndex | SystemMonitor/DetailsForm.cs:277 | the first record with a key, which is the first member of its group |
| LogQueries.KeysInFirstOccurrenceOrder | SystemMonitor/DetailsForm.cs:274 | GroupBy's order: groups come in the order of their first records |
| LogQueries.FirstTimesIncrease | SystemMonitor/DetailsForm.cs:272-274 | on time-ordered input the groups' first records have strictly increasing times |
| LogQueries.SortedInSortedOut | SystemMonitor/DetailsForm.cs:268-283 | time-ordered records give bucket records in strictly increasing time order |
| LogQueries.BucketIsFirstTimeAndSums | SystemMonitor/DetailsForm.cs:275-280 | each output record has the Time of its group's first record and the received and sent sums of the group |
| LogQueries.GroupAndSumPreservesTotals | SystemMonitor/DetailsForm.cs:231 | bucketing preserves the received, sent and total sums |
| Ranges.AddTicks | SystemMonitor/DetailsForm.cs:289 | DateTime.AddHours/AddDays: fails outside the DateTime range, otherwise moves by exactly the offset and keeps the Kind |
| DetailsForms.Lookback | SystemMonitor/DetailsForm.cs:289-295 | exactly Hour, Hours24, Days7 and Days30 reach back from now, by between one hour and thirty days |
| DetailsForms.GetLogParameters | SystemMonitor/DetailsForm.cs:285-299 | fails exactly for an unnamed range or a lookback reaching before year 1; bucket widths are whole minutes of at most a day |
| DetailsForms.RelativeRangeKeepsRecent | SystemMonitor/DetailsForm.cs:289-295 | Hour, Hours24, Days7 and Days30 keep a time if and only if it is no more than 1 h, 24 h, 7 d or 30 d before now |
| DetailsForms.CalendarRangeStarts | SystemMonitor/DetailsForm.cs:290-296 | Day starts today, Week at the week start, Month at the month start, All at DateTime.MinValue |
| DetailsForms.GetLogs | SystemMonitor/DetailsForm.cs:268-283 | succeeds exactly when the parameters do; no more records than the input |
| DetailsForms.GetLogsTotals | SystemMonitorTray/DetailsForm.cs:232 | the totals shown are the sums over the records at or after the cut-off |
| DetailsForms.AllTotals | SystemMonitorTray/DetailsForm.cs:299 | for All the totals are those of every record |
| DetailsForms.GetLogsRecordsInRange | SystemMonitorTray/DetailsForm.cs:271-286 | every output record's time is at or after the cut-off and is the time of some input record |
| DetailsForms.DivisorOf | SystemMonitorTray/DetailsForm.cs:243-252 | the label arm chosen for each interval of bucket widths, with the hour and minute counts of the middle arms |
| DetailsForms.DivisorText | SystemMonitor/DetailsForm.cs:245-251 | the label text of each arm is non-empty; LabelsDetermineDivisor shows the labels are distinct |
| DetailsForms.LabelsDetermineDivisor | SystemMonitor/DetailsForm.cs:245-251 | two divisors with natural counts that print the same label are equal: the label names the arm and its count |
| DetailsForms.DivisorPerRange | SystemMonitor/DetailsForm.cs:242-251 | the label is "minute" for Hour, "hour" for Day, Hours24, Week and Days7, "day" for Month, Days30 and All |
| TrayDetails.Recent | SystemMonitorTray/Details.cs:237 | the filter throws exactly when there is a record and the lookback reaches before year 1; otherwise it keeps the records at or after now minus the lookback |
| TrayDetails.GetLogRange | SystemMonitorTray/Details.cs:235-295 | fails for an unnamed range, and for a lookback before year 1 only when there is a record, since the cut-off is computed inside the filter; with no records it is empty; Hour returns the records of the last hour unbucketed |
| TrayDetails.TrayWindow | SystemMonitorTray/Details.cs:235-293 | wherever the details form's parameters exist, the tray shows the same kept records grouped by its own bucket length, or ungrouped for Hour |
| TrayDetails.SameTotalsAsDetailsForm | SystemMonitorTray/Details.cs:237-293 | wherever the details form succeeds, and despite its different bucket widths (15 min, 1 h, 8 h, 1 d) the window has the same totals as the details form for every range |
| TrayDetails.SameRecordsAsDetailsForm | SystemMonitorTray/Details.cs:254-293 | for Week, Days7 and All the window shows exactly the details form's records |
| TrayAlert.AlertLogs | SystemMonitor/Tray.cs:105-111 | defined for Hour, Day and Month only; other ranges throw |
| TrayAlert.UpdateNetworkData | SystemMonitor/Tray.cs:92-115 | a zero limit gives no alert before any filtering; otherwise the alert is the BytesTotal sum of the kept records, with the unit and the limit |
| TrayAlert.HourAlertCountsThisHour | SystemMonitor/Tray.cs:107 | Hour keeps exactly the records from the start of the current hour, which is a whole hour at most one hour before now |
| TrayAlert.DayAlertExcludesMidnight | SystemMonitor/Tray.cs:108 | Day keeps exactly the records strictly after today's midnight |
| TrayAlert.DayAlertVersusDetails | SystemMonitor/Tray.cs:108 | the alert's day sum falls short of the details form's day sum by the records stamped exactly at midnight |
| Decimal.FormatNat | SystemMonitor/Settings.cs:101 | the decimal text is digits only, without leading zeros |
| Decimal.FormatInt | SystemMonitor/Settings.cs:121 | a non-negative value is digits; a negative one is '-' then digits |
| Decimal.ParseFormat | SystemMonitor/Settings.cs:93-96 | reading back the decimal text of a natural number gives the number |
| Patterns.DigitRun | SystemMonitor/Settings.cs:90 | \d+ takes the longest digit run |
| Patterns.Token | SystemMonitor/Settings.cs:90 | a literal matches exactly when the text starts with it |
| Patterns.Number | SystemMonitor/Settings.cs:112 | a matched number is a numeral (signed only when allowed) and is not followed by a digit |
| Patterns.MatchColor | SystemMonitor/Settings.cs:90 | a match yields four unsigned numerals A, R, G, B |
| Patterns.MatchPair | SystemMonitor/Settings.cs:112 | a match yields two numerals |
| Patterns.MatchAt | SystemMonitor/Settings.cs:90 | a match needs '{' at the start and yields the groups of its pattern |
| Patterns.Search | SystemMonitor/Settings.cs:90 | Regex.Match: the leftmost match yields the groups of its pattern |
| Patterns.MatchColorText | SystemMonitor/Settings.cs:90-101 | the colour writer's text matches the colour regex, whatever text follows it, with its four numbers as groups |
| Patterns.MatchPairText | SystemMonitor/Settings.cs:112-141 | the point and size writers' text matches, whatever text follows it, with both numbers as groups |
| Patterns.MatchPairTextRejectsSign | SystemMonitor/Settings.cs:112 | with unsigned groups, a text holding a negative number does not match |
| Patterns.NoBraceNoMatch | SystemMonitor/Settings.cs:90 | text without '{' never matches |
| Patterns.SearchSkipsPrefix | SystemMonitor/Settings.cs:90 | text before the '{' is ignored: the search is unanchored |
| Patterns.SearchFindsAfter | SystemMonitor/Settings.cs:90-132 | an anchored match after a prefix without '{' is what Regex.Match finds |
| SettingsConverters.ParseInt | SystemMonitor/Settings.cs:93-96 | int.Parse: the value of the numeral, or OverflowError outside the int range |
| SettingsConverters.ColorWrite | SystemMonitor/Settings.cs:99-102 | the text `{A=a, R=r, G=g, B=b}` with each component in decimal; ColorRoundTrip reads it back |
| SettingsConverters.ColorRead | SystemMonitor/Settings.cs:85-97 | the reader fails with FormatError exactly when the regex finds no match |
| SettingsConverters.ColorReadText | SystemMonitor/Settings.cs:90-96 | for any four numbers in the writer's shape: OverflowError past the int range, otherwise ArgumentError past 255, otherwise the colour |
| SettingsConverters.ColorRoundTrip | SystemMonitor/Settings.cs:90-101 | reading the written colour, after any text without '{' and before any text, gives the colour back |
| SettingsConverters.ColorNeedsSpaceBeforeB | SystemMonitor/Settings.cs:90 | the form ",B=" without a space does not match: FormatError |
| SettingsConverters.PointWrite | SystemMonitor/Settings.cs:119-122 | Point.ToString: the text `{X=x,Y=y}` with each coordinate in decimal, a minus sign for negatives |
| SettingsConverters.SizeWrite | SystemMonitor/Settings.cs:139-142 | Size.ToString: the text `{Width=w, Height=h}` with each component in decimal |
| SettingsConverters.PairRead | SystemMonitor/Settings.cs:107-117 | FormatError exactly when the regex finds no match; otherwise the two groups' values, or OverflowError when one does not fit an int |
| SettingsConverters.PointRead | SystemMonitor/Settings.cs:107-117 | FormatError exactly when the point regex finds no match |
| SettingsConverters.SizeRead | SystemMonitor/Settings.cs:127-137 | FormatError exactly when the size regex finds no match |
| SettingsConverters.PairRoundTrip | SystemMonitor/Settings.cs:112-121 | a point or size written with non-negative components (or with a signed pattern) reads back, after any text without '{' and before any text |
| SettingsConverters.PairRejectsNegative | SystemMonitor/Settings.cs:112-116 | with the unsigned pattern a negative component gives FormatError |
| SettingsConverters.PointRoundTripAsWritten | SystemMonitor/Settings.cs:112-121 | a point reads back if and only if both coordinates are non-negative; otherwise FormatError |
| SettingsConverters.SizeRoundTrip | SystemMonitor/Settings.cs:132-141 | a size reads back if and only if both components are non-negative |
| SettingsConverters.PointReadSigned | SystemMonitor/Settings.cs:112 | the corrected reader fails with FormatError exactly when its regex finds no match |
| SettingsConverters.PointRoundTripSigned | SystemMonitor/Settings.cs:112-121 | with the corrected regex every point reads back, after any text without '{' and before any text |
| EnumConverters.NameOf | SystemMonitor/Settings.cs:157 | a name exists exactly when some member has the value, and the name found belongs to such a member |
| EnumConverters.ValueOf | SystemMonitor/Settings.cs:152 | a value exists exactly when some member has the name, and the value found belongs to such a member |
| EnumConverters.EnumWrite | SystemMonitor/Settings.cs:155-158 | ToString: the member's name, or the decimal value when no member has it |
| EnumConverters.EnumRead | SystemMonitor/Settings.cs:147-153 | Enum.Parse: a name reads as its member's value and an unknown name fails; only numeric text can overflow |
| EnumConverters.NameIsUnique | SystemMonitor/Settings.cs:152-157 | in a well-formed enum, name and value determine each other |
| EnumConverters.EnumRoundTrip | SystemMonitor/Settings.cs:152-157 | every value in the underlying range reads back after writing, named or not |
| EnumConverters.NameRoundTrip | SystemMonitor/Settings.cs:152-157 | every member reads back by name, and writes as its name |
| EnumConverters.UnitEnumWellFormed | Networking/Unit.cs:3-11 | the Unit enum has distinct names and values, which fit its long base type |
| EnumConverters.UnitSettings | SystemMonitor/Settings.cs:152-157 | every byte unit is written as its name and read back as its value |

## Left out

- The user interface is not modelled. This covers charts, labels, icons, forms, menus and sounds, including the bodies of UpdateChart, UpdateTotals and UpdateIcon.
- The icon's percentage value is not modelled. The alert is modelled up to the byte sum, unit and limit handed to it.
- Settings load and save, JSON serialisation and string escaping, the registry and the program entry points are I/O, and are left out.
- The infinite Run loop, Task.Delay, the OnUpdate event and ConcurrentDictionary concurrency are left out. One iteration is modelled as `Monitor.NetworkMonitor.Step`.
- DateTime.Now and DateTime.Today are inputs (`Ranges.Clock`), read once per operation. The source reads the clock once per record in the tray's filters, so a clock that moves during one query is not modelled. The exception those filters raise is modelled as deferred: it happens only when there is a record to test (TrayDetails.Recent).
- StartOfWeek and StartOfMonth are inputs. Their definitions are not part of this model.
- The interface statistics are an input sequence.
- Uptime.cs, Delay.cs, Constants.cs, Ema.cs and RunningAverage.cs are left out, as are the console monitor's Status.
- Floating point is not modelled: the moving average and its NaN on an empty queue, the console RunningDiff's double result, and every division by a unit.
- ConsoleRunningDiff.RunningDiff.Next returns the long difference, not its conversion to double.
- Log objects are values. The in-place `+=` on a dictionary entry replaces the entry, so aliasing of shared Log objects is not modelled.
- Logs.Sum: the checked `long` overflow of LINQ Sum is not modelled; sums are exact integers. This concerns the bucket sums of LogQueries.GroupAndSum, the totals behind DetailsForms.GetLogsTotals (SystemMonitor/DetailsForm.cs:231) and the BytesTotal sum of TrayAlert.UpdateNetworkData (SystemMonitor/Tray.cs:113).
- DateTimes.RoundUp and DateTimes.RoundDown require a positive interval. RoundUp also requires that `dt.Ticks + d.Ticks - 1` does not overflow a long, so the unchecked wrap-around of that sum is not modelled. The only caller passes one minute.
- Logs.BytesTotal is taken to be BytesReceived + BytesSent. Networking/Log.cs declares no BytesTotal, and TrayAlert.UpdateNetworkData and Logs.SumTotalSplits rely on this definition.
- Regular-expression `\d` and `\s` are taken as ASCII digits and ASCII whitespace. .NET also accepts other Unicode digits and spaces.
- EnumConverters.EnumRead does not model these Enum.Parse features: leading and trailing whitespace, comma-separated flag lists, or case options. Enum names are assumed not to start with a digit or a sign, as C# identifiers never do.
- SettingsConverters.ColorRead compares colours by their four components. .NET Color equality also compares the known-colour name.
- The enum name parsing of stored alert settings is left out. TrayAlert.UpdateNetworkData takes the unit and range as parsed values.
- The Range enum's declaration and ordering are not part of this model. Unnamed values are `Ranges.Range.Unnamed`, and the `selectedRange < Range.Week` label format is left out.
- Patterns.MatchPairText is proved for the two separators that Point and Size write: none, and one space. It is not proved for every whitespace run.
- Log persistence, retention, gap filling and counter-reset handling are left out. None of these appears in the sampling code.

## Findings

| source | as written | input that shows it | evidently intended | confidence | as-written member | corrected member |
|---|---|---|---|---|---|---|
| SystemMonitor/Settings.cs:112,121 | PointConverter writes Point.ToString(), which prints negative coordinates with a minus sign. Its reader's pattern accepts only `\d+`, so the match fails and int.Parse throws on an empty group. | Point(-8, 0), the saved location of a window on a monitor left of the primary one (saved by SystemMonitor/DetailsForm.cs:53) | a signed pattern `-?\d+`, so that every written point reads back | not executed | SettingsConverters.PointRoundTripAsWritten | SettingsConverters.PointRoundTripSigned |
