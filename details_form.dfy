/** `GetLogParameters`, `GetLogs` and the axis-label switch of `UpdateChart`,
    written identically in SystemMonitor/DetailsForm.cs and
    SystemMonitorTray/DetailsForm.cs. */
module DetailsForms {
  import opened Wrappers
  import opened DateTimes
  import opened Logs
  import opened LogQueries
  import opened Ranges
  import opened Decimal

  /** The `(Earliest, Size)` tuple: the cutoff and the bucket length in ticks. */
  datatype Parameters = Parameters(Earliest: DateTime, Size: int)

  /** How far back from Now a relative range reaches; None for the ranges
      anchored at a calendar point or at MinValue. */
  function Lookback(range: Range): (r: Option<int>)
    ensures r.Some? <==> range == Hour || range == Hours24 || range == Days7 || range == Days30
    ensures r.Some? ==> TicksPerHour <= r.value <= 30 * TicksPerDay
  {
    match range
    case Hour => Some(TicksPerHour)
    case Hours24 => Some(24 * TicksPerHour)
    case Days7 => Some(7 * TicksPerDay)
    case Days30 => Some(30 * TicksPerDay)
    case _ => None
  }

  /** The parameter switch. None models ArgumentOutOfRangeException: thrown
      by the `_` arm, or by AddHours/AddDays when Now is too close to MinValue. */
  function GetLogParameters(range: Range, clock: Clock): (r: Option<Parameters>)
    ensures r.Some? ==> 0 < r.value.Size <= TicksPerDay && r.value.Size % TicksPerMinute == 0
    ensures r.None? <==> range.Unnamed? || (Lookback(range).Some? && clock.Now.Ticks < Lookback(range).value)
  {
    match range
    case Hour =>
      var e :- AddTicks(clock.Now, -TicksPerHour);
      Some(Parameters(e, TicksPerMinute))
    case Day => Some(Parameters(clock.Today, 60 * TicksPerMinute))
    case Hours24 =>
      var e :- AddTicks(clock.Now, -24 * TicksPerHour);
      Some(Parameters(e, 60 * TicksPerMinute))
    case Week => Some(Parameters(clock.StartOfWeek, TicksPerHour))
    case Days7 =>
      var e :- AddTicks(clock.Now, -7 * TicksPerDay);
      Some(Parameters(e, TicksPerHour))
    case Month => Some(Parameters(clock.StartOfMonth, 24 * TicksPerHour))
    case Days30 =>
      var e :- AddTicks(clock.Now, -30 * TicksPerDay);
      Some(Parameters(e, 24 * TicksPerHour))
    case All => Some(Parameters(MinValue, TicksPerDay))
    case Unnamed(_) => None
  }

  /** A relative range keeps a record exactly when it is at most the range's
      length older than Now (records from the future are kept too). */
  lemma RelativeRangeKeepsRecent(range: Range, clock: Clock, t: DateTime)
    requires Lookback(range).Some? && GetLogParameters(range, clock).Some?
    ensures GetLogParameters(range, clock).value.Earliest.Kind == clock.Now.Kind
    ensures t.Ticks >= GetLogParameters(range, clock).value.Earliest.Ticks
        <==> clock.Now.Ticks - t.Ticks <= Lookback(range).value
  {
  }

  /** The calendar ranges start at the calendar point they are named after,
      and All starts at MinValue. */
  lemma CalendarRangeStarts(range: Range, clock: Clock)
    requires Lookback(range).None? && !range.Unnamed?
    ensures GetLogParameters(range, clock).Some?
    ensures GetLogParameters(range, clock).value.Earliest
         == match range
            case Day => clock.Today
            case Week => clock.StartOfWeek
            case Month => clock.StartOfMonth
            case _ => MinValue
  {
  }

  /** The query. None: the parameter switch threw. */
  function GetLogs(range: Range, clock: Clock, logs: seq<Log>): (r: Option<seq<Log>>)
    ensures r.Some? <==> GetLogParameters(range, clock).Some?
    ensures r.Some? ==> |r.value| <= |logs|
  {
    var p :- GetLogParameters(range, clock);
    Some(GroupAndSum(Since(logs, p.Earliest.Ticks), p.Size))
  }

  /** The totals `UpdateTotals` shows: grouping does not change the received,
      sent or total bytes of the records at or after the cutoff. */
  lemma GetLogsTotals(range: Range, clock: Clock, logs: seq<Log>, c: Counter)
    requires GetLogParameters(range, clock).Some?
    ensures Sum(GetLogs(range, clock, logs).value, c)
         == Sum(Since(logs, GetLogParameters(range, clock).value.Earliest.Ticks), c)
  {
    var p := GetLogParameters(range, clock).value;
    GroupAndSumPreservesTotals(Since(logs, p.Earliest.Ticks), p.Size);
  }

  /** The All range shows the totals of every record. */
  lemma AllTotals(clock: Clock, logs: seq<Log>, c: Counter)
    ensures Sum(GetLogs(All, clock, logs).value, c) == Sum(logs, c)
  {
    GetLogsTotals(All, clock, logs, c);
    SinceMinValueKeepsAll(logs);
  }

  /** Every output record is a bucket of records at or after the cutoff: its
      Time is that of the bucket's first record, which is an input record at
      or after the cutoff, and its counters sum that bucket. */
  lemma GetLogsRecordsInRange(range: Range, clock: Clock, logs: seq<Log>, b: int)
    requires GetLogParameters(range, clock).Some?
    requires 0 <= b < |GetLogs(range, clock, logs).value|
    ensures var p := GetLogParameters(range, clock).value;
      var out := GetLogs(range, clock, logs).value[b];
      && out.Time.Ticks >= p.Earliest.Ticks
      && exists x :: x in logs && x.Time == out.Time
  {
    var p := GetLogParameters(range, clock).value;
    var kept := Since(logs, p.Earliest.Ticks);
    BucketIsFirstTimeAndSums(kept, p.Size, b);
    var k := Keys(kept, p.Size)[b];
    var j := FirstIndex(kept, p.Size, k);
    SinceKeeps(logs, p.Earliest.Ticks, kept[j]);
  }

  // ----- the axis label -----

  /** The value of the `size.Ticks switch` that names one bucket. */
  datatype Divisor = PerWeek | PerDay | PerHours(count: int) | PerHour | PerMinutes(count: int) | PerMinute

  /** The switch arms in order; `size.Hours` and `size.Minutes` are the hour
      and minute components of the TimeSpan. */
  function DivisorOf(size: int): (d: Divisor)
    ensures d.PerWeek? <==> size >= 7 * TicksPerDay
    ensures d.PerDay? <==> TicksPerDay <= size < 7 * TicksPerDay
    ensures d.PerHours? <==> TicksPerHour < size < TicksPerDay
    ensures d.PerHour? <==> size == TicksPerHour
    ensures d.PerMinutes? <==> TicksPerMinute < size < TicksPerHour
    ensures d.PerMinute? <==> size <= TicksPerMinute
    ensures d.PerHours? ==> 1 <= d.count < 24 && d.count * TicksPerHour <= size < (d.count + 1) * TicksPerHour
    ensures d.PerMinutes? ==> 1 <= d.count < 60 && d.count * TicksPerMinute <= size < (d.count + 1) * TicksPerMinute
  {
    if size >= 7 * TicksPerDay then PerWeek
    else if size >= TicksPerDay then PerDay
    else if size > TicksPerHour then PerHours(size / TicksPerHour % 24)
    else if size == TicksPerHour then PerHour
    else if size > TicksPerMinute then PerMinutes(size / TicksPerMinute % 60)
    else PerMinute
  }

  function DivisorText(d: Divisor): (r: string)
    ensures r != []
  {
    match d
    case PerWeek => "week"
    case PerDay => "day"
    case PerHours(n) => FormatInt(n) + " hours"
    case PerHour => "hour"
    case PerMinutes(n) => FormatInt(n) + " minutes"
    case PerMinute => "minute"
  }

  /** The counts of the middle arms are components of a TimeSpan, never negative. */
  predicate CountsNatural(d: Divisor) {
    (d.PerHours? ==> d.count >= 0) && (d.PerMinutes? ==> d.count >= 0)
  }

  /** The label `"<n> hours"` or `"<n> minutes"` splits into the count's digits
      and the unit word. */
  lemma CountLabel(n: int, w: string)
    requires n >= 0 && w != [] && w[0] == ' '
    ensures IsDigit((FormatInt(n) + w)[0])
    ensures (FormatInt(n) + w)[..|FormatInt(n)|] == FormatInt(n)
    ensures (FormatInt(n) + w)[|FormatInt(n)|..] == w
  {
  }

  /** The label names the divisor: different arms, or different counts, give
      different labels. */
  lemma LabelsDetermineDivisor(d1: Divisor, d2: Divisor)
    requires CountsNatural(d1) && CountsNatural(d2)
    requires DivisorText(d1) == DivisorText(d2)
    ensures d1 == d2
  {
    var t := DivisorText(d1);
    if d1.PerHours? || d1.PerMinutes? {
      var w := if d1.PerHours? then " hours" else " minutes";
      CountLabel(d1.count, w);
      if d2.PerHours? || d2.PerMinutes? {
        var w2 := if d2.PerHours? then " hours" else " minutes";
        CountLabel(d2.count, w2);
        if d1.PerHours? != d2.PerHours? {
          assert false;
        } else {
          SameCount(d1.count, d2.count, w);
        }
      } else {
        assert false;
      }
    } else if d2.PerHours? || d2.PerMinutes? {
      assert false;
    }
  }

  /** Equal labels with the same unit word have the same count. */
  lemma SameCount(n: int, m: int, w: string)
    requires n >= 0 && m >= 0
    requires FormatInt(n) + w == FormatInt(m) + w
    ensures n == m
  {
    var t := FormatInt(n) + w;
    assert FormatInt(n) == t[..|t| - |w|] == FormatInt(m);
    ParseFormat(n);
    ParseFormat(m);
  }

  /** The label each range's chart shows: a minute for Hour, an hour for the
      day and week ranges, a day for the month ranges and All. */
  lemma DivisorPerRange(range: Range, clock: Clock)
    requires GetLogParameters(range, clock).Some?
    ensures DivisorText(DivisorOf(GetLogParameters(range, clock).value.Size))
         == match range
            case Hour => "minute"
            case Day | Hours24 | Week | Days7 => "hour"
            case _ => "day"
  {
  }
}
