/** `GetLogRange` of SystemMonitorTray/Details.cs: the tray variant of the
    range query, with its own bucket lengths and an unbucketed Hour range. */
module TrayDetails {
  import opened Wrappers
  import opened DateTimes
  import opened Logs
  import opened LogQueries
  import opened Ranges
  import DetailsForms

  const QuarterHour: int := 15 * TicksPerMinute
  const EightHours: int := 8 * TicksPerHour

  /** `Where(log => log.Time >= DateTime.Now.AddTicks(-back))`: the cutoff
      is computed inside the lambda, so AddHours/AddDays throws only when
      there is a record to test; with no records the result is empty. */
  function Recent(logs: seq<Log>, now: DateTime, back: int): (r: Option<seq<Log>>)
    ensures r.None? <==> logs != [] && AddTicks(now, -back).None?
    ensures r.Some? ==> r.value == Since(logs, now.Ticks - back)
  {
    match AddTicks(now, -back)
    case Some(e) => Some(Since(logs, e.Ticks))
    case None => if logs == [] then Some([]) else None
  }

  /** The switch. None models ArgumentOutOfRangeException: thrown by the `_`
      arm, or by AddHours/AddDays when Now is too close to MinValue and there
      is at least one record. */
  function GetLogRange(range: Range, clock: Clock, logs: seq<Log>): (r: Option<seq<Log>>)
    ensures r.Some? <==> DetailsForms.GetLogParameters(range, clock).Some? || (logs == [] && !range.Unnamed?)
    ensures r.Some? && DetailsForms.GetLogParameters(range, clock).None? ==> r.value == []
    ensures r.Some? ==> |r.value| <= |logs|
    ensures range == Hour && r.Some? ==> r.value == Since(logs, clock.Now.Ticks - TicksPerHour)
  {
    match range
    case Hour => Recent(logs, clock.Now, TicksPerHour)
    case Day => Some(GroupAndSum(Since(logs, clock.Today.Ticks), QuarterHour))
    case Hours24 =>
      var kept :- Recent(logs, clock.Now, 24 * TicksPerHour);
      Some(GroupAndSum(kept, QuarterHour))
    case Week => Some(GroupAndSum(Since(logs, clock.StartOfWeek.Ticks), TicksPerHour))
    case Days7 =>
      var kept :- Recent(logs, clock.Now, 7 * TicksPerDay);
      Some(GroupAndSum(kept, TicksPerHour))
    case Month => Some(GroupAndSum(Since(logs, clock.StartOfMonth.Ticks), EightHours))
    case Days30 =>
      var kept :- Recent(logs, clock.Now, 30 * TicksPerDay);
      Some(GroupAndSum(kept, EightHours))
    case All => Some(GroupAndSum(logs, TicksPerDay))
    case Unnamed(_) => None
  }

  /** The tray's bucket length for each range; Hour is not bucketed. */
  function TraySize(range: Range): int {
    match range
    case Day => QuarterHour
    case Hours24 => QuarterHour
    case Week => TicksPerHour
    case Days7 => TicksPerHour
    case Month => EightHours
    case Days30 => EightHours
    case _ => TicksPerDay
  }

  /** Wherever the details form's parameters exist, the tray window is the
      details form's kept records, grouped by the tray's own bucket length
      (or not grouped, for Hour). */
  lemma TrayWindow(range: Range, clock: Clock, logs: seq<Log>)
    requires DetailsForms.GetLogParameters(range, clock).Some?
    ensures GetLogRange(range, clock, logs).Some?
    ensures var kept := Since(logs, DetailsForms.GetLogParameters(range, clock).value.Earliest.Ticks);
      GetLogRange(range, clock, logs).value == if range == Hour then kept else GroupAndSum(kept, TraySize(range))
  {
    var e := DetailsForms.GetLogParameters(range, clock).value.Earliest;
    match range
    case Hour =>
    case Day =>
    case Hours24 => assert Recent(logs, clock.Now, 24 * TicksPerHour) == Some(Since(logs, e.Ticks));
    case Week =>
    case Days7 => assert Recent(logs, clock.Now, 7 * TicksPerDay) == Some(Since(logs, e.Ticks));
    case Month =>
    case Days30 => assert Recent(logs, clock.Now, 30 * TicksPerDay) == Some(Since(logs, e.Ticks));
    case All => SinceMinValueKeepsAll(logs);
  }

  /** The tray chart covers the same records as the details form for every
      range: the same cutoff, and therefore the same received, sent and total
      bytes, whatever the bucket lengths. */
  lemma SameTotalsAsDetailsForm(range: Range, clock: Clock, logs: seq<Log>, c: Counter)
    requires DetailsForms.GetLogs(range, clock, logs).Some?
    ensures Sum(GetLogRange(range, clock, logs).value, c)
         == Sum(DetailsForms.GetLogs(range, clock, logs).value, c)
  {
    var p := DetailsForms.GetLogParameters(range, clock).value;
    var kept := Since(logs, p.Earliest.Ticks);
    DetailsForms.GetLogsTotals(range, clock, logs, c);
    TrayWindow(range, clock, logs);
    if range != Hour {
      GroupAndSumPreservesTotals(kept, TraySize(range));
    }
  }

  /** Where the bucket lengths coincide (one hour for Week and Days7, one day
      for All) the tray chart shows exactly the details form's records. */
  lemma SameRecordsAsDetailsForm(range: Range, clock: Clock, logs: seq<Log>)
    requires range == Week || range == Days7 || range == All
    requires DetailsForms.GetLogs(range, clock, logs).Some?
    ensures GetLogRange(range, clock, logs) == DetailsForms.GetLogs(range, clock, logs)
  {
    var p := DetailsForms.GetLogParameters(range, clock).value;
    var kept := Since(logs, p.Earliest.Ticks);
    assert p.Size == TraySize(range);
    TrayWindow(range, clock, logs);
    assert DetailsForms.GetLogs(range, clock, logs) == Some(GroupAndSum(kept, p.Size));
  }
}
