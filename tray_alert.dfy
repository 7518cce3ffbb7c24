/** The usage alert of `UpdateNetworkData` in SystemMonitor/Tray.cs: which
    records the alert range covers, the zero-limit guard and the byte sum. */
module TrayAlert {
  import opened Wrappers
  import opened DateTimes
  import opened Logs
  import opened LogQueries
  import opened Ranges
  import opened Units

  /** What `UpdateIcon` is given: -1 when no limit is set, otherwise
      `Bytes / (double)Unit / Limit`, kept here as its three integer parts. */
  datatype Alert = NoLimit | Usage(Bytes: int, Unit: Unit, Limit: int)

  /** The records the alert range covers: the current clock hour, the time
      strictly after midnight today, or the current month. None models the
      ArgumentOutOfRangeException of the `_` arm. */
  function AlertLogs(range: Range, clock: Clock, logs: seq<Log>): (r: Option<seq<Log>>)
    ensures r.Some? <==> range == Hour || range == Day || range == Month
  {
    match range
    case Hour => Some(Since(logs, RoundDown(clock.Now, TicksPerHour).Ticks))
    case Day => Some(After(logs, clock.Today.Ticks))
    case Month => Some(Since(logs, clock.StartOfMonth.Ticks))
    case _ => None
  }

  /** The alert value. The limit is the `long` setting; the unit and range
      are the settings strings after `Enum.Parse`. */
  function UpdateNetworkData(limit: int, unit: Unit, range: Range, clock: Clock, logs: seq<Log>): (r: Option<Alert>)
    ensures limit == 0 ==> r == Some(NoLimit)
    ensures limit != 0 ==> (r.Some? <==> AlertLogs(range, clock, logs).Some?)
    ensures r.Some? && limit != 0 ==>
      r.value == Usage(Sum(AlertLogs(range, clock, logs).value, Total), unit, limit)
  {
    if limit == 0 then Some(NoLimit)
    else
      var kept :- AlertLogs(range, clock, logs);
      Some(Usage(Sum(kept, Total), unit, limit))
  }

  /** The Hour alert counts a record exactly when it lies in the clock hour
      that contains Now (or later). */
  lemma HourAlertCountsThisHour(clock: Clock, logs: seq<Log>, x: Log)
    ensures var start := RoundDown(clock.Now, TicksPerHour).Ticks;
      && start <= clock.Now.Ticks < start + TicksPerHour
      && start % TicksPerHour == 0
      && (x in AlertLogs(Hour, clock, logs).value <==> x in logs && x.Time.Ticks >= start)
  {
    SinceKeeps(logs, RoundDown(clock.Now, TicksPerHour).Ticks, x);
  }

  /** The Day alert counts exactly the records strictly after midnight: a
      record stamped exactly 00:00 today is not counted. */
  lemma DayAlertExcludesMidnight(clock: Clock, logs: seq<Log>, x: Log)
    ensures x in AlertLogs(Day, clock, logs).value <==> x in logs && x.Time.Ticks > clock.Today.Ticks
  {
    AfterKeeps(logs, clock.Today.Ticks, x);
  }

  /** The records stamped exactly at t. */
  function At(logs: seq<Log>, t: int): (r: seq<Log>)
    ensures |r| <= |logs|
  {
    if logs == [] then []
    else
      var x := logs[|logs| - 1];
      At(logs[..|logs| - 1], t) + (if x.Time.Ticks == t then [x] else [])
  }

  /** The Day alert and the details form's Day total differ by exactly the
      records stamped at midnight: the form keeps `>= Today`, the alert
      `> Today`. */
  lemma {:induction false} DayAlertVersusDetails(logs: seq<Log>, t: int, c: Counter)
    ensures Sum(Since(logs, t), c) == Sum(After(logs, t), c) + Sum(At(logs, t), c)
  {
    if logs != [] {
      var init, x := logs[..|logs| - 1], logs[|logs| - 1];
      DayAlertVersusDetails(init, t, c);
      SumAppend(Since(init, t), if x.Time.Ticks >= t then [x] else [], c);
      SumAppend(After(init, t), if x.Time.Ticks > t then [x] else [], c);
      SumAppend(At(init, t), if x.Time.Ticks == t then [x] else [], c);
      assert Sum([x], c) == Sum([], c) + Count(x, c);
    }
  }
}
