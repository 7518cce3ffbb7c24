/** Networking/NetworkMonitor.cs: reading the interface counters and one
    iteration of the sampling loop, which adds the reading into the record of
    the current minute. */
module Monitor {
  import opened Wrappers
  import opened Int64
  import opened DateTimes
  import opened Logs

  /** The two counters of one interface's IP statistics. */
  datatype IPStatistics = IPStatistics(BytesReceived: Long, BytesSent: Long)

  /** `granularity`: one minute. */
  const Granularity: int := TicksPerMinute

  /** The exact sum of the interfaces' received counters. */
  function TotalReceived(stats: seq<IPStatistics>): int {
    if stats == [] then 0 else TotalReceived(stats[..|stats| - 1]) + stats[|stats| - 1].BytesReceived
  }

  /** The exact sum of the interfaces' sent counters. */
  function TotalSent(stats: seq<IPStatistics>): int {
    if stats == [] then 0 else TotalSent(stats[..|stats| - 1]) + stats[|stats| - 1].BytesSent
  }

  /** The record GetLog builds: the fields accumulate with unchecked long `+=`. */
  function Reading(time: DateTime, stats: seq<IPStatistics>): (r: Log)
    ensures r.Time == time
    ensures MinLong <= TotalReceived(stats) <= MaxLong ==> r.BytesReceived == TotalReceived(stats)
    ensures MinLong <= TotalSent(stats) <= MaxLong ==> r.BytesSent == TotalSent(stats)
    ensures (r.BytesReceived - TotalReceived(stats)) % Modulus == 0 && (r.BytesSent - TotalSent(stats)) % Modulus == 0
    ensures stats == [] ==> r.BytesReceived == 0 && r.BytesSent == 0
  {
    Log(time, Wrap(TotalReceived(stats)), Wrap(TotalSent(stats)))
  }

  /** The in-place `log.BytesReceived += ...; log.BytesSent += ...` on an
      existing record. */
  function Accumulate(entry: Log, current: Log): (r: Log)
    ensures r.Time == entry.Time
    ensures r.BytesReceived == Wrap(entry.BytesReceived + current.BytesReceived)
    ensures r.BytesSent == Wrap(entry.BytesSent + current.BytesSent)
  {
    entry.(BytesReceived := Wrap(entry.BytesReceived + current.BytesReceived),
           BytesSent := Wrap(entry.BytesSent + current.BytesSent))
  }

  /** The dictionary after one iteration: TryGetValue then either accumulate
      into the entry found or TryAdd the new reading. */
  function Upsert(logs: map<int, Log>, window: int, current: Log): (r: map<int, Log>)
    ensures r.Keys == logs.Keys + {window}
    ensures window !in logs ==> r[window] == current
    ensures window in logs ==> r[window] == Accumulate(logs[window], current)
    ensures forall k :: k in logs && k != window ==> r[k] == logs[k]
  {
    if window in logs then logs[window := Accumulate(logs[window], current)]
    else logs[window := current]
  }

  /** One iteration adds at most one key. */
  lemma UpsertAddsAtMostOneKey(logs: map<int, Log>, window: int, current: Log)
    ensures |Upsert(logs, window, current)| == |logs| + (if window in logs then 0 else 1)
  {
    var r := Upsert(logs, window, current);
    if window in logs {
      assert r.Keys == logs.Keys;
    } else {
      assert r.Keys == logs.Keys + {window};
      assert |logs.Keys + {window}| == |logs.Keys| + 1;
    }
  }

  /** Both counters of the record fit a long, as every reading does. */
  predicate LongCounters(l: Log) {
    MinLong <= l.BytesReceived <= MaxLong && MinLong <= l.BytesSent <= MaxLong
  }

  /** The map after a series of iterations that all fall in one window. */
  function UpsertAll(logs: map<int, Log>, window: int, readings: seq<Log>): map<int, Log> {
    if readings == [] then logs
    else Upsert(UpsertAll(logs, window, readings[..|readings| - 1]), window, readings[|readings| - 1])
  }

  /** k iterations in one window, starting from a window not yet present,
      leave one record with the time of the first reading and the (unchecked)
      sums of all k readings; the other keys are untouched. */
  lemma {:induction false} UpsertAllSums(logs: map<int, Log>, window: int, readings: seq<Log>)
    requires window !in logs && |readings| > 0
    requires forall i :: 0 <= i < |readings| ==> LongCounters(readings[i])
    ensures var r := UpsertAll(logs, window, readings);
      && r.Keys == logs.Keys + {window}
      && r[window].Time == readings[0].Time
      && r[window].BytesReceived == Wrap(Sum(readings, Received))
      && r[window].BytesSent == Wrap(Sum(readings, Sent))
      && forall k :: k in logs ==> r[k] == logs[k]
  {
    var n := |readings|;
    var earlier := readings[..n - 1];
    if n == 1 {
      assert earlier == [];
      assert Sum(readings, Received) == Sum(earlier, Received) + readings[0].BytesReceived;
      assert Sum(readings, Sent) == Sum(earlier, Sent) + readings[0].BytesSent;
    } else {
      UpsertAllSums(logs, window, earlier);
      assert earlier[0] == readings[0];
      WrapAdd(Sum(earlier, Received), readings[n - 1].BytesReceived);
      WrapAdd(Sum(earlier, Sent), readings[n - 1].BytesSent);
    }
  }

  class NetworkMonitor {
    /** `logs`, keyed by the ticks of the window (DateTime keys compare by ticks). */
    var logs: map<int, Log>

    /** Every key is a whole minute and is the time of its record. */
    ghost predicate Valid()
      reads this
    {
      forall k :: k in logs ==> MultipleOf(k, Granularity) && logs[k].Time.Ticks == k
    }

    constructor ()
      ensures Valid() && logs == map[]
    {
      logs := map[];
    }

    /** GetLog: a record at `time` whose counters are the sums over every
        interface; with no interfaces both are zero. */
    static method GetLog(time: DateTime, interfaces: seq<IPStatistics>) returns (log: Log)
      ensures log == Reading(time, interfaces)
      ensures interfaces == [] ==> log.BytesReceived == 0 && log.BytesSent == 0
    {
      log := Log(time, 0, 0);
      var i := 0;
      while i < |interfaces|
        invariant 0 <= i <= |interfaces|
        invariant log == Reading(time, interfaces[..i])
      {
        var stats := interfaces[i];
        assert interfaces[..i + 1][..i] == interfaces[..i];
        WrapAdd(TotalReceived(interfaces[..i]), stats.BytesReceived);
        WrapAdd(TotalSent(interfaces[..i]), stats.BytesSent);
        log := log.(BytesReceived := Wrap(log.BytesReceived + stats.BytesReceived),
                    BytesSent := Wrap(log.BytesSent + stats.BytesSent));
        i := i + 1;
      }
      assert interfaces[..i] == interfaces;
    }

    /** One iteration of Run at the instant `now`: the window is `now` rounded
        up to the minute; RoundUp throws past DateTime.MaxValue (ok false,
        nothing changes). */
    method Step(now: DateTime, interfaces: seq<IPStatistics>) returns (ok: bool)
      requires Valid()
      modifies this
      ensures Valid()
      ensures ok <==> RoundUp(now, Granularity).Some?
      ensures !ok ==> logs == old(logs)
      ensures ok ==>
        var window := RoundUp(now, Granularity).value;
        && now.Ticks <= window.Ticks < now.Ticks + Granularity
        && logs == Upsert(old(logs), window.Ticks, Reading(window, interfaces))
    {
      var rounded := RoundUp(now, Granularity);
      if rounded.None? {
        return false;
      }
      var window := rounded.value;
      var current := GetLog(window, interfaces);
      if window.Ticks in logs {
        var log := logs[window.Ticks];
        logs := logs[window.Ticks := log.(BytesReceived := Wrap(log.BytesReceived + current.BytesReceived),
                                          BytesSent := Wrap(log.BytesSent + current.BytesSent))];
      } else {
        logs := logs[window.Ticks := current];
      }
      ok := true;
    }
  }
}
