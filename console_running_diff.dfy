/** SystemMonitorConsole/NetworkMonitor/RunningDiff.cs: the console monitor's
    copy of the running difference, storing the reading in `Previous`. */
module ConsoleRunningDiff {
  import opened Int64
  import opened RunningDiffs

  class RunningDiff {
    var Previous: Long
    ghost var Readings: seq<Long>

    ghost predicate Valid()
      reads this
    {
      Previous == StateAfter(Readings)
    }

    constructor ()
      ensures Valid() && Readings == []
      ensures Previous == MinLong
    {
      Previous := MinLong;
      Readings := [];
    }

    /** The source returns the long difference converted to double; the
        model returns the long difference itself. */
    method Next(value: Long) returns (diff: Long)
      requires Valid()
      modifies this
      ensures Valid() && Readings == old(Readings) + [value]
      ensures Previous == value
      ensures diff == Diff(old(Previous), value)
      ensures Diffs(Readings) == Diffs(old(Readings)) + [diff]
    {
      if Previous == MinLong {
        Previous := value;
      }
      diff := Wrap(value - Previous);
      Previous := value;
      Readings := Readings + [value];
      assert Readings[..|Readings| - 1] == old(Readings);
    }
  }
}
