/** Networking/RunningDiff.cs: turns a cumulative counter into per-call
    differences, using long.MinValue as the "no reading yet" sentinel. */
module RunningDiffs {
  import opened Int64

  /** The stored value after the given readings have been fed in order:
      every call overwrites it with its reading. */
  function StateAfter(readings: seq<Long>): Long {
    if readings == [] then MinLong else readings[|readings| - 1]
  }

  /** What one call returns when the stored value is `previous`: 0 while the
      sentinel is stored (the call first copies the reading over it),
      otherwise the unchecked long difference from the previous reading.
      A decrease is returned as it is, negative: there is no reset handling. */
  function Diff(previous: Long, current: Long): (d: Long)
    ensures previous == MinLong ==> d == 0
    ensures previous != MinLong && MinLong <= current - previous <= MaxLong ==> d == current - previous
  {
    var start := if previous == MinLong then current else previous;
    Wrap(current - start)
  }

  /** The results of feeding the readings in order to a fresh instance. */
  function Diffs(readings: seq<Long>): (ds: seq<Long>)
    ensures |ds| == |readings|
  {
    if readings == [] then []
    else
      var earlier := readings[..|readings| - 1];
      Diffs(earlier) + [Diff(StateAfter(earlier), readings[|readings| - 1])]
  }

  function Sum(xs: seq<Long>): int {
    if xs == [] then 0 else Sum(xs[..|xs| - 1]) + xs[|xs| - 1]
  }

  /** The first reading yields 0. */
  lemma FirstDiffIsZero(current: Long)
    ensures Diffs([current]) == [0]
  {
    assert [current][..0] == [];
  }

  /** A later reading below the previous one yields a negative difference. */
  lemma DecreaseIsNegative(previous: Long, current: Long)
    requires 0 <= current < previous
    ensures Diff(previous, current) == current - previous < 0
  {
  }

  /** For non-negative counter readings the differences telescope:
      they add up to the last reading minus the first. */
  lemma {:induction false} DiffsTelescope(readings: seq<Long>)
    requires |readings| > 0
    requires forall i :: 0 <= i < |readings| ==> readings[i] >= 0
    ensures Sum(Diffs(readings)) == readings[|readings| - 1] - readings[0]
  {
    var n := |readings|;
    if n == 1 {
      FirstDiffIsZero(readings[0]);
      assert readings == [readings[0]];
      assert Sum([0 as Long]) == Sum([]) + 0;
    } else {
      var earlier := readings[..n - 1];
      DiffsTelescope(earlier);
      var ds := Diffs(readings);
      assert ds[..n - 1] == Diffs(earlier);
    }
  }

  class RunningDiff {
    var Value: Long
    /** The readings passed to Next so far. */
    ghost var Readings: seq<Long>

    ghost predicate Valid()
      reads this
    {
      Value == StateAfter(Readings)
    }

    constructor ()
      ensures Valid() && Readings == []
      ensures Value == MinLong
    {
      Value := MinLong;
      Readings := [];
    }

    /** After the call the stored value is the reading, and the result
        extends the sequence of differences the instance has produced. */
    method Next(current: Long) returns (diff: Long)
      requires Valid()
      modifies this
      ensures Valid() && Readings == old(Readings) + [current]
      ensures Value == current
      ensures diff == Diff(old(Value), current)
      ensures Diffs(Readings) == Diffs(old(Readings)) + [diff]
    {
      if Value == MinLong {
        Value := current;
      }
      diff := Wrap(current - Value);
      Value := current;
      Readings := Readings + [current];
      assert Readings[..|Readings| - 1] == old(Readings);
    }
  }
}
