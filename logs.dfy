/** The usage record of Networking/Log.cs. */
module Logs {
  import opened DateTimes

  /** One record: the minute it belongs to and the bytes counted in it.
      The source's fields are `long`; sums over records are kept exact here. */
  datatype Log = Log(Time: DateTime, BytesReceived: int, BytesSent: int)

  /** `BytesTotal`, which the shown declaration of Log does not contain;
      it is taken to be received plus sent. */
  function BytesTotal(l: Log): int {
    l.BytesReceived + l.BytesSent
  }

  /** The three selectors the source passes to `Sum`. */
  datatype Counter = Received | Sent | Total

  function Count(l: Log, c: Counter): int {
    match c
    case Received => l.BytesReceived
    case Sent => l.BytesSent
    case Total => BytesTotal(l)
  }

  /** `logs.Sum(log => log.BytesReceived)` and its siblings. */
  function Sum(logs: seq<Log>, c: Counter): (r: int)
    ensures logs == [] ==> r == 0
  {
    if logs == [] then 0 else Sum(logs[..|logs| - 1], c) + Count(logs[|logs| - 1], c)
  }

  /** A sum of non-negative counts is non-negative. */
  lemma {:induction false} SumNonNegative(logs: seq<Log>, c: Counter)
    requires forall i :: 0 <= i < |logs| ==> Count(logs[i], c) >= 0
    ensures Sum(logs, c) >= 0
  {
    if logs != [] {
      SumNonNegative(logs[..|logs| - 1], c);
    }
  }

  /** The total of BytesTotal is the received total plus the sent total. */
  lemma {:induction false} SumTotalSplits(logs: seq<Log>)
    ensures Sum(logs, Total) == Sum(logs, Received) + Sum(logs, Sent)
  {
    if logs != [] {
      SumTotalSplits(logs[..|logs| - 1]);
    }
  }

  /** The sums distribute over concatenation. */
  lemma {:induction false} SumAppend(a: seq<Log>, b: seq<Log>, c: Counter)
    ensures Sum(a + b, c) == Sum(a, c) + Sum(b, c)
  {
    if b == [] {
      assert a + b == a;
    } else {
      SumAppend(a, b[..|b| - 1], c);
      assert (a + b)[..|a + b| - 1] == a + b[..|b| - 1];
    }
  }
}
