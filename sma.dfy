/** SystemMonitorConsole/NetworkMonitor/Sma.cs: the bounded queue behind the
    simple moving average. */
module SmaQueue {

  /** The part of the input history the queue holds: the last
      min(|history|, periods) inputs in arrival order, nothing when
      periods is zero or negative. */
  function Window<T>(history: seq<T>, periods: int): (w: seq<T>)
    ensures |w| == WindowLength(|history|, periods)
    ensures w == history[|history| - |w|..]
  {
    history[|history| - WindowLength(|history|, periods)..]
  }

  /** min(n, periods), and 0 for a non-positive bound. */
  function WindowLength(n: nat, periods: int): (k: nat)
    ensures k <= n
    ensures periods <= 0 ==> k == 0
    ensures periods > 0 ==> k == if n < periods then n else periods
  {
    if periods <= 0 then 0 else if n < periods then n else periods
  }

  /** The window after one more input depends only on the window before it:
      the queue never needs inputs it has already dropped. */
  lemma WindowStep<T>(history: seq<T>, periods: int, x: T)
    ensures Window(history + [x], periods) == Window(Window(history, periods) + [x], periods)
  {
    var h := history + [x];
    var w := Window(history, periods) + [x];
    var a, b := Window(h, periods), Window(w, periods);
    assert |a| == |b|;
    forall i | 0 <= i < |a|
      ensures a[i] == b[i]
    {
      assert a[i] == h[|h| - |a| + i];
      assert b[i] == w[|w| - |b| + i];
    }
  }

  class Sma<T> {
    var queue: seq<T>
    const Periods: int
    /** Every input passed to Next so far. */
    ghost var History: seq<T>

    ghost predicate Valid()
      reads this
    {
      queue == Window(History, Periods)
    }

    constructor (periods: int)
      ensures Valid() && Periods == periods && History == [] && queue == []
    {
      Periods := periods;
      queue := [];
      History := [];
    }

    /** Enqueues the input and dequeues until at most Periods inputs remain.
        With a negative Periods the loop empties the queue and then calls
        Dequeue on the empty queue, which throws InvalidOperationException:
        `ok` is false and the queue is left empty. The returned average is not
        modelled. */
    method Next(value: T) returns (ok: bool)
      requires Valid()
      modifies this
      ensures Valid() && History == old(History) + [value]
      ensures ok <==> Periods >= 0
      ensures queue == Window(History, Periods)
      ensures Periods >= 0 ==> |queue| <= Periods
    {
      WindowStep(History, Periods, value);
      ghost var h := History + [value];
      var q := queue + [value];
      assert q == h[|h| - |q|..];
      // Dequeue on an empty queue throws: the loop stops there instead.
      while |q| > Periods && q != []
        invariant |q| <= |h|
        invariant q == h[|h| - |q|..]
        invariant |Window(h, Periods)| <= |q|
        decreases |q|
      {
        q := q[1..];
      }
      ok := |q| <= Periods;
      SuffixIsWindow(h, q, Periods);
      queue, History := q, h;
    }
  }

  /** A suffix of the history at least as long as the window, and no longer
      than the bound allows, is the window. */
  lemma SuffixIsWindow<T>(history: seq<T>, q: seq<T>, periods: int)
    requires |q| <= |history| && q == history[|history| - |q|..]
    requires |Window(history, periods)| <= |q|
    requires |q| <= periods || q == []
    ensures q == Window(history, periods)
  {
  }
}
