/** The LINQ pipeline the range queries share:
    `Where(log => log.Time >= earliest).GroupBy(log => log.Time.Ticks / size.Ticks)
     .Select(g => new Log { Time = g.First().Time, BytesReceived = g.Sum(..), BytesSent = g.Sum(..) })`.
    GroupBy yields its groups in the order in which their keys first occur,
    each group holding its members in input order. */
module LogQueries {
  import opened DateTimes
  import opened Logs

  /** `Where(log => log.Time >= earliest)`. */
  function Since(logs: seq<Log>, earliest: int): (r: seq<Log>)
    ensures |r| <= |logs|
    ensures forall i :: 0 <= i < |r| ==> r[i].Time.Ticks >= earliest
  {
    if logs == [] then []
    else
      var x := logs[|logs| - 1];
      Since(logs[..|logs| - 1], earliest) + (if x.Time.Ticks >= earliest then [x] else [])
  }

  /** `Where(log => log.Time > after)`. */
  function After(logs: seq<Log>, after: int): (r: seq<Log>)
    ensures |r| <= |logs|
    ensures forall i :: 0 <= i < |r| ==> r[i].Time.Ticks > after
  {
    if logs == [] then []
    else
      var x := logs[|logs| - 1];
      After(logs[..|logs| - 1], after) + (if x.Time.Ticks > after then [x] else [])
  }

  /** Since keeps exactly the records at or after the cutoff. */
  lemma {:induction false} SinceKeeps(logs: seq<Log>, earliest: int, x: Log)
    ensures x in Since(logs, earliest) <==> x in logs && x.Time.Ticks >= earliest
  {
    if logs != [] {
      SinceKeeps(logs[..|logs| - 1], earliest, x);
      assert logs == logs[..|logs| - 1] + [logs[|logs| - 1]];
    }
  }

  /** After keeps exactly the records strictly after the cutoff. */
  lemma {:induction false} AfterKeeps(logs: seq<Log>, after: int, x: Log)
    ensures x in After(logs, after) <==> x in logs && x.Time.Ticks > after
  {
    if logs != [] {
      AfterKeeps(logs[..|logs| - 1], after, x);
      assert logs == logs[..|logs| - 1] + [logs[|logs| - 1]];
    }
  }

  /** A cutoff at DateTime.MinValue keeps every record. */
  lemma {:induction false} SinceMinValueKeepsAll(logs: seq<Log>)
    ensures Since(logs, 0) == logs
  {
    if logs != [] {
      SinceMinValueKeepsAll(logs[..|logs| - 1]);
    }
  }

  /** The grouping key `log.Time.Ticks / size.Ticks`. */
  function Key(l: Log, size: int): int
    requires size > 0
  {
    l.Time.Ticks / size
  }

  predicate Distinct(ks: seq<int>) {
    forall i, j :: 0 <= i < j < |ks| ==> ks[i] != ks[j]
  }

  /** The members of the group with key k, in input order. */
  function Members(logs: seq<Log>, size: int, k: int): (g: seq<Log>)
    requires size > 0
    ensures |g| <= |logs|
  {
    if logs == [] then []
    else
      var x := logs[|logs| - 1];
      Members(logs[..|logs| - 1], size, k) + (if Key(x, size) == k then [x] else [])
  }

  /** A group holds exactly the records with its key. */
  lemma {:induction false} MembersHaveKey(logs: seq<Log>, size: int, k: int, x: Log)
    requires size > 0
    ensures x in Members(logs, size, k) <==> x in logs && Key(x, size) == k
  {
    if logs != [] {
      MembersHaveKey(logs[..|logs| - 1], size, k, x);
      assert logs == logs[..|logs| - 1] + [logs[|logs| - 1]];
    }
  }

  /** The keys of the groups, each once, in the order in which they first occur. */
  function Keys(logs: seq<Log>, size: int): (ks: seq<int>)
    requires size > 0
    ensures Distinct(ks)
    ensures |ks| <= |logs|
  {
    if logs == [] then []
    else
      var earlier := Keys(logs[..|logs| - 1], size);
      var k := Key(logs[|logs| - 1], size);
      if k in earlier then earlier else earlier + [k]
  }

  /** The keys are exactly the keys of the records. */
  lemma {:induction false} KeysOfRecords(logs: seq<Log>, size: int, k: int)
    requires size > 0
    ensures k in Keys(logs, size) <==> Members(logs, size, k) != []
  {
    if logs != [] {
      KeysOfRecords(logs[..|logs| - 1], size, k);
    }
  }

  /** Every record's key is one of the keys. */
  lemma RecordKeyIsAKey(logs: seq<Log>, size: int, x: Log)
    requires size > 0 && x in logs
    ensures Key(x, size) in Keys(logs, size)
  {
    MembersHaveKey(logs, size, Key(x, size), x);
    KeysOfRecords(logs, size, Key(x, size));
  }

  /** The record the Select builds from the group with key k. */
  function Bucket(logs: seq<Log>, size: int, k: int): (b: Log)
    requires size > 0 && Members(logs, size, k) != []
  {
    var g := Members(logs, size, k);
    Log(g[0].Time, Sum(g, Received), Sum(g, Sent))
  }

  /** Every listed key has members. */
  predicate AllHaveMembers(logs: seq<Log>, size: int, ks: seq<int>)
    requires size > 0
  {
    forall i :: 0 <= i < |ks| ==> Members(logs, size, ks[i]) != []
  }

  /** The buckets for the keys ks, in that order. */
  function Buckets(logs: seq<Log>, size: int, ks: seq<int>): (r: seq<Log>)
    requires size > 0 && AllHaveMembers(logs, size, ks)
    ensures |r| == |ks|
    ensures forall i :: 0 <= i < |ks| ==> r[i] == Bucket(logs, size, ks[i])
  {
    if ks == [] then []
    else Buckets(logs, size, ks[..|ks| - 1]) + [Bucket(logs, size, ks[|ks| - 1])]
  }

  lemma KeysHaveMembers(logs: seq<Log>, size: int)
    requires size > 0
    ensures AllHaveMembers(logs, size, Keys(logs, size))
  {
    var ks := Keys(logs, size);
    forall i | 0 <= i < |ks|
      ensures Members(logs, size, ks[i]) != []
    {
      KeysOfRecords(logs, size, ks[i]);
    }
  }

  /** The whole GroupBy/Select: one record per distinct key. */
  function GroupAndSum(logs: seq<Log>, size: int): (r: seq<Log>)
    requires size > 0
    ensures |r| == |Keys(logs, size)| <= |logs|
  {
    KeysHaveMembers(logs, size);
    Buckets(logs, size, Keys(logs, size))
  }

  // ----- where each record goes -----

  /** The position of k in ks. */
  function IndexOf(ks: seq<int>, k: int): (i: nat)
    requires k in ks
    ensures i < |ks| && ks[i] == k
  {
    if ks[0] == k then 0 else 1 + IndexOf(ks[1..], k)
  }

  /** The position of the bucket that record j of the input falls into. */
  function BucketIndex(logs: seq<Log>, size: int, j: int): (b: nat)
    requires size > 0 && 0 <= j < |logs|
    ensures b < |GroupAndSum(logs, size)|
    ensures Keys(logs, size)[b] == Key(logs[j], size)
  {
    RecordKeyIsAKey(logs, size, logs[j]);
    IndexOf(Keys(logs, size), Key(logs[j], size))
  }

  /** Two records share a bucket exactly when their keys are equal, and each
      record is a member of the group of its bucket. */
  lemma SameBucketIffSameKey(logs: seq<Log>, size: int, i: int, j: int)
    requires size > 0 && 0 <= i < |logs| && 0 <= j < |logs|
    ensures BucketIndex(logs, size, i) == BucketIndex(logs, size, j) <==> Key(logs[i], size) == Key(logs[j], size)
    ensures logs[i] in Members(logs, size, Keys(logs, size)[BucketIndex(logs, size, i)])
  {
    MembersHaveKey(logs, size, Key(logs[i], size), logs[i]);
  }

  /** The index of the first record with key k. */
  function FirstIndex(logs: seq<Log>, size: int, k: int): (j: nat)
    requires size > 0 && Members(logs, size, k) != []
    ensures j < |logs| && Key(logs[j], size) == k
    ensures forall i :: 0 <= i < j ==> Key(logs[i], size) != k
    ensures Members(logs, size, k)[0] == logs[j]
  {
    var earlier, x := logs[..|logs| - 1], logs[|logs| - 1];
    if Members(earlier, size, k) != [] then
      var j := FirstIndex(earlier, size, k);
      assert forall i :: 0 <= i <= j ==> logs[i] == earlier[i];
      j
    else
      NoMembersNoKey(earlier, size, k);
      |logs| - 1
  }

  /** GroupBy's order: the keys come in the order of their first records. */
  lemma {:induction false} KeysInFirstOccurrenceOrder(logs: seq<Log>, size: int, i: int, j: int)
    requires size > 0 && 0 <= i < j < |Keys(logs, size)|
    ensures Members(logs, size, Keys(logs, size)[i]) != [] && Members(logs, size, Keys(logs, size)[j]) != []
    ensures FirstIndex(logs, size, Keys(logs, size)[i]) < FirstIndex(logs, size, Keys(logs, size)[j])
  {
    var ks := Keys(logs, size);
    var earlier := logs[..|logs| - 1];
    var eks := Keys(earlier, size);
    KeysOfRecords(logs, size, ks[i]);
    KeysOfRecords(logs, size, ks[j]);
    assert ks[..|eks|] == eks;
    KeysOfRecords(earlier, size, ks[i]);
    if j < |eks| {
      KeysInFirstOccurrenceOrder(earlier, size, i, j);
      KeysOfRecords(earlier, size, ks[j]);
    } else {
      assert ks[j] !in eks;
      KeysOfRecords(earlier, size, ks[j]);
    }
  }

  /** Records in nondecreasing time order. */
  predicate TimeSorted(logs: seq<Log>) {
    forall i, j :: 0 <= i < j < |logs| ==> logs[i].Time.Ticks <= logs[j].Time.Ticks
  }

  /** On time-ordered input the groups' first records have increasing times. */
  lemma FirstTimesIncrease(logs: seq<Log>, size: int, a: int, b: int)
    requires size > 0 && TimeSorted(logs) && 0 <= a < b < |Keys(logs, size)|
    ensures Members(logs, size, Keys(logs, size)[a]) != [] && Members(logs, size, Keys(logs, size)[b]) != []
    ensures logs[FirstIndex(logs, size, Keys(logs, size)[a])].Time.Ticks
          < logs[FirstIndex(logs, size, Keys(logs, size)[b])].Time.Ticks
  {
    var ks := Keys(logs, size);
    KeysInFirstOccurrenceOrder(logs, size, a, b);
    var fa, fb := FirstIndex(logs, size, ks[a]), FirstIndex(logs, size, ks[b]);
    assert logs[fa].Time.Ticks <= logs[fb].Time.Ticks;
    assert Key(logs[fa], size) != Key(logs[fb], size);
  }

  /** Records in time order give bucket records in strictly increasing time
      order. */
  lemma SortedInSortedOut(logs: seq<Log>, size: int, a: int, b: int)
    requires size > 0 && TimeSorted(logs)
    requires 0 <= a < b < |GroupAndSum(logs, size)|
    ensures GroupAndSum(logs, size)[a].Time.Ticks < GroupAndSum(logs, size)[b].Time.Ticks
  {
    BucketIsFirstTimeAndSums(logs, size, a);
    BucketIsFirstTimeAndSums(logs, size, b);
    FirstTimesIncrease(logs, size, a, b);
  }

  /** A group without members means no record has that key. */
  lemma NoMembersNoKey(logs: seq<Log>, size: int, k: int)
    requires size > 0 && Members(logs, size, k) == []
    ensures forall i :: 0 <= i < |logs| ==> Key(logs[i], size) != k
  {
    forall i | 0 <= i < |logs|
      ensures Key(logs[i], size) != k
    {
      MembersHaveKey(logs, size, k, logs[i]);
    }
  }

  /** Each bucket record carries the time of the first record of its group
      and the sums of its group's counters. */
  lemma BucketIsFirstTimeAndSums(logs: seq<Log>, size: int, b: int)
    requires size > 0 && 0 <= b < |GroupAndSum(logs, size)|
    ensures var k := Keys(logs, size)[b];
      && Members(logs, size, k) != []
      && GroupAndSum(logs, size)[b].Time == logs[FirstIndex(logs, size, k)].Time
      && GroupAndSum(logs, size)[b].BytesReceived == Sum(Members(logs, size, k), Received)
      && GroupAndSum(logs, size)[b].BytesSent == Sum(Members(logs, size, k), Sent)
  {
    KeysHaveMembers(logs, size);
  }

  // ----- totals -----

  /** The sum over the groups with keys ks of their members' counters. */
  function GroupSums(logs: seq<Log>, size: int, ks: seq<int>, c: Counter): int
    requires size > 0
  {
    if ks == [] then 0 else GroupSums(logs, size, ks[..|ks| - 1], c) + Sum(Members(logs, size, ks[|ks| - 1]), c)
  }

  /** Summing the bucket records is summing the groups. */
  lemma {:induction false} BucketsSum(logs: seq<Log>, size: int, ks: seq<int>, c: Counter)
    requires size > 0 && AllHaveMembers(logs, size, ks)
    requires c != Total
    ensures Sum(Buckets(logs, size, ks), c) == GroupSums(logs, size, ks, c)
  {
    if ks != [] {
      var r := Buckets(logs, size, ks);
      var init := ks[..|ks| - 1];
      assert AllHaveMembers(logs, size, init) by {
        forall i | 0 <= i < |init|
          ensures Members(logs, size, init[i]) != []
        {
          assert init[i] == ks[i];
        }
      }
      BucketsSum(logs, size, init, c);
      assert r[..|r| - 1] == Buckets(logs, size, init);
    }
  }

  /** Appending one record to the input adds its counter to its own group
      only (ks lists each key at most once). */
  lemma {:induction false} GroupSumsAppend(logs: seq<Log>, x: Log, size: int, ks: seq<int>, c: Counter)
    requires size > 0 && Distinct(ks)
    ensures GroupSums(logs + [x], size, ks, c)
         == GroupSums(logs, size, ks, c) + (if Key(x, size) in ks then Count(x, c) else 0)
  {
    if ks != [] {
      var init, k := ks[..|ks| - 1], ks[|ks| - 1];
      assert Distinct(init);
      GroupSumsAppend(logs, x, size, init, c);
      assert (logs + [x])[..|logs + [x]| - 1] == logs;
      assert Members(logs + [x], size, k) == Members(logs, size, k) + (if Key(x, size) == k then [x] else []);
      SumAppend(Members(logs, size, k), if Key(x, size) == k then [x] else [], c);
      assert Sum([x], c) == Sum([], c) + Count(x, c);
      assert Key(x, size) in ks <==> Key(x, size) in init || Key(x, size) == k;
      assert Key(x, size) == k ==> Key(x, size) !in init;
    }
  }

  /** The groups together hold exactly the input's counter total. */
  lemma {:induction false} GroupSumsTotal(logs: seq<Log>, size: int, c: Counter)
    requires size > 0
    ensures GroupSums(logs, size, Keys(logs, size), c) == Sum(logs, c)
  {
    if logs != [] {
      var earlier, x := logs[..|logs| - 1], logs[|logs| - 1];
      GroupSumsTotal(earlier, size, c);
      assert logs == earlier + [x];
      GroupSumsStep(earlier, x, size, c);
    }
  }

  /** One more record: the groups' total grows by that record's counter. */
  lemma GroupSumsStep(earlier: seq<Log>, x: Log, size: int, c: Counter)
    requires size > 0
    ensures GroupSums(earlier + [x], size, Keys(earlier + [x], size), c)
         == GroupSums(earlier, size, Keys(earlier, size), c) + Count(x, c)
  {
    var logs := earlier + [x];
    var k := Key(x, size);
    var ks := Keys(earlier, size);
    assert logs[..|logs| - 1] == earlier;
    GroupSumsAppend(earlier, x, size, ks, c);
    if k !in ks {
      assert Keys(logs, size) == ks + [k];
      assert (ks + [k])[..|ks|] == ks;
      KeysOfRecords(earlier, size, k);
      assert Members(logs, size, k) == [x];
      assert Sum([x], c) == Sum([], c) + Count(x, c);
    }
  }

  /** Grouping keeps the received, sent and total byte counts of its input. */
  lemma GroupAndSumPreservesTotals(logs: seq<Log>, size: int)
    requires size > 0
    ensures Sum(GroupAndSum(logs, size), Received) == Sum(logs, Received)
    ensures Sum(GroupAndSum(logs, size), Sent) == Sum(logs, Sent)
    ensures Sum(GroupAndSum(logs, size), Total) == Sum(logs, Total)
  {
    var ks := Keys(logs, size);
    KeysHaveMembers(logs, size);
    BucketsSum(logs, size, ks, Received);
    BucketsSum(logs, size, ks, Sent);
    GroupSumsTotal(logs, size, Received);
    GroupSumsTotal(logs, size, Sent);
    SumTotalSplits(GroupAndSum(logs, size));
    SumTotalSplits(logs);
  }
}
