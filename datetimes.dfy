/** DateTime and TimeSpan reduced to their tick counts, and the two rounding
    extension methods of Networking/DateTimeExtensions.cs. */
module DateTimes {
  import opened Wrappers
  import opened Int64

  const TicksPerSecond: int := 10_000_000
  const TicksPerMinute: int := 600_000_000
  const TicksPerHour: int := 36_000_000_000
  const TicksPerDay: int := 864_000_000_000

  /** DateTime.MaxValue.Ticks (23:59:59.9999999 on 31 December 9999). */
  const MaxTicks: int := 3_155_378_975_999_999_999

  type Ticks = t: int | 0 <= t <= MaxTicks

  datatype DateTimeKind = Unspecified | Utc | Local

  /** A DateTime: a tick count and a kind. The comparison operators and
      equality of .NET DateTime look at the ticks only. */
  datatype DateTime = DateTime(Ticks: Ticks, Kind: DateTimeKind)

  const MinValue: DateTime := DateTime(0, Unspecified)

  predicate MultipleOf(m: int, d: int)
    requires d > 0
  {
    m % d == 0
  }

  /** `dt.Ticks / d.Ticks * d.Ticks`: the largest multiple of d not after dt
      (C# division truncates, which is floor division on non-negative ticks). */
  function RoundDown(dt: DateTime, d: int): (r: DateTime)
    requires d > 0
    ensures r.Kind == dt.Kind
    ensures r.Ticks <= dt.Ticks < r.Ticks + d
    ensures MultipleOf(r.Ticks, d)
  {
    var q := dt.Ticks / d;
    DivMod(dt.Ticks, d);
    MulIsMultiple(q, d);
    DateTime(q * d, dt.Kind)
  }

  /** The tick count `(t + d - 1) / d * d` that RoundUp computes before it is
      handed to the DateTime constructor: the smallest multiple of d not before t. */
  function Ceiling(t: Ticks, d: int): (c: int)
    requires d > 0
    ensures t <= c < t + d
    ensures MultipleOf(c, d)
  {
    var q := (t + d - 1) / d;
    DivMod(t + d - 1, d);
    MulIsMultiple(q, d);
    q * d
  }

  /** `new DateTime((dt.Ticks + d.Ticks - 1) / d.Ticks * d.Ticks, dt.Kind)`.
      The constructor throws ArgumentOutOfRangeException (None here) when the
      ceiling lies beyond DateTime.MaxValue. The requires says that the sum
      `dt.Ticks + d.Ticks - 1` does not overflow a long. */
  function RoundUp(dt: DateTime, d: int): (r: Option<DateTime>)
    requires d > 0 && dt.Ticks + d - 1 <= MaxLong
    ensures r.Some? <==> Ceiling(dt.Ticks, d) <= MaxTicks
    ensures r.Some? ==> r.value.Kind == dt.Kind && r.value.Ticks == Ceiling(dt.Ticks, d)
  {
    var c := (dt.Ticks + d - 1) / d * d;
    if c <= MaxTicks then Some(DateTime(c, dt.Kind)) else None
  }

  lemma DivMod(t: int, d: int)
    requires d > 0
    ensures t == t / d * d + t % d && 0 <= t % d < d
  {
  }

  lemma MulStep(q: int, p: int, d: int)
    requires d > 0 && q > p
    ensures q * d >= p * d + d
  {
    var k := q - p - 1;
    assert q * d == p * d + d + k * d;
  }

  lemma MulIsMultiple(q: int, d: int)
    requires d > 0
    ensures MultipleOf(q * d, d)
  {
    var m := q * d;
    DivMod(m, d);
    var p := m / d;
    if q > p {
      MulStep(q, p, d);
    } else if p > q {
      MulStep(p, q, d);
    }
  }

  /** Two different multiples of d are at least d apart. */
  lemma MultiplesApart(a: int, b: int, d: int)
    requires d > 0 && MultipleOf(a, d) && MultipleOf(b, d) && a > b
    ensures a >= b + d
  {
    DivMod(a, d);
    DivMod(b, d);
    var qa, qb := a / d, b / d;
    if qa <= qb {
      if qa < qb {
        MulStep(qb, qa, d);
      }
    } else {
      MulStep(qa, qb, d);
    }
  }

  /** RoundDown is the greatest multiple of d at or before t. */
  lemma RoundDownIsGreatest(dt: DateTime, d: int, m: int)
    requires d > 0 && MultipleOf(m, d) && m <= dt.Ticks
    ensures m <= RoundDown(dt, d).Ticks
  {
    var r := RoundDown(dt, d).Ticks;
    if m > r {
      MultiplesApart(m, r, d);
    }
  }

  /** The ceiling is the least multiple of d at or after t. */
  lemma CeilingIsLeast(t: Ticks, d: int, m: int)
    requires d > 0 && MultipleOf(m, d) && t <= m
    ensures Ceiling(t, d) <= m
  {
    if Ceiling(t, d) > m {
      MultiplesApart(Ceiling(t, d), m, d);
    }
  }

  /** RoundUp fails exactly when no multiple of d lies in [t, MaxTicks]. */
  lemma RoundUpFailsOnlyPastMaxValue(dt: DateTime, d: int)
    requires d > 0 && dt.Ticks + d - 1 <= MaxLong
    ensures RoundUp(dt, d).None? <==> forall m :: dt.Ticks <= m <= MaxTicks ==> !MultipleOf(m, d)
  {
    if RoundUp(dt, d).None? {
      forall m | dt.Ticks <= m <= MaxTicks
        ensures !MultipleOf(m, d)
      {
        if MultipleOf(m, d) {
          CeilingIsLeast(dt.Ticks, d, m);
        }
      }
    }
  }

  /** A value that is already aligned is returned unchanged by both roundings. */
  lemma AlignedIsFixed(dt: DateTime, d: int)
    requires d > 0 && dt.Ticks + d - 1 <= MaxLong && MultipleOf(dt.Ticks, d)
    ensures RoundDown(dt, d) == dt
    ensures RoundUp(dt, d) == Some(dt)
  {
    RoundDownIsGreatest(dt, d, dt.Ticks);
    CeilingIsLeast(dt.Ticks, d, dt.Ticks);
  }

  /** Rounding down twice is the same as rounding down once. */
  lemma RoundDownIsIdempotent(dt: DateTime, d: int)
    requires d > 0
    ensures RoundDown(RoundDown(dt, d), d) == RoundDown(dt, d)
  {
    var f := RoundDown(dt, d);
    RoundDownIsGreatest(f, d, f.Ticks);
  }

  /** Rounding up a rounded-up value changes nothing. */
  lemma RoundUpIsIdempotent(dt: DateTime, d: int)
    requires d > 0 && dt.Ticks + d - 1 <= MaxLong && RoundUp(dt, d).Some?
    ensures RoundUp(dt, d).value.Ticks + d - 1 <= MaxLong
    ensures RoundUp(RoundUp(dt, d).value, d) == RoundUp(dt, d)
  {
    var u := RoundUp(dt, d).value;
    RoomToRoundUp(u.Ticks, d);
    AlignedIsFixed(u, d);
  }

  /** An aligned tick count can be rounded up again without overflow. */
  lemma RoomToRoundUp(c: int, d: int)
    requires d > 0 && 0 <= c <= MaxTicks && MultipleOf(c, d) && d - 1 <= MaxLong
    ensures c + d - 1 <= MaxLong
  {
    if c > 0 {
      MultiplesApart(c, 0, d);
    }
  }

  /** The ceiling and the floor coincide on aligned values and are exactly one
      interval apart otherwise. */
  lemma CeilingMinusFloor(dt: DateTime, d: int)
    requires d > 0
    ensures Ceiling(dt.Ticks, d) - RoundDown(dt, d).Ticks == (if MultipleOf(dt.Ticks, d) then 0 else d)
  {
    var c, f := Ceiling(dt.Ticks, d), RoundDown(dt, d).Ticks;
    if MultipleOf(dt.Ticks, d) {
      CeilingIsLeast(dt.Ticks, d, dt.Ticks);
      RoundDownIsGreatest(dt, d, dt.Ticks);
    } else {
      assert c != dt.Ticks && f != dt.Ticks;
      MultiplesApart(c, f, d);
      DivMod(f, d);
      assert f + d == (f / d + 1) * d;
      MulIsMultiple(f / d + 1, d);
      CeilingIsLeast(dt.Ticks, d, f + d);
    }
  }
}
