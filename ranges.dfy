/** The chart ranges and the clock readings the range queries start from. */
module Ranges {
  import opened Wrappers
  import opened DateTimes

  /** The `Range` enum. Its declaration is not part of this model; besides
      the named members an enum variable can hold any other value of its
      underlying type, which the `_ =>` arms of the switches handle. */
  datatype Range = Hour | Day | Hours24 | Week | Days7 | Month | Days30 | All | Unnamed(value: int)

  /** `DateTime.Now`, `DateTime.Today`, `DateTime.Now.StartOfWeek()` and
      `DateTime.Now.StartOfMonth()`, read once per query. */
  datatype Clock = Clock(Now: DateTime, Today: DateTime, StartOfWeek: DateTime, StartOfMonth: DateTime)

  /** `dt.AddHours(..)`/`dt.AddDays(..)` by a whole number of ticks; None when
      the result would leave [MinValue, MaxValue], where .NET throws
      ArgumentOutOfRangeException. */
  function AddTicks(dt: DateTime, delta: int): (r: Option<DateTime>)
    ensures r.Some? <==> 0 <= dt.Ticks + delta <= MaxTicks
    ensures r.Some? ==> r.value.Kind == dt.Kind && r.value.Ticks - dt.Ticks == delta
  {
    if 0 <= dt.Ticks + delta <= MaxTicks then Some(DateTime(dt.Ticks + delta, dt.Kind)) else None
  }
}
