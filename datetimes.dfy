/**
 * `System.DateTime` as the controller uses it: a count of 100-nanosecond ticks
 * between `DateTime.MinValue` and `DateTime.MaxValue`, and `AddDays`, which
 * throws when the result would leave that range.
 */
module DateTimes {
  import opened Wrappers

  /** Ticks in one day: 24 * 60 * 60 * 10_000_000. */
  const TicksPerDay: int := 864_000_000_000

  /** `DateTime.MaxValue.Ticks`, the last tick of 31 December 9999. */
  const MaxTicks: int := 3_155_378_975_999_999_999

  /** A representable instant. */
  type Ticks = t: int | 0 <= t <= MaxTicks

  /** The exception `AddDays` throws. */
  datatype DateError = ArgumentOutOfRange

  /** An instant at 00:00 of its day, as `DateTime.Today` returns. */
  predicate IsMidnight(t: Ticks) {
    t % TicksPerDay == 0
  }

  /** `t.AddDays(days)` for whole days. */
  function AddDays(t: Ticks, days: int): (r: Result<Ticks, DateError>)
    ensures r.Success? <==> 0 <= t + days * TicksPerDay <= MaxTicks
    ensures r.Success? ==> r.value - t == days * TicksPerDay
  {
    var u := t + days * TicksPerDay;
    if 0 <= u <= MaxTicks then Success(u) else Failure(ArgumentOutOfRange)
  }
}
