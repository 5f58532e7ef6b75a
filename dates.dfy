/**
 * Points in time as integer ticks. Parsed timestamps have nanosecond resolution, and
 * the whole-days component of a time difference is rounded towards minus infinity.
 */
module Dates {

  /** Ticks (nanoseconds) in one day. */
  const TicksPerDay: int := 86_400_000_000_000

  /** Whole days elapsed from `start` to `now`: the floor of the difference in days. */
  function WholeDays(now: int, start: int): int
  {
    (now - start) / TicksPerDay
  }

  /** More than `days` whole days have elapsed exactly when at least `days + 1` full days of ticks have. */
  lemma WholeDaysExceed(now: int, start: int, days: int)
    ensures WholeDays(now, start) > days <==> now - start >= (days + 1) * TicksPerDay
  {
    var d := now - start;
    var q, r := d / TicksPerDay, d % TicksPerDay;
    assert d == q * TicksPerDay + r && 0 <= r < TicksPerDay;
    if q > days {
      assert q * TicksPerDay >= (days + 1) * TicksPerDay;
    } else {
      assert q * TicksPerDay <= days * TicksPerDay;
    }
  }

  /** A difference of exactly `days` whole days (any fraction of a day more) is `days` whole days, never more. */
  lemma WholeDaysOfSpan(now: int, start: int, days: int)
    requires days * TicksPerDay <= now - start < (days + 1) * TicksPerDay
    ensures WholeDays(now, start) == days
  {
    WholeDaysExceed(now, start, days);
    WholeDaysExceed(now, start, days - 1);
  }
}
