/** Optional values, as the app uses `null` for "nothing to show". */
module Wrappers {
  datatype Option<+T> = None | Some(value: T)
}

/**
 * Timestamps and the calendar the statistics are computed against.
 * Local midnight and "today's midnight minus seven calendar days" depend on
 * the time zone and daylight-saving rules of the device, so they are
 * parameters here. They are constrained only by what holds on every local
 * calendar, 23- and 25-hour daylight-saving days included: a day starts at
 * or before any instant in it, and the week window starts before today.
 */
module Time {

  /** Milliseconds since the epoch, the value `Date.getTime()` yields. */
  type Timestamp = int

  /** One day in milliseconds: 1000 * 60 * 60 * 24. */
  const DAY: int := 1000 * 60 * 60 * 24

  /**
   * `midnight(t)` is the local midnight that starts the day of `t`, at or
   * before `t` (how long before depends on the day's length, so no upper
   * bound is assumed); `weekStart(now)` is that midnight moved back seven
   * calendar days, which lies strictly before today's midnight.
   */
  ghost predicate IsCalendar(midnight: Timestamp -> Timestamp, weekStart: Timestamp -> Timestamp)
  {
    && (forall t :: midnight(t) <= t)
    && (forall t :: weekStart(t) < midnight(t))
  }

  /** Midnight on a device whose local time is UTC. */
  function UtcMidnight(t: Timestamp): (m: Timestamp)
    ensures m <= t < m + DAY
    ensures m % DAY == 0
  {
    t - t % DAY
  }

  /**
   * Seven days before UTC midnight; UTC has no daylight-saving shifts, so the
   * window holds the seven whole days before today and today so far.
   */
  function UtcWeekStart(now: Timestamp): (w: Timestamp)
    ensures w % DAY == 0
    ensures w + 7 * DAY <= now < w + 8 * DAY
  {
    UtcMidnight(now) - 7 * DAY
  }

  /** The UTC calendar is a calendar, so the statistics lemmas have callers. */
  lemma UtcIsCalendar()
    ensures IsCalendar(UtcMidnight, UtcWeekStart)
  {
  }
}
