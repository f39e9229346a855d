/**
 * Instants and calendar days. An instant is a count of milliseconds since the
 * epoch, as held by `java.util.Date`; a day is the calendar date that
 * `LocalDate` yields for it. The model fixes the zone to UTC, so the day of an
 * instant is its floor division by the length of a day.
 */
module Clock {
  /** Milliseconds in one day. */
  const DAY: int := 86_400_000

  /** Days a newly minted session token stays valid. */
  const TOKEN_LIFETIME_DAYS: int := 30

  /** The calendar date of instant `t` (days since the epoch). */
  function Day(t: int): int {
    t / DAY
  }

  /** The first instant of calendar date `d` (`LocalDate.atStartOfDay`). */
  function StartOfDay(d: int): int {
    d * DAY
  }

  /** An instant lies in its own day: at or after the day's start, before the next day's. */
  lemma DayBounds(t: int)
    ensures StartOfDay(Day(t)) <= t < StartOfDay(Day(t) + 1)
  {
  }

  /** The start of a day belongs to that day. */
  lemma DayOfStartOfDay(d: int)
    ensures Day(StartOfDay(d)) == d
  {
  }

  /**
   * The bridge between the two expiry checks: a date strictly after today's
   * date means an instant strictly after now.
   */
  lemma LaterDayIsLaterInstant(e: int, now: int)
    requires Day(e) > Day(now)
    ensures e > now
  {
    DayBounds(e);
    DayBounds(now);
  }

  /**
   * The expiry given to a new token, the start of the day `k` days from today
   * (k >= 1), is on that day and strictly after now.
   */
  lemma StartOfLaterDayIsAfter(now: int, k: int)
    requires k >= 1
    ensures Day(StartOfDay(Day(now) + k)) == Day(now) + k
    ensures StartOfDay(Day(now) + k) > now
  {
    DayOfStartOfDay(Day(now) + k);
    LaterDayIsLaterInstant(StartOfDay(Day(now) + k), now);
  }

  /**
   * The converse of LaterDayIsLaterInstant fails: the next instant, unless
   * now is the last millisecond of its day, is on the same date.
   */
  lemma LaterInstantSameDay(now: int)
    requires now % DAY < DAY - 1
    ensures Day(now + 1) == Day(now)
  {
  }
}
