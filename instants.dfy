/**
 * Instants are whole seconds on a single time line. A datetime's calendar
 * date is the day number `t / 86400` and its time of day the second within
 * that day `t % 86400` (Dafny's division is Euclidean, which agrees with how
 * a datetime before the epoch still has a non-negative time of day).
 */
module Instants {

  const SecondsPerDay: int := 86400

  /** The calendar date of an instant, as a day number (`datetime.date()`). */
  function DateOf(t: int): int {
    t / SecondsPerDay
  }

  /** The time of day of an instant, in seconds after midnight (`datetime.time()`). */
  function TimeOf(t: int): (s: int)
    ensures 0 <= s < SecondsPerDay
  {
    t % SecondsPerDay
  }

  /** An instant is determined by its date and its time of day. */
  lemma DateAndTimeDetermineInstant(a: int, b: int)
    requires DateOf(a) == DateOf(b) && TimeOf(a) == TimeOf(b)
    ensures a == b
  {
    assert a == SecondsPerDay * DateOf(a) + TimeOf(a);
    assert b == SecondsPerDay * DateOf(b) + TimeOf(b);
  }
}
