/**
 * Instants and calendar days.  An instant is a number of milliseconds since
 * 1970-01-01T00:00:00.000 in one fixed zone without daylight-saving changes,
 * which is what luxon's `valueOf()` returns once zones are abstracted away.
 */
module Time {

  type Instant = int

  const MsPerSecond: int := 1000
  const MsPerMinute: int := 60 * MsPerSecond
  const MsPerHour: int := 60 * MsPerMinute
  const MsPerDay: int := 24 * MsPerHour
  const MsPerWeek: int := 7 * MsPerDay

  /** The calendar day of an instant (day 0 is Thursday 1970-01-01). */
  function Day(t: Instant): int
  {
    t / MsPerDay
  }

  /** The instant at 00:00:00.000 of a calendar day. */
  function StartOfDay(day: int): Instant
  {
    day * MsPerDay
  }

  /** Milliseconds elapsed since the start of the instant's calendar day. */
  function TimeOfDay(t: Instant): int
  {
    t % MsPerDay
  }

  /** Luxon's `weekday`: 1 is Monday, 7 is Sunday. */
  function Weekday(day: int): (w: int)
    ensures 1 <= w <= 7
  {
    (day + 3) % 7 + 1
  }

  /** Luxon's `isWeekend` with the default locale: Saturday or Sunday. */
  predicate IsWeekend(day: int)
  {
    Weekday(day) >= 6
  }

  /** True when the instant is at least a minute past midnight. */
  predicate HasClockTime(t: Instant)
  {
    TimeOfDay(t) >= MsPerMinute
  }

  /** Luxon's `hour` and `minute`. */
  function Hour(t: Instant): int
  {
    TimeOfDay(t) / MsPerHour
  }

  function Minute(t: Instant): int
  {
    TimeOfDay(t) / MsPerMinute % 60
  }

  /** An instant has a clock time exactly when its hour or its minute is not zero (seconds are ignored). */
  lemma ClockTimeIsHourOrMinute(t: Instant)
    ensures HasClockTime(t) <==> Hour(t) != 0 || Minute(t) != 0
  {
    var ms := TimeOfDay(t);
    if ms >= MsPerMinute && ms < MsPerHour {
      assert ms / MsPerMinute >= 1;
      assert ms / MsPerMinute < 60;
    }
  }

  /** Moving an instant by whole days moves its calendar day by as many and keeps its time of day. */
  lemma ShiftDays(t: Instant, n: int)
    ensures Day(t + n * MsPerDay) == Day(t) + n
    ensures TimeOfDay(t + n * MsPerDay) == TimeOfDay(t)
  {
    var q, r := t / MsPerDay, t % MsPerDay;
    assert t == q * MsPerDay + r;
    assert t + n * MsPerDay == (q + n) * MsPerDay + r;
  }

  /** An instant lies between the start of its day and the start of the next one. */
  lemma DayBounds(t: Instant)
    ensures StartOfDay(Day(t)) <= t < StartOfDay(Day(t) + 1)
  {
  }

  /** Instants are ordered at least as strongly as their days. */
  lemma DayMonotone(s: Instant, t: Instant)
    requires s <= t
    ensures Day(s) <= Day(t)
  {
    DayBounds(s);
    DayBounds(t);
  }
}
