/**
 * The generator's two calendar-day tests as they are written.
 *
 * Both tests compare instants whose hour, minute and second have been set to zero.  Luxon's
 * `set` leaves the millisecond field alone, so the compared values are the day's midnight
 * plus the instant's milliseconds-within-the-second, not the day's midnight.  Two instants
 * on the same day then compare by their milliseconds.  `Engine.Step` uses the evidently
 * intended calendar-day comparison; this module models the tests as written and exhibits
 * where the two differ.
 */
module Findings {
  import opened Wrappers
  import opened Time
  import opened Events
  import opened Engine

  /** An instant with hour, minute and second set to zero: the day's midnight, milliseconds kept. */
  function MidnightAsWritten(t: Instant): (r: Instant)
    ensures Day(r) == Day(t)
    ensures StartOfDay(Day(t)) <= r < StartOfDay(Day(t)) + MsPerSecond
  {
    StartOfDay(Day(t)) + t % MsPerSecond
  }

  /** The multi-day test as written: the end's "midnight" lies after the start's. */
  predicate SpansAsWritten(e: Event)
  {
    e.start.Some? && e.end.Some? && MidnightAsWritten(e.end.value) > MidnightAsWritten(e.start.value)
  }

  /** The yield test as written: undated, or the start's "midnight" is not before the query's. */
  predicate YieldsAsWritten(e: Event, date: Instant)
  {
    e.start.None? || MidnightAsWritten(e.start.value) >= MidnightAsWritten(date)
  }

  /** One generator step with both tests as written; otherwise the same as `Engine.Step`. */
  function StepAsWritten(pending: seq<Event>, date: Instant): (r: StepResult)
    ensures |pending| > 0 && IsPast(pending[0], date) ==> r == Step(pending, date)
  {
    if |pending| == 0 then StepResult(pending, None)
    else
      var e := pending[0];
      var afterCycle := AfterCycle(pending);
      if e.start.Some? && e.start.value < date then
        StepResult(afterCycle, None)
      else
        var afterSpan := if SpansAsWritten(e) then Requeue(afterCycle, [Continuation(e)]) else afterCycle;
        if YieldsAsWritten(e, date) then StepResult(afterSpan, Some(e)) else StepResult(afterSpan, None)
  }

  /** Comparing "midnights" is comparing days first, then milliseconds-within-the-second. */
  lemma MidnightOrder(a: Instant, b: Instant)
    ensures MidnightAsWritten(a) < MidnightAsWritten(b) <==>
      Day(a) < Day(b) || (Day(a) == Day(b) && a % MsPerSecond < b % MsPerSecond)
  {
    if Day(a) < Day(b) {
      assert StartOfDay(Day(a)) + MsPerSecond <= StartOfDay(Day(b));
    } else if Day(a) > Day(b) {
      assert StartOfDay(Day(b)) + MsPerSecond <= StartOfDay(Day(a));
    }
  }

  /**
   * The yield test as written drops a same-day item that has already passed the past-skip
   * exactly when its milliseconds-within-the-second are below the query instant's.
   */
  lemma YieldsAsWrittenIff(e: Event, date: Instant)
    requires !IsPast(e, date)
    ensures YieldsAsWritten(e, date) <==>
      e.start.None? || Day(e.start.value) > Day(date) || e.start.value % MsPerSecond >= date % MsPerSecond
  {
    if e.start.Some? {
      MidnightOrder(e.start.value, date);
      DayMonotone(date, e.start.value);
    }
  }

  /** The multi-day test as written also fires for a same-day item whose end has more milliseconds-within-the-second than its start. */
  lemma SpansAsWrittenIff(e: Event)
    ensures SpansAsWritten(e) <==>
      Spans(e) || (e.start.Some? && e.end.Some? && Day(e.end.value) == Day(e.start.value)
                   && e.end.value % MsPerSecond > e.start.value % MsPerSecond)
  {
    if e.start.Some? && e.end.Some? {
      MidnightOrder(e.start.value, e.end.value);
    }
  }

  /** On whole-second instants the tests as written agree with the calendar-day tests. */
  lemma WholeSecondsAgree(pending: seq<Event>, date: Instant)
    requires date % MsPerSecond == 0
    requires forall x | x in pending :: (x.start.Some? ==> x.start.value % MsPerSecond == 0)
                                     && (x.end.Some? ==> x.end.value % MsPerSecond == 0)
    ensures StepAsWritten(pending, date) == Step(pending, date)
  {
    if |pending| > 0 {
      var e := pending[0];
      assert e in pending;
      SpansAsWrittenIff(e);
      if !IsPast(e, date) {
        YieldsAsWrittenIff(e, date);
        StepYield(pending, date);
      }
    }
  }

  /** A once-only item at 10:00:00.000. */
  const AtTen: Event := Event("standup", 0.0, None, Some(10 * MsPerHour), None, Named(Once), [])

  /**
   * Queried at 09:00:00.500 the same day, the item is upcoming, yet the step as written
   * yields nothing, while the calendar-day step yields it.
   */
  lemma SameDayItemDropped()
    ensures !IsPast(AtTen, 9 * MsPerHour + 500)
    ensures StepAsWritten([AtTen], 9 * MsPerHour + 500).yielded == None
    ensures Step([AtTen], 9 * MsPerHour + 500).yielded == Some(AtTen)
  {
    YieldsAsWrittenIff(AtTen, 9 * MsPerHour + 500);
  }

  /** A once-only item from 10:00:00.000 to 11:00:00.500 on one day. */
  const OneHour: Event := Event("meeting", 0.0, None, Some(10 * MsPerHour), Some(11 * MsPerHour + 500), Named(Once), [])

  /**
   * The item lies within one day, yet the step as written treats it as multi-day and queues
   * a copy starting the next day; the calendar-day step queues nothing.
   */
  lemma SameDaySpanSplit()
    ensures !Spans(OneHour) && SpansAsWritten(OneHour)
    ensures StepAsWritten([OneHour], 0).pending == [Continuation(OneHour)]
    ensures Step([OneHour], 0).pending == []
  {
    SpansAsWrittenIff(OneHour);
    assert SortEvents([Continuation(OneHour)]) == [Continuation(OneHour)] by {
      SortEventsSpec([Continuation(OneHour)], 0.0);
      assert multiset(SortEvents([Continuation(OneHour)])) == multiset([Continuation(OneHour)]);
    }
  }
}
