/**
 * The occurrence generator `enumerateEventsFromDate` as an explicit state machine.
 *
 * The generator's private copy of the parsed events is a working set (`pending`), kept in
 * `sortEvents` order.  One `Step` pops the head, pushes its next cycle, drops it if it lies
 * before the query instant, pushes a next-day continuation when it spans several calendar
 * days, and yields it.  `Run` performs a bounded number of steps; the real stream is
 * infinite whenever a weekly, biweekly or weekdays item is present.
 */
module Engine {
  import opened Wrappers
  import opened Time
  import opened Events
  import Sorting

  /**
   * A copy of the item moved `n` days later, start and end alike (the end only when present).  The
   * schema guarantees a start whenever this is used; an undated item is left as it is.
   */
  function ShiftByDays(e: Event, n: int): Event
  {
    e.(start := if e.start.Some? then Some(e.start.value + n * MsPerDay) else None,
       end := if e.end.Some? then Some(e.end.value + n * MsPerDay) else None)
  }

  /**
   * The number of days the weekdays rule advances from `day`: the smallest d >= 1 such that
   * day + d is neither Saturday nor Sunday.
   */
  function WeekdaysGap(day: int): (d: int)
    ensures 1 <= d <= 3
    ensures !IsWeekend(day + d)
    ensures forall j | day < j < day + d :: IsWeekend(j)
  {
    if !IsWeekend(day + 1) then 1
    else if !IsWeekend(day + 2) then 2
    else 3
  }

  /** The calendar day of the start, or day 0 for an undated item. */
  function StartDay(e: Event): int
  {
    if e.start.Some? then Day(e.start.value) else 0
  }

  /** The item pushed for the next cycle of a recurring item; nothing for any other frequency. */
  function NextCycle(e: Event): (r: seq<Event>)
    ensures |r| <= 1
    ensures |r| == 1 <==> Recurs(e)
  {
    match e.frequency
    case Named(Weekly) => [ShiftByDays(e, 7)]
    case Named(Biweekly) => [ShiftByDays(e, 14)]
    case Named(Weekdays) => [ShiftByDays(e, WeekdaysGap(StartDay(e)))]
    case _ => []
  }

  /**
   * The next cycle copies every field but `start` and `end`: weekly adds 7 days, biweekly
   * 14 days, weekdays the gap to the next Monday-to-Friday day, and `end` (when present)
   * moves by the same amount as `start`.  It recurs again and starts strictly later.
   */
  lemma NextCycleSpec(e: Event)
    requires Recurs(e) && e.start.Some?
    ensures var next := NextCycle(e)[0];
      && next == e.(start := next.start, end := next.end)
      && Recurs(next) && Dated(next) == Dated(e)
      && next.start.Some? && SortKey(e) < SortKey(next)
      && (next.end.Some? <==> e.end.Some?)
      && (e.end.Some? ==> next.end.value - e.end.value == next.start.value - e.start.value)
      && (e.frequency == Named(Weekly) ==> next.start.value == e.start.value + MsPerWeek)
      && (e.frequency == Named(Biweekly) ==> next.start.value == e.start.value + 2 * MsPerWeek)
      && (e.frequency == Named(Weekdays) ==>
            next.start.value == e.start.value + WeekdaysGap(Day(e.start.value)) * MsPerDay)
  {
  }

  /** The weekdays rule never lands on a weekend and skips only weekend days. */
  lemma WeekdaysNextCycle(e: Event)
    requires e.start.Some? && e.frequency == Named(Weekdays)
    ensures var next := NextCycle(e)[0].start.value;
      && Day(next) > Day(e.start.value)
      && !IsWeekend(Day(next))
      && forall day :: Day(e.start.value) < day < Day(next) ==> IsWeekend(day)
  {
    var d := WeekdaysGap(Day(e.start.value));
    ShiftDays(e.start.value, d);
  }

  /** True when the item starts strictly before the query instant (undated items never do). */
  predicate IsPast(e: Event, date: Instant)
  {
    e.start.Some? && e.start.value < date
  }

  /** The end lies on a later calendar day than the start. */
  predicate Spans(e: Event)
  {
    e.start.Some? && e.end.Some? && Day(e.end.value) > Day(e.start.value)
  }

  /** The next-day copy of a multi-day item: start one day later, the same end and, notably, the same frequency. */
  function Continuation(e: Event): Event
  {
    e.(start := if e.start.Some? then Some(e.start.value + MsPerDay) else None)
  }

  /** Pushing items onto the working set and re-sorting it with `sortEvents`. */
  function Requeue(s: seq<Event>, items: seq<Event>): seq<Event>
  {
    SortEvents(s + items)
  }

  /** Requeueing leaves the working set in order, holding exactly the old and the pushed items. */
  lemma RequeueSpec(s: seq<Event>, items: seq<Event>)
    ensures InOrder(Requeue(s, items))
    ensures multiset(Requeue(s, items)) == multiset(s) + multiset(items)
  {
    Sorting.SortBySpec(s + items, SortKey);
  }

  /** Everything one step pushes back into the working set for the popped item `e`. */
  function Pushed(e: Event, date: Instant): seq<Event>
  {
    NextCycle(e) + (if !IsPast(e, date) && Spans(e) then [Continuation(e)] else [])
  }

  datatype StepResult = StepResult(pending: seq<Event>, yielded: Option<Event>)

  /**
   * One iteration of the generator's `while (events.length)` loop: pop, push the next cycle,
   * skip if past, push the next-day continuation, yield if on or after the query day.  The
   * loop never runs on an empty working set; there the step changes nothing.
   */
  function Step(pending: seq<Event>, date: Instant): (r: StepResult)
  {
    if |pending| == 0 then StepResult(pending, None)
    else
      var e := pending[0];
      var afterCycle := AfterCycle(pending);
      if e.start.Some? && e.start.value < date then
        StepResult(afterCycle, None)
      else
        var afterSpan := if Spans(e) then Requeue(afterCycle, [Continuation(e)]) else afterCycle;
        if e.start.None? || Day(e.start.value) >= Day(date) then
          StepResult(afterSpan, Some(e))
        else
          StepResult(afterSpan, None)
  }

  /** The working set after popping the head and, unless it is once-only, requeueing its next cycle. */
  function AfterCycle(pending: seq<Event>): seq<Event>
    requires |pending| > 0
  {
    var e := pending[0];
    if e.frequency != Named(Once) then Requeue(pending[1..], NextCycle(e)) else pending[1..]
  }

  lemma AfterCyclePool(pending: seq<Event>)
    requires |pending| > 0
    ensures multiset(AfterCycle(pending)) == multiset(pending[1..]) + multiset(NextCycle(pending[0]))
  {
    RequeueSpec(pending[1..], NextCycle(pending[0]));
  }

  /**
   * What one step does: the popped item is yielded exactly when it is undated or starts at
   * or after the query instant (the calendar-day yield check never rejects an item the
   * past-skip let through), and the working set loses the popped item and gains exactly
   * the pushed ones.
   */
  lemma StepSpec(pending: seq<Event>, date: Instant)
    requires |pending| > 0
    ensures Step(pending, date).yielded == (if IsPast(pending[0], date) then None else Some(pending[0]))
    ensures multiset(Step(pending, date).pending) == multiset(pending[1..]) + multiset(Pushed(pending[0], date))
  {
    StepYield(pending, date);
    StepPool(pending, date);
  }

  lemma StepYield(pending: seq<Event>, date: Instant)
    requires |pending| > 0
    ensures Step(pending, date).yielded == (if IsPast(pending[0], date) then None else Some(pending[0]))
  {
    var e := pending[0];
    if e.start.Some? && date <= e.start.value {
      DayMonotone(date, e.start.value);
    }
  }

  lemma StepPool(pending: seq<Event>, date: Instant)
    requires |pending| > 0
    ensures multiset(Step(pending, date).pending) == multiset(pending[1..]) + multiset(Pushed(pending[0], date))
  {
    var e := pending[0];
    AfterCyclePool(pending);
    if !IsPast(e, date) && Spans(e) {
      StepPoolSpanning(pending, date);
    } else {
      StepPendingPlain(pending, date);
      assert Pushed(e, date) == NextCycle(e) + [];
    }
  }

  /** Without a continuation to push, a step leaves the working set as popping and requeueing the next cycle left it. */
  lemma StepPendingPlain(pending: seq<Event>, date: Instant)
    requires |pending| > 0 && (IsPast(pending[0], date) || !Spans(pending[0]))
    ensures Step(pending, date).pending == AfterCycle(pending)
  {
  }

  /** With a continuation to push, a step requeues it into what popping and requeueing the next cycle left. */
  lemma StepPendingSpanning(pending: seq<Event>, date: Instant)
    requires |pending| > 0 && !IsPast(pending[0], date) && Spans(pending[0])
    ensures Step(pending, date).pending == Requeue(AfterCycle(pending), [Continuation(pending[0])])
  {
  }

  lemma StepPoolSpanning(pending: seq<Event>, date: Instant)
    requires |pending| > 0 && !IsPast(pending[0], date) && Spans(pending[0])
    ensures multiset(Step(pending, date).pending) == multiset(AfterCycle(pending)) + multiset{Continuation(pending[0])}
  {
    StepPendingSpanning(pending, date);
    RequeueSpec(AfterCycle(pending), [Continuation(pending[0])]);
  }

  /** Every pushed item starts no earlier than the item just popped, and strictly later when that one is dated. */
  lemma PushedAreLater(e: Event, date: Instant)
    ensures forall x | x in Pushed(e, date) :: SortKey(e) <= SortKey(x)
    ensures e.start.Some? ==> forall x | x in Pushed(e, date) :: SortKey(e) < SortKey(x)
  {
  }

  /**
   * A recurring multi-day item that is not past pushes both its next cycle and a next-day
   * continuation; the continuation keeps the frequency, so it spawns a next cycle in its turn.
   */
  lemma RecurringSpanPushesBoth(e: Event, date: Instant)
    requires Recurs(e) && Spans(e) && !IsPast(e, date)
    ensures |Pushed(e, date)| == 2
    ensures Pushed(e, date)[0] == NextCycle(e)[0] && Pushed(e, date)[1] == Continuation(e)
    ensures Continuation(e).frequency == e.frequency
    ensures |NextCycle(Continuation(e))| == 1
  {
  }

  /** Everything the working set holds after a step comes from keys at least the popped one's. */
  lemma PoolAfterPopIsLater(pending: seq<Event>, date: Instant)
    requires |pending| > 0 && InOrder(pending)
    ensures forall x | x in pending[1..] + Pushed(pending[0], date) :: SortKey(pending[0]) <= SortKey(x)
  {
    var e := pending[0];
    var rest := pending[1..];
    PushedAreLater(e, date);
    forall x | x in rest + Pushed(e, date)
      ensures SortKey(e) <= SortKey(x)
    {
      if x in rest {
        var i :| 0 <= i < |rest| && rest[i] == x;
        assert pending[i + 1] == x;
      }
    }
  }

  /** A sequence whose elements all come from `a` inherits a lower bound on their keys. */
  lemma BoundedByMembers(b: seq<Event>, a: seq<Event>, lo: real)
    requires forall x | x in a :: lo <= SortKey(x)
    requires multiset(b) <= multiset(a)
    ensures forall x | x in b :: lo <= SortKey(x)
  {
    forall x | x in b
      ensures lo <= SortKey(x)
    {
      assert x in multiset(b);
      assert x in multiset(a);
    }
  }

  /** A step keeps the working set in order and never brings back anything earlier than the popped item. */
  lemma StepKeepsOrder(pending: seq<Event>, date: Instant)
    requires |pending| > 0 && InOrder(pending)
    ensures InOrder(Step(pending, date).pending)
    ensures forall x | x in Step(pending, date).pending :: SortKey(pending[0]) <= SortKey(x)
  {
    var e := pending[0];
    var rest := pending[1..];
    if e.frequency == Named(Once) && (IsPast(e, date) || !Spans(e)) {
      assert InOrder(rest);
    }
    RequeueSpec(rest, NextCycle(e));
    var afterCycle := if e.frequency != Named(Once) then Requeue(rest, NextCycle(e)) else rest;
    RequeueSpec(afterCycle, [Continuation(e)]);
    StepSpec(pending, date);
    PoolAfterPopIsLater(pending, date);
    BoundedByMembers(Step(pending, date).pending, pending[1..] + Pushed(e, date), SortKey(e));
  }

  datatype Trace = Trace(emitted: seq<Event>, pending: seq<Event>)

  /**
   * At most `fuel` iterations of a generator loop with the given step, stopping early when
   * the working set runs empty: the items yielded and the working set left over.
   */
  function Iterate(step: seq<Event> -> StepResult, pending: seq<Event>, fuel: nat): (t: Trace)
    ensures |t.emitted| <= fuel
    decreases fuel
  {
    if fuel == 0 || |pending| == 0 then Trace([], pending)
    else
      var r := step(pending);
      var rest := Iterate(step, r.pending, fuel - 1);
      Trace(ToSeq(r.yielded) + rest.emitted, rest.pending)
  }

  /** A run of at least one iteration is that step followed by the run from its working set. */
  lemma IterateCons(step: seq<Event> -> StepResult, pending: seq<Event>, fuel: nat)
    requires |pending| > 0 && fuel > 0
    ensures var r := step(pending);
      var rest := Iterate(step, r.pending, fuel - 1);
      Iterate(step, pending, fuel) == Trace(ToSeq(r.yielded) + rest.emitted, rest.pending)
  {
  }

  /** One more iteration appends that step's yield to the trace. */
  lemma {:induction false} IterateSnoc(step: seq<Event> -> StepResult, pending: seq<Event>, fuel: nat)
    ensures var t := Iterate(step, pending, fuel);
      Iterate(step, pending, fuel + 1) ==
        if |t.pending| == 0 then t
        else
          var r := step(t.pending);
          Trace(t.emitted + ToSeq(r.yielded), r.pending)
    decreases fuel
  {
    if fuel > 0 && |pending| > 0 {
      var r := step(pending);
      IterateSnoc(step, r.pending, fuel - 1);
      var t := Iterate(step, r.pending, fuel - 1);
      if |t.pending| > 0 {
        var r' := step(t.pending);
        assert ToSeq(r.yielded) + (t.emitted + ToSeq(r'.yielded))
            == (ToSeq(r.yielded) + t.emitted) + ToSeq(r'.yielded);
      }
    }
  }

  /** The generator's step for a fixed query instant. */
  function StepAt(date: Instant): seq<Event> -> StepResult
  {
    p => Step(p, date)
  }

  /** At most `fuel` iterations of `enumerateEventsFromDate(date)` from the working set `pending`. */
  function Run(pending: seq<Event>, date: Instant, fuel: nat): (t: Trace)
    ensures |t.emitted| <= fuel
  {
    Iterate(StepAt(date), pending, fuel)
  }

  /** One more iteration of the generator appends that iteration's yield. */
  lemma RunSnoc(pending: seq<Event>, date: Instant, fuel: nat)
    ensures var t := Run(pending, date, fuel);
      Run(pending, date, fuel + 1) ==
        if |t.pending| == 0 then t
        else
          var r := Step(t.pending, date);
          Trace(t.emitted + ToSeq(r.yielded), r.pending)
  {
    IterateSnoc(StepAt(date), pending, fuel);
  }

  /**
   * What the ordering argument needs of a step: from an ordered, non-empty working set it
   * yields nothing but the head, and leaves an ordered working set that holds nothing
   * earlier than the head.
   */
  ghost predicate KeepsOrder(step: seq<Event> -> StepResult)
  {
    forall p {:trigger step(p)} | |p| > 0 && InOrder(p) ::
      && (step(p).yielded.Some? ==> step(p).yielded.value == p[0])
      && InOrder(step(p).pending)
      && (forall x | x in step(p).pending :: SortKey(p[0]) <= SortKey(x))
  }

  lemma KeepsOrderAt(step: seq<Event> -> StepResult, p: seq<Event>)
    requires KeepsOrder(step) && |p| > 0 && InOrder(p)
    ensures step(p).yielded.Some? ==> step(p).yielded.value == p[0]
    ensures InOrder(step(p).pending)
    ensures forall x | x in step(p).pending :: SortKey(p[0]) <= SortKey(x)
  {
  }

  /** Putting the head (when it is yielded) in front of an ordered tail of later items keeps the order. */
  lemma PrependInOrder(y: Option<Event>, tail: seq<Event>, e: Event, lo: real)
    requires (y.Some? ==> y.value == e) && lo <= SortKey(e)
    requires InOrder(tail) && forall x | x in tail :: SortKey(e) <= SortKey(x)
    ensures InOrder(ToSeq(y) + tail)
    ensures forall x | x in ToSeq(y) + tail :: lo <= SortKey(x)
  {
    var h := ToSeq(y);
    var ys := h + tail;
    forall i, j | 0 <= i < j < |ys|
      ensures SortKey(ys[i]) <= SortKey(ys[j])
    {
      if |h| == 1 && i == 0 {
        assert ys[j] in tail;
      } else {
        assert ys[i] == tail[i - |h|] && ys[j] == tail[j - |h|];
      }
    }
  }

  /** An order-keeping step yields in non-decreasing key order, above any lower bound of the start. */
  lemma {:induction false} IterateInOrder(step: seq<Event> -> StepResult, pending: seq<Event>, fuel: nat, lo: real)
    requires KeepsOrder(step) && InOrder(pending)
    requires forall x | x in pending :: lo <= SortKey(x)
    ensures InOrder(Iterate(step, pending, fuel).emitted)
    ensures forall x | x in Iterate(step, pending, fuel).emitted :: lo <= SortKey(x)
    ensures InOrder(Iterate(step, pending, fuel).pending)
    decreases fuel
  {
    if fuel > 0 && |pending| > 0 {
      var e := pending[0];
      var r := step(pending);
      assert lo <= SortKey(e) by {
        assert e in pending;
      }
      KeepsOrderAt(step, pending);
      IterateInOrder(step, r.pending, fuel - 1, SortKey(e));
      var tail := Iterate(step, r.pending, fuel - 1);
      PrependInOrder(r.yielded, tail.emitted, e, lo);
      IterateCons(step, pending, fuel);
      assert Iterate(step, pending, fuel) == Trace(ToSeq(r.yielded) + tail.emitted, tail.pending);
    }
  }

  lemma StepAtKeepsOrder(date: Instant)
    ensures KeepsOrder(StepAt(date))
  {
    forall p | |p| > 0 && InOrder(p)
      ensures var r := StepAt(date)(p);
        && (r.yielded.Some? ==> r.yielded.value == p[0])
        && InOrder(r.pending)
        && (forall x | x in r.pending :: SortKey(p[0]) <= SortKey(x))
    {
      StepSpec(p, date);
      StepKeepsOrder(p, date);
    }
  }

  /**
   * The generator yields in non-decreasing `sortEvents` order, so undated items come out
   * first and nothing yielded is earlier than a lower bound of the working set.
   */
  lemma RunYieldsInOrder(pending: seq<Event>, date: Instant, fuel: nat, lo: real)
    requires InOrder(pending)
    requires forall x | x in pending :: lo <= SortKey(x)
    ensures InOrder(Run(pending, date, fuel).emitted)
    ensures forall x | x in Run(pending, date, fuel).emitted :: lo <= SortKey(x)
    ensures InOrder(Run(pending, date, fuel).pending)
  {
    StepAtKeepsOrder(date);
    IterateInOrder(StepAt(date), pending, fuel, lo);
  }

  predicate HasRecurring(s: seq<Event>)
  {
    exists x :: x in s && Recurs(x)
  }

  /** A sequence with the same elements as one holding a recurring item holds one too. */
  lemma RecurringSurvives(b: seq<Event>, a: seq<Event>, x: Event)
    requires x in a && Recurs(x) && multiset(a) <= multiset(b)
    ensures HasRecurring(b)
  {
    assert x in multiset(a);
    assert x in b;
  }

  /** A weekly, biweekly or weekdays item in the working set keeps it non-empty after a step. */
  lemma StepKeepsRecurring(pending: seq<Event>, date: Instant)
    requires |pending| > 0 && HasRecurring(pending)
    ensures HasRecurring(Step(pending, date).pending)
  {
    var pool := pending[1..] + Pushed(pending[0], date);
    StepPool(pending, date);
    assert multiset(pool) == multiset(Step(pending, date).pending);
    var x := PoolKeepsRecurring(pending, date);
    RecurringSurvives(Step(pending, date).pending, pool, x);
  }

  /** The popped item's successors or the remaining items still hold a recurring item. */
  lemma PoolKeepsRecurring(pending: seq<Event>, date: Instant) returns (x: Event)
    requires |pending| > 0 && HasRecurring(pending)
    ensures x in pending[1..] + Pushed(pending[0], date) && Recurs(x)
  {
    var y :| y in pending && Recurs(y);
    if Recurs(pending[0]) {
      RecurringIsRequeued(pending[0], date);
      x := NextCycle(pending[0])[0];
    } else {
      assert pending == [pending[0]] + pending[1..];
      x := y;
    }
  }

  /** The next cycle of a recurring item is pushed, and recurs too. */
  lemma RecurringIsRequeued(e: Event, date: Instant)
    requires Recurs(e)
    ensures NextCycle(e)[0] in Pushed(e, date) && Recurs(NextCycle(e)[0])
  {
  }

  ghost predicate KeepsRecurring(step: seq<Event> -> StepResult)
  {
    forall p {:trigger step(p)} | |p| > 0 && HasRecurring(p) :: HasRecurring(step(p).pending)
  }

  lemma {:induction false} IterateNeverEnds(step: seq<Event> -> StepResult, pending: seq<Event>, fuel: nat)
    requires KeepsRecurring(step) && HasRecurring(pending)
    ensures HasRecurring(Iterate(step, pending, fuel).pending)
    decreases fuel
  {
    if fuel > 0 && |pending| > 0 {
      var r := step(pending);
      assert HasRecurring(r.pending);
      IterateNeverEnds(step, r.pending, fuel - 1);
      IterateCons(step, pending, fuel);
      assert Iterate(step, pending, fuel).pending == Iterate(step, r.pending, fuel - 1).pending;
    }
  }

  /** So a stream holding a recurring item never ends, however many steps it takes. */
  lemma RecurringNeverEnds(pending: seq<Event>, date: Instant, fuel: nat)
    requires HasRecurring(pending)
    ensures HasRecurring(Run(pending, date, fuel).pending)
    ensures |Run(pending, date, fuel).pending| > 0
  {
    forall p | |p| > 0 && HasRecurring(p)
      ensures HasRecurring(StepAt(date)(p).pending)
    {
      StepKeepsRecurring(p, date);
    }
    IterateNeverEnds(StepAt(date), pending, fuel);
  }

  /** How many more steps an item can cost: one per calendar day it still spans. */
  function Weight(e: Event): nat
  {
    if Spans(e) then Day(e.end.value) - Day(e.start.value) + 1 else 1
  }

  function TotalWeight(s: seq<Event>): nat
  {
    Sorting.Total(s, Weight)
  }

  /** Requeueing adds the measure of the pushed items. */
  lemma RequeueTotal(s: seq<Event>, items: seq<Event>, f: Event -> nat)
    ensures Sorting.Total(Requeue(s, items), f) == Sorting.Total(s, f) + Sorting.Total(items, f)
  {
    Sorting.SortTotal(s + items, SortKey, f);
    Sorting.TotalAppend(s, items, f);
  }

  /** A step takes away the popped item's measure and adds that of the pushed items. */
  lemma StepTotal(pending: seq<Event>, date: Instant, f: Event -> nat)
    requires |pending| > 0
    ensures Sorting.Total(Step(pending, date).pending, f)
         == Sorting.Total(pending[1..], f) + Sorting.Total(Pushed(pending[0], date), f)
  {
    var e := pending[0];
    var rest := pending[1..];
    var cycle := NextCycle(e);
    var cont := if !IsPast(e, date) && Spans(e) then [Continuation(e)] else [];
    Sorting.TotalAppend(cycle, cont, f);
    var afterCycle := if e.frequency != Named(Once) then Requeue(rest, cycle) else rest;
    if e.frequency != Named(Once) {
      RequeueTotal(rest, cycle, f);
    } else {
      assert cycle == [];
    }
    assert Sorting.Total(afterCycle, f) == Sorting.Total(rest, f) + Sorting.Total(cycle, f);
    if cont != [] {
      RequeueTotal(afterCycle, cont, f);
    }
  }

  /** What a non-recurring item pushes weighs less than the item and does not recur. */
  lemma PushedWeighLess(e: Event, date: Instant)
    requires !Recurs(e)
    ensures TotalWeight(Pushed(e, date)) < Weight(e)
    ensures forall x | x in Pushed(e, date) :: !Recurs(x)
  {
    assert NextCycle(e) == [];
    if !IsPast(e, date) && Spans(e) {
      var c := Continuation(e);
      assert Pushed(e, date) == [c];
      ShiftDays(e.start.value, 1);
      assert [c][1..] == [];
      assert Sorting.Total([c], Weight) == Weight(c) + Sorting.Total([], Weight);
    } else {
      assert Pushed(e, date) == [];
    }
  }

  /** A sequence drawn from items that do not recur holds no recurring item. */
  lemma NoRecurringMembers(b: seq<Event>, a: seq<Event>)
    requires forall x | x in a :: !Recurs(x)
    requires multiset(b) <= multiset(a)
    ensures !HasRecurring(b)
  {
    forall x | x in b
      ensures !Recurs(x)
    {
      assert x in multiset(b);
      assert x in multiset(a);
    }
  }

  /** Without recurring items every step lowers the total weight of the working set. */
  lemma StepDrains(pending: seq<Event>, date: Instant)
    requires |pending| > 0 && !HasRecurring(pending)
    ensures !HasRecurring(Step(pending, date).pending)
    ensures TotalWeight(Step(pending, date).pending) < TotalWeight(pending)
  {
    var e := pending[0];
    var rest := pending[1..];
    var after := Step(pending, date).pending;
    assert e in pending;
    StepSpec(pending, date);
    PushedWeighLess(e, date);
    assert pending == [e] + rest;
    StepTotal(pending, date, Weight);
    assert forall x | x in rest + Pushed(e, date) :: !Recurs(x) by {
      assert forall x | x in rest :: x in pending;
    }
    NoRecurringMembers(after, rest + Pushed(e, date));
  }

  ghost predicate Drains(step: seq<Event> -> StepResult)
  {
    forall p {:trigger step(p)} | |p| > 0 && !HasRecurring(p) ::
      !HasRecurring(step(p).pending) && TotalWeight(step(p).pending) < TotalWeight(p)
  }

  lemma DrainsAt(step: seq<Event> -> StepResult, p: seq<Event>)
    requires Drains(step) && |p| > 0 && !HasRecurring(p)
    ensures !HasRecurring(step(p).pending)
    ensures TotalWeight(step(p).pending) < TotalWeight(p)
    ensures TotalWeight(p) > 0
  {
  }

  lemma {:induction false} IterateEnds(step: seq<Event> -> StepResult, pending: seq<Event>, fuel: nat)
    requires Drains(step) && !HasRecurring(pending)
    requires TotalWeight(pending) <= fuel
    ensures Iterate(step, pending, fuel).pending == []
    decreases fuel
  {
    if |pending| > 0 {
      var r := step(pending);
      DrainsAt(step, pending);
      IterateEnds(step, r.pending, fuel - 1);
      IterateCons(step, pending, fuel);
      assert Iterate(step, pending, fuel).pending == Iterate(step, r.pending, fuel - 1).pending;
    }
  }

  /** A stream with no recurring item ends within as many steps as its total weight. */
  lemma NonRecurringEnds(pending: seq<Event>, date: Instant, fuel: nat)
    requires !HasRecurring(pending)
    requires TotalWeight(pending) <= fuel
    ensures Run(pending, date, fuel).pending == []
  {
    forall p | |p| > 0 && !HasRecurring(p)
      ensures !HasRecurring(StepAt(date)(p).pending) && TotalWeight(StepAt(date)(p).pending) < TotalWeight(p)
    {
      StepDrains(p, date);
    }
    IterateEnds(StepAt(date), pending, fuel);
  }

  /** `n` copies of `e`, the k-th starting k days later; only `start` changes. */
  function DailyCopies(e: Event, n: nat): (r: seq<Event>)
    requires e.start.Some?
    ensures |r| == n
  {
    seq(n, k => e.(start := Some(e.start.value + k * MsPerDay)))
  }

  /** The daily copies are the item itself followed by the daily copies of its continuation. */
  lemma DailyCopiesCons(e: Event, n: nat)
    requires e.start.Some? && n > 0
    ensures DailyCopies(e, n) == [e] + DailyCopies(Continuation(e), n - 1)
  {
    var a, b := DailyCopies(e, n), [e] + DailyCopies(Continuation(e), n - 1);
    forall k | 0 <= k < n
      ensures a[k] == b[k]
    {
      if k > 0 {
        assert e.start.value + k * MsPerDay == (e.start.value + MsPerDay) + (k - 1) * MsPerDay;
      }
    }
  }

  /** A lone once-only item on or after the query instant that spans days is yielded and continued. */
  lemma StepLoneSpanning(e: Event, date: Instant)
    requires e.frequency == Named(Once) && !IsPast(e, date) && Spans(e)
    ensures Step([e], date) == StepResult([Continuation(e)], Some(e))
  {
    var c := Continuation(e);
    StepYield([e], date);
    StepPendingSpanning([e], date);
    assert AfterCycle([e]) == [] by {
      assert [e][1..] == [];
    }
    assert [] + [c] == [c];
    Sorting.SortBySingleton(c, SortKey);
    assert Step([e], date) == StepResult(Step([e], date).pending, Step([e], date).yielded);
  }

  /** A lone once-only item on or after the query instant that does not span days is yielded and gone. */
  lemma StepLoneSingleDay(e: Event, date: Instant)
    requires e.frequency == Named(Once) && !IsPast(e, date) && !Spans(e)
    ensures Step([e], date) == StepResult([], Some(e))
  {
    StepYield([e], date);
    StepPendingPlain([e], date);
    assert AfterCycle([e]) == [] by {
      assert [e][1..] == [];
    }
    assert Step([e], date) == StepResult(Step([e], date).pending, Step([e], date).yielded);
  }

  /** The run from a lone item whose first step yields it and leaves `next`. */
  lemma RunLone(e: Event, date: Instant, n: nat, next: seq<Event>)
    requires n > 0
    requires Step([e], date) == StepResult(next, Some(e))
    ensures Run([e], date, n) == Trace([e] + Run(next, date, n - 1).emitted, Run(next, date, n - 1).pending)
  {
    IterateCons(StepAt(date), [e], n);
  }

  /** The continuation starts one calendar day later, at the same time of day, and keeps everything else. */
  lemma ContinuationSpec(e: Event)
    requires e.start.Some?
    ensures var c := Continuation(e);
      && c == e.(start := c.start)
      && c.start == Some(e.start.value + MsPerDay)
      && Day(c.start.value) == Day(e.start.value) + 1
      && TimeOfDay(c.start.value) == TimeOfDay(e.start.value)
  {
    ShiftDays(e.start.value, 1);
  }

  /**
   * A once-only item that starts at or after the query instant yields exactly one occurrence
   * per calendar day from its start day through its end day, each differing from it only in
   * a start moved on by whole days, and then the stream ends.
   */
  lemma {:induction false} MultiDaySpan(e: Event, date: Instant, n: nat)
    requires e.frequency == Named(Once) && e.start.Some? && e.end.Some?
    requires date <= e.start.value && Day(e.start.value) <= Day(e.end.value)
    requires n == Day(e.end.value) - Day(e.start.value) + 1
    ensures Run([e], date, n) == Trace(DailyCopies(e, n), [])
    decreases n
  {
    if n > 1 {
      var c := Continuation(e);
      ContinuationSpec(e);
      StepLoneSpanning(e, date);
      RunLone(e, date, n, [c]);
      MultiDaySpan(c, date, n - 1);
      DailyCopiesCons(e, n);
    } else {
      StepLoneSingleDay(e, date);
      RunLone(e, date, n, []);
      assert Run([], date, 0) == Trace([], []);
      assert [e] == DailyCopies(e, 1);
    }
  }

  /**
   * The past-skip comes before the span split: a once-only item that started before the
   * query instant yields nothing, even on the later days it spans.
   */
  lemma PastSpanYieldsNothing(e: Event, date: Instant, fuel: nat)
    requires e.frequency == Named(Once) && IsPast(e, date) && fuel > 0
    ensures Run([e], date, fuel) == Trace([], [])
  {
    assert [e][1..] == [];
    assert Step([e], date) == StepResult([], None);
    IterateCons(StepAt(date), [e], fuel);
  }

  /** The cycles of a recurring item: the item, its next cycle, that one's next cycle, ... */
  function Cycles(e: Event, n: nat): (r: seq<Event>)
    requires Recurs(e)
    ensures |r| == n
    decreases n
  {
    if n == 0 then [] else [e] + Cycles(NextCycle(e)[0], n - 1)
  }

  /**
   * A lone recurring item that does not span days and starts at or after the query instant
   * yields its cycles one after another.
   */
  lemma {:induction false} RecurringRun(e: Event, date: Instant, n: nat)
    requires Recurs(e) && e.start.Some? && !Spans(e) && date <= e.start.value
    ensures Run([e], date, n).emitted == Cycles(e, n)
    decreases n
  {
    if n > 0 {
      var next := NextCycle(e)[0];
      StepLoneRecurring(e, date);
      RunLone(e, date, n, [next]);
      NextCycleKeepsSingleDay(e);
      RecurringRun(next, date, n - 1);
      assert Run([e], date, n).emitted == [e] + Run([next], date, n - 1).emitted;
      assert Cycles(e, n) == [e] + Cycles(next, n - 1);
    }
  }

  /** A lone recurring item on or after the query instant that does not span days is yielded and replaced by its next cycle. */
  lemma StepLoneRecurring(e: Event, date: Instant)
    requires Recurs(e) && !Spans(e) && !IsPast(e, date)
    ensures Step([e], date) == StepResult([NextCycle(e)[0]], Some(e))
  {
    StepYield([e], date);
    StepPendingPlain([e], date);
    AfterCycleLone(e);
    assert Step([e], date) == StepResult(Step([e], date).pending, Step([e], date).yielded);
  }

  /** Popping a lone recurring item leaves just its next cycle. */
  lemma AfterCycleLone(e: Event)
    requires Recurs(e)
    ensures AfterCycle([e]) == [NextCycle(e)[0]]
  {
    var next := NextCycle(e)[0];
    assert [e][1..] == [];
    assert AfterCycle([e]) == Requeue([], [next]);
    assert [] + [next] == [next];
    Sorting.SortBySingleton(next, SortKey);
  }

  /** The next cycle moves start and end by whole days, so it spans days exactly when the item does. */
  lemma NextCycleKeepsSingleDay(e: Event)
    requires Recurs(e) && e.start.Some?
    ensures Recurs(NextCycle(e)[0]) && Spans(NextCycle(e)[0]) == Spans(e)
    ensures NextCycle(e)[0].start.Some? && e.start.value < NextCycle(e)[0].start.value
    ensures Day(e.start.value) < Day(NextCycle(e)[0].start.value)
  {
    var next := NextCycle(e)[0];
    NextCycleSpec(e);
    var d := if e.frequency == Named(Weekly) then 7
      else if e.frequency == Named(Biweekly) then 14
      else WeekdaysGap(Day(e.start.value));
    assert next.start.value == e.start.value + d * MsPerDay;
    ShiftDays(e.start.value, d);
    if e.end.Some? {
      ShiftDays(e.end.value, d);
    }
  }

  /** Shifting by `a` days and then by `b` days shifts by `a + b` days. */
  lemma ShiftByDaysAdd(e: Event, a: int, b: int)
    ensures ShiftByDays(ShiftByDays(e, a), b) == ShiftByDays(e, a + b)
  {
    assert a * MsPerDay + b * MsPerDay == (a + b) * MsPerDay;
  }

  /** Weekly and biweekly cycles advance by exactly one and two weeks, ends included. */
  lemma {:induction false} FixedPeriodCycles(e: Event, n: nat, k: nat)
    requires e.frequency in {Named(Weekly), Named(Biweekly)} && k < n
    ensures var weeks := if e.frequency == Named(Weekly) then 1 else 2;
      Cycles(e, n)[k] == ShiftByDays(e, 7 * weeks * k)
    decreases k
  {
    var weeks := if e.frequency == Named(Weekly) then 1 else 2;
    if k == 0 {
      assert ShiftByDays(e, 0) == e;
    } else {
      var next := NextCycle(e)[0];
      assert next == ShiftByDays(e, 7 * weeks);
      assert Cycles(e, n)[k] == Cycles(next, n - 1)[k - 1];
      FixedPeriodCycles(next, n - 1, k - 1);
      ShiftByDaysAdd(e, 7 * weeks, 7 * weeks * (k - 1));
      assert 7 * weeks + 7 * weeks * (k - 1) == 7 * weeks * k;
    }
  }

  /** Every weekdays cycle after the first falls on Monday to Friday. */
  lemma {:induction false} WeekdaysCyclesAvoidWeekends(e: Event, n: nat, k: nat)
    requires e.start.Some? && e.frequency == Named(Weekdays) && 0 < k < n
    ensures Cycles(e, n)[k].start.Some?
    ensures !IsWeekend(Day(Cycles(e, n)[k].start.value))
    decreases k
  {
    var next := NextCycle(e)[0];
    NextCycleSpec(e);
    if k == 1 {
      WeekdaysNextCycle(e);
    } else {
      WeekdaysCyclesAvoidWeekends(next, n - 1, k - 1);
    }
  }
}
