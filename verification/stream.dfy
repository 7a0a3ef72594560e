/**
 * The generator object returned by `enumerateEventsFromDate(date)`, seen from outside:
 * each `next()` runs the loop until it yields an item or the working set runs empty.
 *
 * A pull always finishes: a step that yields nothing popped an item that starts before
 * the query instant, and what such a step pushes back is closer to the query day than
 * the item it replaces (`Lateness` below drops).  `Take` is the list of the first `n`
 * pulled items, the reference the result cache is measured against.
 */
module Stream {
  import opened Wrappers
  import opened Time
  import opened Events
  import opened Engine
  import Sorting

  /**
   * How many more non-yielding steps an item can cause: none unless it starts before the
   * query instant; one if it does not recur; otherwise one per calendar day its cycles
   * still have to cover, plus one.
   */
  function Lateness(e: Event, date: Instant): nat
  {
    if IsPast(e, date) then
      DayMonotone(e.start.value, date);
      if Recurs(e) then Day(date) - Day(e.start.value) + 2 else 1
    else 0
  }

  function LatenessAt(date: Instant): Event -> nat
  {
    e => Lateness(e, date)
  }

  /** The next cycle of a past item is less late than the item, and it is all a past item pushes. */
  lemma PushedLessLate(e: Event, date: Instant)
    requires IsPast(e, date)
    ensures Sorting.Total(Pushed(e, date), LatenessAt(date)) < Lateness(e, date)
  {
    var f := LatenessAt(date);
    assert Pushed(e, date) == NextCycle(e) + [];
    if Recurs(e) {
      var next := NextCycle(e)[0];
      NextCycleKeepsSingleDay(e);
      assert NextCycle(e) == [next];
      assert Sorting.Total([next], f) == f(next) + Sorting.Total([], f);
    } else {
      assert NextCycle(e) == [];
    }
  }

  /** A step that yields nothing lowers the total lateness of the working set. */
  lemma StepLowersLateness(pending: seq<Event>, date: Instant)
    requires |pending| > 0 && Step(pending, date).yielded.None?
    ensures Sorting.Total(Step(pending, date).pending, LatenessAt(date)) < Sorting.Total(pending, LatenessAt(date))
  {
    StepYield(pending, date);
    PushedLessLate(pending[0], date);
    StepTotal(pending, date, LatenessAt(date));
  }

  /**
   * One `next()` on the working set: steps until one yields, or until nothing is left
   * (then the generator is done and yields nothing).
   */
  function Pull(pending: seq<Event>, date: Instant): StepResult
    decreases Sorting.Total(pending, LatenessAt(date))
  {
    if |pending| == 0 then StepResult([], None)
    else
      var r := Step(pending, date);
      if r.yielded.Some? then r
      else
        StepLowersLateness(pending, date);
        Pull(r.pending, date)
  }

  /** A pull that finds nothing to yield leaves the generator finished. */
  lemma {:induction false} PullDone(pending: seq<Event>, date: Instant)
    ensures Pull(pending, date).yielded.None? ==> Pull(pending, date).pending == []
    decreases Sorting.Total(pending, LatenessAt(date))
  {
    if |pending| > 0 {
      var r := Step(pending, date);
      if r.yielded.None? {
        StepLowersLateness(pending, date);
        PullDone(r.pending, date);
      }
    }
  }

  /** A pull is a run of the generator loop: some number of steps that yield exactly the pulled item. */
  lemma {:induction false} PullIsRun(pending: seq<Event>, date: Instant) returns (k: nat)
    ensures Run(pending, date, k) == Trace(ToSeq(Pull(pending, date).yielded), Pull(pending, date).pending)
    decreases Sorting.Total(pending, LatenessAt(date))
  {
    if |pending| == 0 {
      k := 0;
    } else {
      var r := Step(pending, date);
      IterateCons(StepAt(date), pending, 1);
      if r.yielded.Some? {
        k := 1;
        assert Run(pending, date, 1) == Trace(ToSeq(r.yielded) + [], r.pending);
      } else {
        StepLowersLateness(pending, date);
        var j := PullIsRun(r.pending, date);
        k := j + 1;
        IterateCons(StepAt(date), pending, k);
        assert Run(pending, date, k) == Trace([] + Run(r.pending, date, j).emitted, Run(r.pending, date, j).pending);
      }
    }
  }

  /** A pull never yields an item that starts before the query instant. */
  lemma {:induction false} PullNotPast(pending: seq<Event>, date: Instant)
    ensures Pull(pending, date).yielded.Some? ==> !IsPast(Pull(pending, date).yielded.value, date)
    decreases Sorting.Total(pending, LatenessAt(date))
  {
    if |pending| > 0 {
      var r := Step(pending, date);
      StepYield(pending, date);
      if r.yielded.None? {
        StepLowersLateness(pending, date);
        PullNotPast(r.pending, date);
      }
    }
  }

  /**
   * From an ordered working set a pull yields an item no earlier than any lower bound of
   * the set, and leaves an ordered set whose items are all at or after the yielded one.
   */
  lemma {:induction false} PullInOrder(pending: seq<Event>, date: Instant, lo: real)
    requires InOrder(pending) && forall x | x in pending :: lo <= SortKey(x)
    ensures var r := Pull(pending, date);
      && InOrder(r.pending)
      && (forall x | x in r.pending :: lo <= SortKey(x))
      && (r.yielded.Some? ==> lo <= SortKey(r.yielded.value))
      && (r.yielded.Some? ==> forall x | x in r.pending :: SortKey(r.yielded.value) <= SortKey(x))
    decreases Sorting.Total(pending, LatenessAt(date))
  {
    if |pending| > 0 {
      var e := pending[0];
      var r := Step(pending, date);
      assert lo <= SortKey(e) by {
        assert e in pending;
      }
      StepYield(pending, date);
      StepKeepsOrder(pending, date);
      if r.yielded.None? {
        StepLowersLateness(pending, date);
        PullInOrder(r.pending, date, SortKey(e));
      }
    }
  }

  /** While a weekly, biweekly or weekdays item is present, a pull always yields something and the item stays. */
  lemma {:induction false} PullRecurring(pending: seq<Event>, date: Instant)
    requires HasRecurring(pending)
    ensures Pull(pending, date).yielded.Some?
    ensures HasRecurring(Pull(pending, date).pending)
    decreases Sorting.Total(pending, LatenessAt(date))
  {
    var x :| x in pending && Recurs(x);
    var r := Step(pending, date);
    StepKeepsRecurring(pending, date);
    if r.yielded.None? {
      StepLowersLateness(pending, date);
      PullRecurring(r.pending, date);
    }
  }

  /** Without recurring items a pull on a non-empty working set lowers its total weight. */
  lemma {:induction false} PullDrains(pending: seq<Event>, date: Instant)
    requires |pending| > 0 && !HasRecurring(pending)
    ensures !HasRecurring(Pull(pending, date).pending)
    ensures TotalWeight(Pull(pending, date).pending) < TotalWeight(pending)
    decreases Sorting.Total(pending, LatenessAt(date))
  {
    var r := Step(pending, date);
    StepDrains(pending, date);
    if r.yielded.None? && |r.pending| > 0 {
      StepLowersLateness(pending, date);
      PullDrains(r.pending, date);
    }
  }

  /** The generator: the query instant it was started with and its private working set. */
  datatype Gen = Gen(date: Instant, pending: seq<Event>)

  /** The outcome of `next()`: the yielded item (none when done) and the generator after it. */
  datatype Pulled = Pulled(value: Option<Event>, gen: Gen)

  /** `enumerateEventsFromDate(date)` over the parsed events: it works on a copy of them. */
  function Start(parsed: seq<Event>, date: Instant): Gen
  {
    Gen(date, parsed)
  }

  function Next(g: Gen): (p: Pulled)
  {
    var r := Pull(g.pending, g.date);
    Pulled(r.yielded, Gen(g.date, r.pending))
  }

  /** `next()` on a finished generator is done again and changes nothing; a `next()` that is done leaves it finished. */
  lemma NextDone(g: Gen)
    ensures g.pending == [] ==> Next(g) == Pulled(None, g)
    ensures Next(g).value.None? ==> Next(g).gen.pending == []
    ensures Next(g).gen.date == g.date
  {
    PullDone(g.pending, g.date);
  }

  /** A list of pulled items and the generator after the last pull. */
  datatype Taken = Taken(items: seq<Event>, gen: Gen)

  /** The first `n` items of the stream, fewer if it ends first, and the generator after them. */
  function Take(g: Gen, n: nat): (t: Taken)
    ensures |t.items| <= n
    decreases n
  {
    if n == 0 then Taken([], g)
    else
      var p := Next(g);
      if p.value.None? then Taken([], p.gen)
      else
        var t := Take(p.gen, n - 1);
        Taken([p.value.value] + t.items, t.gen)
  }

  /** One more pull appended to a list of pulled items. */
  function Extend(t: Taken): Taken
  {
    var p := Next(t.gen);
    Taken(t.items + ToSeq(p.value), p.gen)
  }

  /** Taking one more item is taking `n` and pulling once more. */
  lemma {:induction false} TakeSnoc(g: Gen, n: nat)
    ensures Take(g, n + 1) == Extend(Take(g, n))
    decreases n
  {
    var p := Next(g);
    NextDone(g);
    if n == 0 {
      assert Take(g, 1) == Taken([] + ToSeq(p.value), p.gen);
    } else if p.value.None? {
      NextDone(p.gen);
      assert Take(g, n) == Taken([], p.gen);
      assert Extend(Taken([], p.gen)) == Taken([] + [], p.gen);
    } else {
      var v := p.value.value;
      TakeSnoc(p.gen, n - 1);
      var t := Take(p.gen, n - 1);
      var q := Next(t.gen);
      assert Take(g, n) == Taken([v] + t.items, t.gen);
      assert Take(p.gen, n) == Taken(t.items + ToSeq(q.value), q.gen);
      assert [v] + (t.items + ToSeq(q.value)) == ([v] + t.items) + ToSeq(q.value);
    }
  }

  /** The generator keeps the instant it was started with. */
  lemma {:induction false} TakeDate(g: Gen, n: nat)
    ensures Take(g, n).gen.date == g.date
    decreases n
  {
    if n > 0 {
      NextDone(g);
      TakeDate(Next(g).gen, n - 1);
    }
  }

  /** A stream that delivered fewer items than asked for is finished. */
  lemma {:induction false} TakeShortEnded(g: Gen, n: nat)
    requires |Take(g, n).items| < n
    ensures Take(g, n).gen.pending == []
    decreases n
  {
    var p := Next(g);
    NextDone(g);
    if p.value.Some? {
      TakeShortEnded(p.gen, n - 1);
    }
  }

  /** Once the stream ran short, asking for more items changes nothing. */
  lemma {:induction false} TakeStops(g: Gen, j: nat, m: nat)
    requires |Take(g, j).items| < j <= m
    ensures Take(g, m) == Take(g, j)
    decreases m
  {
    if m > j {
      TakeStops(g, j, m - 1);
      TakeSnoc(g, m - 1);
      var t := Take(g, j);
      TakeShortEnded(g, j);
      NextDone(t.gen);
      assert Extend(t) == Taken(t.items + [], t.gen);
    }
  }

  /**
   * Asking for fewer items gives a prefix of asking for more: the first `n` items, or all of
   * them when the stream has fewer.
   */
  lemma {:induction false} TakePrefix(g: Gen, n: nat, m: nat)
    requires n <= m
    ensures Take(g, n).items <= Take(g, m).items
    ensures |Take(g, n).items| == n || Take(g, n).items == Take(g, m).items
    decreases n
  {
    if n > 0 {
      var p := Next(g);
      if p.value.Some? {
        TakePrefix(p.gen, n - 1, m - 1);
      }
    }
  }

  /** The items yielded are in non-decreasing `sortEvents` order and none starts before the query instant. */
  lemma {:induction false} TakeInOrder(g: Gen, n: nat, lo: real)
    requires InOrder(g.pending) && forall x | x in g.pending :: lo <= SortKey(x)
    ensures InOrder(Take(g, n).items)
    ensures forall x | x in Take(g, n).items :: lo <= SortKey(x) && !IsPast(x, g.date)
    decreases n
  {
    if n > 0 {
      var p := Next(g);
      PullInOrder(g.pending, g.date, lo);
      PullNotPast(g.pending, g.date);
      if p.value.Some? {
        var v := p.value.value;
        TakeInOrder(p.gen, n - 1, SortKey(v));
        var t := Take(p.gen, n - 1);
        Sorting.SortedConsBound(v, t.items, SortKey);
      }
    }
  }

  /** With a weekly, biweekly or weekdays item present the stream delivers every item asked for. */
  lemma {:induction false} TakeRecurring(g: Gen, n: nat)
    requires HasRecurring(g.pending)
    ensures |Take(g, n).items| == n
    decreases n
  {
    if n > 0 {
      PullRecurring(g.pending, g.date);
      TakeRecurring(Next(g).gen, n - 1);
    }
  }

  /** Without one the stream holds at most as many items as the total weight of the working set, and then it is finished. */
  lemma {:induction false} TakeNonRecurring(g: Gen, n: nat)
    requires !HasRecurring(g.pending)
    ensures |Take(g, n).items| <= TotalWeight(g.pending)
    ensures TotalWeight(g.pending) <= n ==> Take(g, n).gen.pending == []
    decreases n
  {
    if n > 0 {
      var p := Next(g);
      NextDone(g);
      if |g.pending| > 0 {
        PullDrains(g.pending, g.date);
        if p.value.Some? {
          TakeNonRecurring(p.gen, n - 1);
        }
      }
    }
  }
}
