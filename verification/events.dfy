/**
 * The event record that the validator produces and the occurrence engine consumes
 * (the `Event` type inferred from `eventSchema`).
 */
module Events {
  import opened Wrappers
  import opened Time
  import Sorting

  /** The eight frequency names the schema accepts. */
  datatype Kind = Once | Daily | Weekly | Biweekly | Weekdays | Monthly | Annually | Floating

  datatype DayName = Sunday | Monday | Tuesday | Wednesday | Thursday | Friday | Saturday
  datatype WeekOrdinal = First | Second | Third | Fourth | Last
  datatype MonthName = January | February | March | April | May | June
                     | July | August | September | October | November | December

  /**
   * A validated frequency: the bare string form (`frequency: weekly`), the object form
   * (`frequency: {kind: weekly}`), or the floating rule with its three extra fields.
   * The engine compares frequencies with `===` against strings, so the object forms
   * never recur and never equal the string `'once'`.
   */
  datatype Frequency =
    | Named(kind: Kind)
    | Tagged(tag: Kind)
    | FloatingRule(weekday: DayName, week: WeekOrdinal, month: MonthName)

  datatype Event = Event(
    name: string,
    priority: real,
    location: Option<string>,
    start: Option<Instant>,
    end: Option<Instant>,
    frequency: Frequency,
    tags: seq<string>)

  /** The frequencies for which the engine spawns a next cycle. */
  predicate Recurs(e: Event)
  {
    e.frequency in {Named(Weekly), Named(Biweekly), Named(Weekdays)}
  }

  /**
   * The two guarantees the engine relies on ("the schema ensures ..."): an event whose
   * frequency is not the string `'once'` has a start, and so does an event with an end.
   */
  predicate Dated(e: Event)
  {
    && (e.frequency != Named(Once) ==> e.start.Some?)
    && (e.end.Some? ==> e.start.Some?)
  }

  predicate AllDated(s: seq<Event>)
  {
    forall x | x in s :: Dated(x)
  }

  /** The key `sortEvents` sorts by: `start.valueOf()`, or -1 for an undated item. */
  function SortKey(e: Event): real
  {
    (if e.start.Some? then e.start.value else -1) as real
  }

  /** `sortEvents`: the stable ascending sort by `SortKey`. */
  function SortEvents(s: seq<Event>): seq<Event>
  {
    Sorting.SortBy(s, SortKey)
  }

  predicate InOrder(s: seq<Event>)
  {
    Sorting.SortedBy(s, SortKey)
  }

  /**
   * After `sortEvents` the items are in ascending key order, nothing is lost or added, and
   * items with equal keys keep their relative order.
   */
  lemma SortEventsSpec(s: seq<Event>, k: real)
    ensures InOrder(SortEvents(s))
    ensures multiset(SortEvents(s)) == multiset(s)
    ensures Sorting.Block(SortEvents(s), SortKey, k) == Sorting.Block(s, SortKey, k)
  {
    Sorting.SortBySpec(s, SortKey);
    Sorting.SortByStable(s, SortKey, k);
  }

  /** `sortEvents` is the stable sort: the only ordered sequence that keeps every key's items in input order. */
  lemma SortEventsIsTheStableSort(s: seq<Event>, r: seq<Event>)
    requires InOrder(r)
    requires forall k :: Sorting.Block(r, SortKey, k) == Sorting.Block(s, SortKey, k)
    ensures r == SortEvents(s)
  {
    Sorting.SortByIsTheStableSort(s, r, SortKey);
  }

  /**
   * An undated item sorts strictly before every item dated from the epoch on, but an item
   * dated before 1969-12-31T23:59:59.999 sorts before it.
   */
  lemma UndatedKeyPosition(todo: Event, e: Event)
    requires todo.start.None? && e.start.Some?
    ensures 0 <= e.start.value ==> SortKey(todo) < SortKey(e)
    ensures e.start.value < -1 ==> SortKey(e) < SortKey(todo)
  {
  }
}
