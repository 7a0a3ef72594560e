/**
 * `groupAndCleanEvents`: the enumerated occurrences are bucketed by calendar day (undated
 * ones under "TODO"), turned into display summaries, sorted by descending priority inside
 * each bucket, and the buckets sorted by ascending date with "TODO" read as 1970-01-01.
 *
 * Day keys are calendar-day numbers rather than `toDateString` text, and a displayed time
 * is the instant it shows together with whether the zone name is printed.
 */
module Grouping {
  import opened Wrappers
  import opened Time
  import opened Events
  import Sorting

  datatype DayKey = Todo | OnDay(day: int)

  /** The bucket of an occurrence: the day of its start, or "TODO" when it has none. */
  function KeyOf(e: Event): DayKey
  {
    if e.start.Some? then OnDay(Day(e.start.value)) else Todo
  }

  /** The date a bucket sorts by: the bucket's midnight, with "TODO" read as the epoch. */
  function KeyDate(k: DayKey): real
  {
    match k
    case Todo => 0.0
    case OnDay(d) => StartOfDay(d) as real
  }

  /** Dated buckets are ordered by day, and "TODO" ties with 1970-01-01: after earlier days, before later ones. */
  lemma KeyDateOrder(a: int, b: int)
    ensures KeyDate(OnDay(a)) <= KeyDate(OnDay(b)) <==> a <= b
    ensures KeyDate(Todo) == KeyDate(OnDay(0))
    ensures KeyDate(OnDay(a)) < KeyDate(Todo) <==> a < 0
  {
    assert StartOfDay(a) - StartOfDay(b) == (a - b) * MsPerDay;
  }

  /** `getTime(date, shortened)`: the instant shown, and whether the zone name follows it. */
  datatype TimeText = TimeText(at: Instant, withZone: bool)

  /** `EventSummary`. */
  datatype Summary = Summary(
    name: string,
    priority: real,
    location: Option<string>,
    startTime: Option<TimeText>,
    endTime: Option<TimeText>,
    tags: seq<string>)

  /** The summary of one occurrence: a start or end whose hour and minute are both zero shows no time. */
  function Summarize(e: Event): Summary
  {
    var hasStart := e.start.Some? && HasClockTime(e.start.value);
    var hasEnd := e.end.Some? && HasClockTime(e.end.value);
    Summary(e.name, e.priority, e.location,
      if hasStart then Some(TimeText(e.start.value, !hasEnd)) else None,
      if hasEnd then Some(TimeText(e.end.value, true)) else None,
      e.tags)
  }

  /**
   * A start or end time is shown exactly when it exists and its hour or minute is not zero.
   * The end time carries the zone name; the start time carries it only when no end time is
   * shown.  Name, priority, location and tags are copied.
   */
  lemma SummarizeSpec(e: Event)
    ensures var s := Summarize(e);
      && s.name == e.name && s.priority == e.priority && s.location == e.location && s.tags == e.tags
      && (s.startTime.Some? <==> e.start.Some? && (Hour(e.start.value) != 0 || Minute(e.start.value) != 0))
      && (s.endTime.Some? <==> e.end.Some? && (Hour(e.end.value) != 0 || Minute(e.end.value) != 0))
      && (s.startTime.Some? ==> s.startTime.value.at == e.start.value && (s.startTime.value.withZone <==> s.endTime.None?))
      && (s.endTime.Some? ==> s.endTime.value == TimeText(e.end.value, true))
  {
    if e.start.Some? {
      ClockTimeIsHourOrMinute(e.start.value);
    }
    if e.end.Some? {
      ClockTimeIsHourOrMinute(e.end.value);
    }
  }

  datatype Group = Group(key: DayKey, items: seq<Summary>)

  /** The distinct bucket keys of the occurrences, in order of first appearance (`Object.keys` order). */
  function Keys(s: seq<Event>): seq<DayKey>
    decreases |s|
  {
    if |s| == 0 then []
    else
      var ks := Keys(s[..|s| - 1]);
      var k := KeyOf(s[|s| - 1]);
      if k in ks then ks else ks + [k]
  }

  /** The bucket keys of the occurrences, as a set. */
  function KeySet(s: seq<Event>): set<DayKey>
  {
    set e | e in s :: KeyOf(e)
  }

  predicate DistinctKeys(ks: seq<DayKey>)
  {
    forall i, j :: 0 <= i < j < |ks| ==> ks[i] != ks[j]
  }

  /** The keys are exactly those of the occurrences, each listed once. */
  lemma {:induction false} KeysSpec(s: seq<Event>)
    ensures forall k :: k in Keys(s) <==> k in KeySet(s)
    ensures DistinctKeys(Keys(s))
    decreases |s|
  {
    if |s| > 0 {
      var front, last := s[..|s| - 1], s[|s| - 1];
      KeysSpec(front);
      assert s == front + [last];
      assert KeySet(s) == KeySet(front) + {KeyOf(last)};
    }
  }

  /** The summaries of the occurrences in bucket `k`, in their order. */
  function Bucket(s: seq<Event>, k: DayKey): seq<Summary>
    decreases |s|
  {
    if |s| == 0 then []
    else Bucket(s[..|s| - 1], k) + (if KeyOf(s[|s| - 1]) == k then [Summarize(s[|s| - 1])] else [])
  }

  /** A key no occurrence carries has an empty bucket. */
  lemma {:induction false} BucketOfAbsentKey(s: seq<Event>, k: DayKey)
    requires k !in KeySet(s)
    ensures Bucket(s, k) == []
    decreases |s|
  {
    if |s| > 0 {
      var front := s[..|s| - 1];
      assert KeySet(front) <= KeySet(s);
      BucketOfAbsentKey(front, k);
    }
  }

  function NegPriority(s: Summary): real
  {
    -s.priority
  }

  /** The in-bucket sort by descending priority: stable, so equal priorities keep their order. */
  function ByPriority(s: seq<Summary>): seq<Summary>
  {
    Sorting.SortBy(s, NegPriority)
  }

  predicate PriorityDescending(s: seq<Summary>)
  {
    forall i, j :: 0 <= i < j < |s| ==> s[i].priority >= s[j].priority
  }

  function GroupDate(g: Group): real
  {
    KeyDate(g.key)
  }

  /** The buckets in first-appearance order, each sorted by priority. */
  function Unsorted(events: seq<Event>): seq<Group>
  {
    var ks := Keys(events);
    seq(|ks|, j requires 0 <= j < |ks| => Group(ks[j], ByPriority(Bucket(events, ks[j]))))
  }

  /** `groupAndCleanEvents`: the buckets, stably sorted by date. */
  function GroupAndClean(events: seq<Event>): seq<Group>
  {
    Sorting.SortBy(Unsorted(events), GroupDate)
  }

  /** Two equal entries at different positions occur at least twice. */
  lemma TwoPositions<T>(s: seq<T>, i: int, j: int)
    requires 0 <= i < j < |s| && s[i] == s[j]
    ensures multiset(s)[s[i]] >= 2
  {
    assert s == s[..j] + [s[j]] + s[j + 1..];
    assert s[i] in s[..j];
  }

  /** In a sequence without repeated keys every group occurs at most once. */
  lemma {:induction false} AtMostOnce(g: seq<Group>, x: Group)
    requires forall i, j :: 0 <= i < j < |g| ==> g[i].key != g[j].key
    ensures multiset(g)[x] <= 1
    decreases |g|
  {
    if |g| > 0 {
      var front := g[..|g| - 1];
      assert g == front + [g[|g| - 1]];
      AtMostOnce(front, x);
      if x == g[|g| - 1] {
        forall i | 0 <= i < |front|
          ensures front[i] != x
        {
          assert g[i].key != g[|g| - 1].key;
        }
      }
    }
  }

  /** Every group of the unsorted list is the prioritised bucket of one of the keys. */
  lemma UnsortedMember(events: seq<Event>, x: Group)
    requires x in Unsorted(events)
    ensures x.key in Keys(events) && x.items == ByPriority(Bucket(events, x.key))
  {
  }

  /** The sorted groups are the unsorted ones, rearranged. */
  lemma SortedGroupsMembers(events: seq<Event>)
    ensures var r := GroupAndClean(events);
      && multiset(r) == multiset(Unsorted(events))
      && (forall j :: 0 <= j < |r| ==> r[j] in Unsorted(events))
      && (forall i, j :: 0 <= i < j < |r| ==> KeyDate(r[i].key) <= KeyDate(r[j].key))
  {
    var r := GroupAndClean(events);
    Sorting.SortBySpec(Unsorted(events), GroupDate);
    forall j | 0 <= j < |r|
      ensures r[j] in Unsorted(events)
    {
      assert r[j] in multiset(r);
    }
  }

  lemma GroupItems(events: seq<Event>)
    ensures var r := GroupAndClean(events);
      forall j :: 0 <= j < |r| ==>
        multiset(r[j].items) == multiset(Bucket(events, r[j].key)) && PriorityDescending(r[j].items)
  {
    var r := GroupAndClean(events);
    SortedGroupsMembers(events);
    forall j | 0 <= j < |r|
      ensures multiset(r[j].items) == multiset(Bucket(events, r[j].key)) && PriorityDescending(r[j].items)
    {
      UnsortedMember(events, r[j]);
      Sorting.SortBySpec(Bucket(events, r[j].key), NegPriority);
    }
  }

  /** Within a day, summaries of equal priority keep their occurrence order. */
  lemma GroupItemsStable(events: seq<Event>)
    ensures var r := GroupAndClean(events);
      forall j, p :: 0 <= j < |r| ==>
        Sorting.Block(r[j].items, NegPriority, p) == Sorting.Block(Bucket(events, r[j].key), NegPriority, p)
  {
    var r := GroupAndClean(events);
    SortedGroupsMembers(events);
    forall j, p | 0 <= j < |r|
      ensures Sorting.Block(r[j].items, NegPriority, p) == Sorting.Block(Bucket(events, r[j].key), NegPriority, p)
    {
      UnsortedMember(events, r[j]);
      Sorting.SortByStable(Bucket(events, r[j].key), NegPriority, p);
    }
  }

  lemma GroupKeysCover(events: seq<Event>)
    ensures var r := GroupAndClean(events);
      && (forall j :: 0 <= j < |r| ==> r[j].key in KeySet(events))
      && (forall k | k in KeySet(events) :: exists j :: 0 <= j < |r| && r[j].key == k)
  {
    var g := Unsorted(events);
    var r := GroupAndClean(events);
    var ks := Keys(events);
    KeysSpec(events);
    SortedGroupsMembers(events);
    forall j | 0 <= j < |r|
      ensures r[j].key in KeySet(events)
    {
      UnsortedMember(events, r[j]);
    }
    forall k | k in KeySet(events)
      ensures exists j :: 0 <= j < |r| && r[j].key == k
    {
      assert k in ks;
      var m :| 0 <= m < |ks| && ks[m] == k;
      assert g[m] in multiset(r);
      var j :| 0 <= j < |r| && r[j] == g[m];
    }
  }

  lemma GroupKeysDistinct(events: seq<Event>)
    ensures var r := GroupAndClean(events);
      forall i, j :: 0 <= i < j < |r| ==> r[i].key != r[j].key
  {
    var g := Unsorted(events);
    var r := GroupAndClean(events);
    KeysSpec(events);
    SortedGroupsMembers(events);
    assert forall a, b :: 0 <= a < b < |g| ==> g[a].key != g[b].key;
    forall i, j | 0 <= i < j < |r|
      ensures r[i].key != r[j].key
    {
      if r[i].key == r[j].key {
        UnsortedMember(events, r[i]);
        UnsortedMember(events, r[j]);
        TwoPositions(r, i, j);
        AtMostOnce(g, r[i]);
      }
    }
  }

  /**
   * What the grouping promises: one group per key, keyed exactly by the days (and "TODO") of
   * the occurrences; each group holds exactly the summaries of that key's occurrences, by
   * descending priority with equal priorities in occurrence order; the groups ascend by date
   * with "TODO" read as 1970-01-01.
   */
  lemma GroupingSpec(events: seq<Event>)
    ensures var r := GroupAndClean(events);
      && (forall i, j :: 0 <= i < j < |r| ==> r[i].key != r[j].key)
      && (forall j :: 0 <= j < |r| ==> r[j].key in KeySet(events))
      && (forall k | k in KeySet(events) :: exists j :: 0 <= j < |r| && r[j].key == k)
      && (forall j :: 0 <= j < |r| ==>
            multiset(r[j].items) == multiset(Bucket(events, r[j].key)) && PriorityDescending(r[j].items))
      && (forall j, p :: 0 <= j < |r| ==>
            Sorting.Block(r[j].items, NegPriority, p) == Sorting.Block(Bucket(events, r[j].key), NegPriority, p))
      && (forall i, j :: 0 <= i < j < |r| ==> KeyDate(r[i].key) <= KeyDate(r[j].key))
  {
    SortedGroupsMembers(events);
    GroupItems(events);
    GroupItemsStable(events);
    GroupKeysCover(events);
    GroupKeysDistinct(events);
  }

  /**
   * The loop of `groupAndCleanEvents`: buckets are created on first sight of a key and
   * filled in input order, then sorted as above.
   */
  method GroupAndCleanEvents(events: seq<Event>) returns (r: seq<Group>)
    ensures r == GroupAndClean(events)
  {
    var keys: seq<DayKey> := [];
    var groups: map<DayKey, seq<Summary>> := map[];
    for i := 0 to |events|
      invariant keys == Keys(events[..i])
      invariant forall k :: k in groups <==> k in keys
      invariant forall k | k in groups :: groups[k] == Bucket(events[..i], k)
    {
      var e := events[i];
      var key := KeyOf(e);
      assert events[..i + 1][..i] == events[..i];
      assert events[..i + 1][i] == e;
      if key !in groups {
        KeysSpec(events[..i]);
        BucketOfAbsentKey(events[..i], key);
        groups := groups[key := []];
        keys := keys + [key];
      }
      groups := groups[key := groups[key] + [Summarize(e)]];
      forall k | k in groups
        ensures groups[k] == Bucket(events[..i + 1], k)
      {
        assert Bucket(events[..i + 1], k) == Bucket(events[..i], k) + (if KeyOf(e) == k then [Summarize(e)] else []);
      }
    }
    assert events[..|events|] == events;
    var unsorted := seq(|keys|, j requires 0 <= j < |keys| => Group(keys[j], ByPriority(groups[keys[j]])));
    assert unsorted == Unsorted(events);
    r := Sorting.SortBy(unsorted, GroupDate);
  }
}
