/**
 * `EventsManager`: the parsed events, the per-day cache of enumerated occurrences, and the
 * reload that swaps in a freshly validated data file.
 *
 * A cache entry holds the occurrences pulled so far together with the live generator that
 * produced them.  The entry for a day is created by the first request of that day, so its
 * generator is rooted at that request's instant; later requests of the same day reuse it.
 */
module Manager {
  import opened Wrappers
  import opened Time
  import opened Events
  import opened Stream
  import Schemas
  import Grouping

  /** Why a reload (or the initial parse) failed. */
  datatype LoadError =
    | NotFound(filename: string)        // the data file could not be read
    | YamlError(message: string)        // the YAML parser threw; its error is passed on unwrapped
    | NotValid(issue: Schemas.Issue)    // the document does not satisfy the data schema

  /** What reading the data file produced: nothing, text the YAML parser rejects, or a document. */
  datatype DataFile = Missing | Unparsable(message: string) | Document(doc: Schemas.Value)

  /**
   * The manager's state.  `cache` is keyed by calendar day; `failure` is the rejection the
   * latest parse left behind, which every later `getEvents` reports until a parse succeeds.
   */
  datatype State = State(parsed: seq<Event>, cache: map<int, Taken>, failure: Option<LoadError>)

  /** A fresh manager: no events, an empty cache, no parse yet. */
  const Initial: State := State([], map[], None)

  /** The message of a missing data file. */
  function NotFoundMessage(filename: string): (r: string)
    ensures |r| == |filename| + 21
    ensures r[21..] == filename
  {
    "Data file not found: " + filename
  }

  /** A list of pulled items is the stream's first items, possibly with the final done-pull made. */
  predicate IsTaken(t: Taken, g: Gen)
  {
    t == Take(g, |t.items|) || t == Take(g, |t.items| + 1)
  }

  /** Every entry sits under the day of its generator's instant and is a prefix of that generator's stream. */
  predicate Coherent(st: State)
  {
    forall key | key in st.cache ::
      Day(st.cache[key].gen.date) == key && IsTaken(st.cache[key], Start(st.parsed, st.cache[key].gen.date))
  }

  /** The entry a request at `from` works on: the cached one, or a new one rooted at `from`. */
  function Entry(st: State, from: Instant): Taken
  {
    if Day(from) in st.cache then st.cache[Day(from)] else Taken([], Start(st.parsed, from))
  }

  /** The instant the stream serving a request at `from` was started with. */
  function Root(st: State, from: Instant): Instant
  {
    Entry(st, from).gen.date
  }

  /** `Array.prototype.slice(0, end)`: a negative end counts from the back. */
  function Slice<T>(s: seq<T>, end: int): (r: seq<T>)
    ensures r <= s
    ensures end >= 0 ==> |r| == if end < |s| then end else |s|
    ensures end < 0 ==> |r| == if |s| + end > 0 then |s| + end else 0
  {
    if end >= 0 then (if end < |s| then s[..end] else s)
    else (if |s| + end > 0 then s[..|s| + end] else [])
  }

  /** The fill loop: pull until `count` items are held or the generator is done. */
  function Fill(t: Taken, count: int): Taken
    decreases count - |t.items|
  {
    if |t.items| >= count then t
    else
      var p := Next(t.gen);
      if p.value.None? then Taken(t.items, p.gen)
      else Fill(Taken(t.items + [p.value.value], p.gen), count)
  }

  /** Filling a prefix of the stream up to `count` is taking `count` items, or keeping what is held. */
  lemma {:induction false} FillTake(g: Gen, n: nat, count: int)
    ensures Fill(Take(g, n), count) == Take(g, if count > n then count else n)
    decreases count - n
  {
    var t := Take(g, n);
    if |t.items| >= count {
    } else if |t.items| < n {
      TakeShortEnded(g, n);
      NextDone(t.gen);
      if count > n {
        TakeStops(g, n, count);
      }
    } else {
      TakeSnoc(g, n);
      var p := Next(t.gen);
      if p.value.None? {
        assert Extend(t) == Taken(t.items, p.gen);
        if count > n + 1 {
          TakeStops(g, n + 1, count);
        }
      } else {
        assert Extend(t) == Taken(t.items + [p.value.value], p.gen);
        FillTake(g, n + 1, count);
      }
    }
  }

  /** Any `Take` is a prefix of its stream in the sense of `IsTaken`. */
  lemma TakeIsTaken(g: Gen, m: nat)
    ensures IsTaken(Take(g, m), g)
  {
    var j := |Take(g, m).items|;
    if j < m {
      TakePrefix(g, j + 1, m);
      TakeStops(g, j + 1, m);
    }
  }

  /** The result of `enumerateEvents`: the manager afterwards and the occurrences returned. */
  datatype Enumerated = Enumerated(state: State, events: seq<Event>)

  /** `enumerateEvents(from, count)`. */
  function Enumerate(st: State, from: Instant, count: int): Enumerated
  {
    var key := Day(from);
    var entry := Entry(st, from);
    if |entry.items| >= count then
      Enumerated(st.(cache := st.cache[key := entry]), Slice(entry.items, count))
    else
      var filled := Fill(entry, count);
      Enumerated(st.(cache := st.cache[key := filled]), filled.items)
  }

  /** The entry a request works on is a prefix of the stream rooted at `Root`, on the request's day. */
  lemma EntryIsTaken(st: State, from: Instant)
    requires Coherent(st)
    ensures Day(Root(st, from)) == Day(from)
    ensures IsTaken(Entry(st, from), Start(st.parsed, Root(st, from)))
  {
    if Day(from) !in st.cache {
      assert Take(Start(st.parsed, from), 0) == Taken([], Start(st.parsed, from));
    }
  }

  /**
   * A request for `count >= 0` occurrences returns the first `count` occurrences of the
   * stream rooted at the instant that created the day's entry (fewer when the stream ends);
   * the day's entry becomes that prefix when it was shorter, and is left alone otherwise.
   */
  lemma EnumerateSpec(st: State, from: Instant, count: int)
    requires Coherent(st)
    ensures var r := Enumerate(st, from, count);
      var g := Start(st.parsed, Root(st, from));
      && (count >= 0 ==> r.events == Take(g, count).items)
      && r.state.cache[Day(from)] == (if |Entry(st, from).items| >= count then Entry(st, from) else Take(g, count))
  {
    var g := Start(st.parsed, Root(st, from));
    var entry := Entry(st, from);
    EntryIsTaken(st, from);
    var n := if entry == Take(g, |entry.items|) then |entry.items| else |entry.items| + 1;
    assert entry == Take(g, n);
    if |entry.items| >= count {
      if count >= 0 {
        TakePrefix(g, count, n);
      }
    } else {
      FillTake(g, n, count);
    }
  }

  /** Only the request's day changes in the cache; the parsed events and the failure are untouched, and coherence is kept. */
  lemma EnumerateKeeps(st: State, from: Instant, count: int)
    requires Coherent(st)
    ensures var r := Enumerate(st, from, count);
      && Coherent(r.state)
      && r.state.parsed == st.parsed && r.state.failure == st.failure
      && r.state.cache.Keys == st.cache.Keys + {Day(from)}
      && (forall k | k in st.cache && k != Day(from) :: r.state.cache[k] == st.cache[k])
  {
    var g := Start(st.parsed, Root(st, from));
    EnumerateSpec(st, from, count);
    EntryIsTaken(st, from);
    var r := Enumerate(st, from, count);
    if |Entry(st, from).items| < count && count >= 0 {
      TakeIsTaken(g, count);
      TakeDate(g, count);
    }
    assert r.state.cache[Day(from)].gen.date == Root(st, from);
  }

  /** A day's entry only grows: what was held before is a prefix of what is held after. */
  lemma EnumerateGrows(st: State, from: Instant, count: int)
    requires Coherent(st)
    ensures Entry(st, from).items <= Enumerate(st, from, count).state.cache[Day(from)].items
  {
    var g := Start(st.parsed, Root(st, from));
    var entry := Entry(st, from);
    EnumerateSpec(st, from, count);
    EntryIsTaken(st, from);
    if |entry.items| < count {
      var n := if entry == Take(g, |entry.items|) then |entry.items| else |entry.items| + 1;
      TakePrefix(g, n, count);
    }
  }

  /** The same request made again on the same day, at any instant of it, returns the same occurrences and changes nothing. */
  lemma EnumerateIdempotent(st: State, from: Instant, again: Instant, count: int)
    requires Coherent(st) && Day(again) == Day(from) && count >= 0
    ensures var r1 := Enumerate(st, from, count);
      var r2 := Enumerate(r1.state, again, count);
      r2.events == r1.events && r2.state == r1.state
  {
    var r1 := Enumerate(st, from, count);
    var g := Start(st.parsed, Root(st, from));
    EnumerateSpec(st, from, count);
    EnumerateKeeps(st, from, count);
    EntryIsTaken(st, from);
    assert Entry(r1.state, again) == r1.state.cache[Day(from)];
    TakeDate(g, count);
    assert Root(r1.state, again) == Root(st, from);
    EnumerateSpec(r1.state, again, count);
    var e1 := r1.state.cache[Day(from)];
    if |e1.items| < count {
      assert e1 == Take(g, count);
      FillTake(g, count, count);
    }
  }

  /** A later request on the same day for more occurrences extends the earlier answer. */
  lemma EnumerateExtends(st: State, from: Instant, again: Instant, count: int, more: int)
    requires Coherent(st) && Day(again) == Day(from) && 0 <= count <= more
    ensures var r1 := Enumerate(st, from, count);
      r1.events <= Enumerate(r1.state, again, more).events
  {
    var r1 := Enumerate(st, from, count);
    var g := Start(st.parsed, Root(st, from));
    EnumerateSpec(st, from, count);
    EnumerateKeeps(st, from, count);
    EntryIsTaken(st, from);
    var e1 := r1.state.cache[Day(from)];
    assert Entry(r1.state, again) == e1;
    if |Entry(st, from).items| >= count {
      assert e1 == Entry(st, from);
    } else {
      TakeDate(g, count);
    }
    assert Root(r1.state, again) == Root(st, from);
    EnumerateSpec(r1.state, again, more);
    TakePrefix(g, count, more);
  }

  /**
   * The stream that serves a day is rooted at the first request of that day: a later
   * request of the same day at another instant is answered from the same stream, whatever
   * its own time of day.
   */
  lemma SameDayShares(st: State, from: Instant, again: Instant, count: int, more: int)
    requires Coherent(st) && Day(from) !in st.cache && Day(again) == Day(from)
    requires count >= 0 && more >= 0
    ensures var r1 := Enumerate(st, from, count);
      Enumerate(r1.state, again, more).events == Take(Start(st.parsed, from), more).items
  {
    var r1 := Enumerate(st, from, count);
    var g := Start(st.parsed, from);
    EnumerateSpec(st, from, count);
    EnumerateKeeps(st, from, count);
    if |Entry(st, from).items| < count {
      TakeDate(g, count);
    }
    assert Root(r1.state, again) == from;
    EnumerateSpec(r1.state, again, more);
  }

  /**
   * The parse step of `create`: read the file, parse the YAML, validate the document.  On
   * success the events are sorted and swapped in and the cache is emptied; on any failure
   * the events and the cache stay as they were and the failure is recorded.
   */
  function Reload(st: State, file: DataFile, filename: string, o: Schemas.Oracles): State
  {
    match file
    case Missing => st.(failure := Some(NotFound(filename)))
    case Unparsable(message) => st.(failure := Some(YamlError(message)))
    case Document(doc) =>
      match Schemas.ValidateData(doc, o)
      case Ok(events) => State(SortEvents(events), map[], None)
      case Err(issue) => st.(failure := Some(NotValid(issue)))
  }

  /** A successful reload installs the validated events in `sortEvents` order and empties the cache. */
  lemma ReloadSucceeds(st: State, doc: Schemas.Value, filename: string, o: Schemas.Oracles)
    requires Schemas.ValidateData(doc, o).Ok?
    ensures var r := Reload(st, Document(doc), filename, o);
      var events := Schemas.ValidateData(doc, o).value;
      && r.parsed == SortEvents(events) && r.cache == map[] && r.failure.None?
      && InOrder(r.parsed) && multiset(r.parsed) == multiset(events)
      && (forall x | x in r.parsed :: Schemas.WellFormed(x))
      && Coherent(r)
  {
    var events := Schemas.ValidateData(doc, o).value;
    SortEventsSpec(events, 0.0);
    Schemas.ValidateDataWellFormed(doc, o);
    forall x | x in SortEvents(events)
      ensures Schemas.WellFormed(x)
    {
      assert x in multiset(SortEvents(events));
    }
  }

  /** A failed reload keeps the events and the cache and records why it failed. */
  lemma ReloadFails(st: State, file: DataFile, filename: string, o: Schemas.Oracles)
    requires !(file.Document? && Schemas.ValidateData(file.doc, o).Ok?)
    ensures var r := Reload(st, file, filename, o);
      && r.parsed == st.parsed && r.cache == st.cache
      && r.failure.Some?
      && (file.Missing? ==> r.failure.value == NotFound(filename))
      && (file.Unparsable? ==> r.failure.value == YamlError(file.message))
      && (file.Document? ==> r.failure.value == NotValid(Schemas.ValidateData(file.doc, o).error))
      && (Coherent(st) ==> Coherent(r))
  {
  }

  /** `create`: the initial parse; a manager exists only when it succeeds. */
  function Create(file: DataFile, filename: string, o: Schemas.Oracles): (r: Result<State, LoadError>)
    ensures r.Ok? <==> file.Document? && Schemas.ValidateData(file.doc, o).Ok?
    ensures r.Ok? ==> r.value.cache == map[] && r.value.parsed == SortEvents(Schemas.ValidateData(file.doc, o).value)
  {
    var st := Reload(Initial, file, filename, o);
    if st.failure.Some? then Err(st.failure.value) else Ok(st)
  }

  /** `getEvents(from, count)`: fails while the latest parse has failed, otherwise enumerates and groups. */
  function GetEvents(st: State, from: Instant, count: int): (State, Result<seq<Grouping.Group>, LoadError>)
  {
    if st.failure.Some? then (st, Err(st.failure.value))
    else
      var r := Enumerate(st, from, count);
      (r.state, Ok(Grouping.GroupAndClean(r.events)))
  }

  /**
   * After a failed parse every request fails with that parse's error and changes nothing;
   * otherwise the answer is the grouping of the day's stream prefix.
   */
  lemma GetEventsSpec(st: State, from: Instant, count: int)
    requires Coherent(st)
    ensures var (after, r) := GetEvents(st, from, count);
      && (st.failure.Some? ==> after == st && r == Err(st.failure.value))
      && (st.failure.None? && count >= 0 ==>
            r == Ok(Grouping.GroupAndClean(Take(Start(st.parsed, Root(st, from)), count).items)))
      && Coherent(after)
  {
    if st.failure.None? {
      EnumerateSpec(st, from, count);
      EnumerateKeeps(st, from, count);
    }
  }

  /** A failed reload makes later requests fail until a reload succeeds, which clears the failure. */
  lemma FailureUntilReload(st: State, file: DataFile, filename: string, o: Schemas.Oracles, from: Instant, count: int)
    ensures var r := Reload(st, file, filename, o);
      GetEvents(r, from, count).1.Err? <==> !(file.Document? && Schemas.ValidateData(file.doc, o).Ok?)
  {
  }
}
