# Lifelist events core, modelled in Dafny

Lifelist keeps upcoming events in a YAML data file and serves them to a calendar view.
This project models the core of that pipeline and proves properties of it:

- **Validation** (`Schemas`): the event schema (name, priority, location, start, end,
  frequency, tags, unknown keys, and the three cross-field refinements), the frequency
  schema, and the decision logic of the date-time schema. Date parsing by chrono and date
  placement by luxon are parameters.
- **Time zones** (`Timezones`): `extractAndConvertTimezone`. It finds the leftmost whole-word
  US time-zone abbreviation, ignoring case, and maps it to an IANA zone.
- **Sorting** (`Sorting`, `Events`): `sortEvents`, a stable ascending sort by start instant,
  with undated items keyed at -1.
- **Occurrences** (`Engine`, `Stream`): the generator `enumerateEventsFromDate`.
  - `Engine` models one loop iteration as a step on a working set: pop, push the next
    weekly, biweekly or weekdays cycle, skip past items, push a next-day continuation for
    multi-day items, yield.
  - `Stream` models the generator seen through `next()` and taking the first `n` items.
- **Manager** (`Manager`):
  - the per-day cache of `enumerateEvents`;
  - the parse-and-swap that `create` performs on every (re)load of the data file;
  - `getEvents`, which fails while the latest parse has failed.
- **Grouping** (`Grouping`): `groupAndCleanEvents`. It buckets occurrences by day, with
  "TODO" for undated ones, summarises them, sorts each bucket by descending priority, and
  sorts the buckets by date.
- **Item store** (`Store`): `LifelistStore`, a `Map` from id to item. It covers `addItem`,
  `updateItem`, `deleteItem`, `getItem`, `getAllItems` and `getItemsByDateRange`. The id
  generator and the clock are parameters.
- **Findings** (`Findings`): the generator's two calendar-day tests as they are written.
  Both compare instants whose milliseconds were kept (see "## Findings").

Instants are integers: milliseconds in one fixed zone. `Wrappers` holds `Option` and
`Result`.

## Model

| member | source | states |
|---|---|---|
| Time.ClockTimeIsHourOrMinute | src/lib/eventManager.ts:130-131 | an instant shows a clock time exactly when its hour or minute is non-zero; seconds do not count |
| Events.SortEventsSpec | src/lib/eventManager.ts:24-27 | `sortEvents` output is in ascending key order; it is a permutation of the input; items with equal keys keep their relative order |
| Events.SortEventsIsTheStableSort | src/lib/eventManager.ts:24-27 | any ordered sequence that keeps each key's items in input order equals `sortEvents` of the input |
| Events.UndatedKeyPosition | src/lib/eventManager.ts:25-26 | an undated item (key -1) sorts strictly before every item dated from the epoch on, and strictly after every item dated before 1969-12-31T23:59:59.999 |
| Engine.NextCycle | src/lib/eventManager.ts:180-196 | a next cycle is pushed exactly for the string frequencies weekly, biweekly and weekdays, and at most one is pushed |
| Engine.NextCycleSpec | src/lib/eventManager.ts:182-196 | the next cycle shifts start by 7 days (weekly), 14 days (biweekly) or to the next Monday-Friday day (weekdays); the end moves by the same amount; every other field is copied |
| Engine.WeekdaysNextCycle | src/lib/eventManager.ts:188-193 | the weekdays rule lands on a weekday and skips only weekend days |
| Engine.RequeueSpec | src/lib/eventManager.ts:184-199 | after pushing and re-sorting, the working set is in order and holds exactly the old items plus the pushed ones |
| Engine.StepSpec | src/lib/eventManager.ts:176-220 | one iteration yields the popped item exactly when it is undated or starts at or after the query instant; the working set loses that item and gains exactly its next cycle and, when it is not past and ends on a later day, its continuation |
| Engine.PushedAreLater | src/lib/eventManager.ts:180-215 | every pushed item sorts no earlier than the popped one, and strictly later when that one is dated |
| Engine.RecurringSpanPushesBoth | src/lib/eventManager.ts:180-215 | a recurring multi-day item that is not past pushes both a next cycle and a continuation; the continuation keeps the frequency, so it recurs in turn |
| Engine.StepKeepsOrder | src/lib/eventManager.ts:176-220 | a step keeps the working set sorted and never brings back anything earlier than the popped item |
| Engine.RunYieldsInOrder | src/lib/eventManager.ts:172-222 | the generator yields in non-decreasing `sortEvents` order, undated items first |
| Engine.RecurringNeverEnds | src/lib/eventManager.ts:176-200 | while a weekly, biweekly or weekdays item is present, the loop never runs out of work |
| Engine.NonRecurringEnds | src/lib/eventManager.ts:176-222 | without recurring items the loop ends within as many steps as the working set's total weight (one per calendar day each item still spans) |
| Engine.ContinuationSpec | src/lib/eventManager.ts:210 | a continuation starts one calendar day later at the same time of day; everything else, the frequency included, is unchanged |
| Engine.MultiDaySpan | src/lib/eventManager.ts:207-220 | a once-only item at or after the query instant yields one occurrence per calendar day from its start day through its end day, then the loop ends |
| Engine.PastSpanYieldsNothing | src/lib/eventManager.ts:202-215 | the past-skip comes before the span split: a once-only item that started before the query instant yields nothing, not even on later days it spans |
| Engine.RecurringRun | src/lib/eventManager.ts:176-220 | a lone single-day recurring item at or after the query instant yields its successive cycles |
| Engine.NextCycleKeepsSingleDay | src/lib/eventManager.ts:182-196 | a next cycle spans days exactly when the item does |
| Engine.FixedPeriodCycles | src/lib/eventManager.ts:182-187 | the k-th weekly or biweekly cycle is shifted by exactly k or 2k weeks, end included |
| Engine.WeekdaysCyclesAvoidWeekends | src/lib/eventManager.ts:188-195 | every weekdays cycle after the first falls on Monday to Friday |
| Stream.PullIsRun | src/lib/eventManager.ts:176-221 | one `next()` is a finite run of loop iterations whose only yield is the pulled item |
| Stream.PullNotPast | src/lib/eventManager.ts:202-205 | `next()` never yields an item that starts before the query instant |
| Stream.PullDone | src/lib/eventManager.ts:176-221 | a `next()` that is done leaves an empty working set |
| Stream.PullInOrder | src/lib/eventManager.ts:176-221 | from a sorted working set, `next()` yields an item no earlier than any lower bound, and leaves a sorted set of later items |
| Stream.PullRecurring | src/lib/eventManager.ts:180-200 | with a recurring item present, `next()` always yields and the recurring item stays |
| Stream.PullDrains | src/lib/eventManager.ts:176-221 | without recurring items, `next()` lowers the working set's total weight |
| Stream.NextDone | src/lib/eventManager.ts:176 | `next()` on a finished generator is done again and changes nothing; the query instant never changes |
| Stream.Take | src/lib/eventManager.ts:161-167 | taking `n` items gives at most `n` |
| Stream.TakeSnoc | src/lib/eventManager.ts:161-167 | taking `n + 1` items is taking `n` and pulling once more |
| Stream.TakeShortEnded | src/lib/eventManager.ts:163-165 | a stream that delivered fewer items than asked for is finished |
| Stream.TakeStops | src/lib/eventManager.ts:163-165 | once the stream ran short, asking for more changes nothing |
| Stream.TakePrefix | src/lib/eventManager.ts:158-169 | fewer items are a prefix of more: exactly the first `n`, or all of them when the stream is shorter |
| Stream.TakeInOrder | src/lib/eventManager.ts:172-222 | the taken items are in `sortEvents` order and none starts before the query instant |
| Stream.TakeRecurring | src/lib/eventManager.ts:180-200 | with a recurring item present, every requested item is delivered |
| Stream.TakeNonRecurring | src/lib/eventManager.ts:176-222 | without one, the stream holds at most the total weight of items and then is finished |
| Grouping.KeyDateOrder | src/lib/eventManager.ts:146 | dated buckets sort by day, and "TODO" ties with 1970-01-01 |
| Grouping.SummarizeSpec | src/lib/eventManager.ts:130-139 | a start or end time is shown exactly when it exists and its hour or minute is non-zero; the end carries the zone name, and the start carries it only when no end is shown; the other fields are copied |
| Grouping.KeysSpec | src/lib/eventManager.ts:125-129 | the bucket keys are exactly the occurrences' days (and "TODO"), each once, in order of first appearance |
| Grouping.GroupingSpec | src/lib/eventManager.ts:113-148 | one group per key; each group holds exactly its key's summaries (as a multiset) by descending priority, and summaries of equal priority keep their occurrence order (the sort is stable); groups ascend by date |
| Grouping.GroupAndCleanEvents | src/lib/eventManager.ts:125-147 | the bucket-building loop computes the grouping above |
| Timezones.TableLookup | src/lib/timezones.ts:9-35 | every alternative of the pattern is a key of the table, and its zone is the one of its family (generic, standard and daylight forms agree) |
| Timezones.SpellingShape | src/lib/timezones.ts:35 | every alternative is an upper-case word of two to four letters ending in T |
| Timezones.ScanSpec | src/lib/timezones.ts:35-37 | the scan finds a whole-word, case-insensitive match with none at any earlier position, or shows there is none |
| Timezones.MatchedText | src/lib/timezones.ts:39-41 | the upper-cased matched text is the abbreviation's spelling, so it is a key of the table |
| Timezones.OneAbbrevPerPosition | src/lib/timezones.ts:35 | at most one abbreviation matches as a whole word at any position, so alternative order does not matter |
| Timezones.ExtractSpec | src/lib/timezones.ts:7-45 | the result is null exactly when no abbreviation stands as a whole word; otherwise it is the zone of the leftmost one |
| Timezones.ExtractFound | src/lib/timezones.ts:37-41 | a match of abbreviation `a` gives the zone the table lists for `a` |
| Timezones.ExtractNonEmpty | src/lib/timezones.ts:9-31 | every returned zone name is non-empty, so it is truthy for the caller |
| Timezones.ExtractIgnoresCase | src/lib/timezones.ts:35-40 | strings that differ only in ASCII letter case give the same zone |
| Timezones.EmbeddedAbbreviations | src/lib/timezones.ts:33-35 | an abbreviation glued to word characters does not count: "PTO" and "00PT" give null, "7pm PT" gives America/Los_Angeles |
| Schemas.TrimSpec | src/lib/schemas.ts:80 | the trimmed name is a stretch of the input with only white space outside it, and it neither starts nor ends with white space |
| Schemas.TrimIdempotent | src/lib/schemas.ts:80 | trimming twice is trimming once; a string trims to nothing exactly when it is all white space |
| Schemas.ReadNameSpec | src/lib/schemas.ts:80 | an accepted name is the input trimmed, non-empty, with nothing left to trim |
| Schemas.NameNeedsNonSpace | src/lib/schemas.ts:80 | a string is accepted as a name exactly when it holds a non-white-space character |
| Schemas.ZoneChoice | src/lib/schemas.ts:59-69 | an abbreviation standing as a word wins (the leftmost one); otherwise a certain non-zero offset; otherwise local time |
| Schemas.PacificTimeZone | src/lib/schemas.ts:60-69 | "7pm PT" is placed in America/Los_Angeles whatever offset the parser reports |
| Schemas.KindNames | src/lib/schemas.ts:25-26 | the frequency enum accepts exactly its eight lower-case names, one per kind |
| Schemas.DayNames | src/lib/schemas.ts:22 | the weekday enum accepts exactly its seven names |
| Schemas.WeekNames | src/lib/schemas.ts:24 | the week enum accepts exactly its five names |
| Schemas.MonthNames | src/lib/schemas.ts:23 | the month enum accepts exactly its twelve names |
| Schemas.ReadFrequencyShape | src/lib/schemas.ts:27-35 | an accepted frequency is never an object of kind floating without its three rule fields |
| Schemas.RefineSpec | src/lib/schemas.ts:89-91 | the refinements accept exactly the events that have the start their frequency and end need, and do not end before they start |
| Schemas.ValidateEventSound | src/lib/schemas.ts:78-91 | an accepted record has only the shape's keys; its name is the input name trimmed; the event is well formed; a record with an unknown key is refused |
| Schemas.Defaults | src/lib/schemas.ts:80-86 | a missing location, start or end reads as no value, a missing frequency as `'once'`, missing tags as none; a missing name or priority is refused |
| Schemas.RoundTrip | src/lib/schemas.ts:78-91 | the validator gives back an event from its own record exactly when the event is well formed |
| Schemas.ValidateListOk | src/lib/schemas.ts:93 | an accepted list holds its elements' results in order, and every element is accepted |
| Schemas.ValidateListErr | src/lib/schemas.ts:93 | a refused list names its first refused element, with that element's issue |
| Schemas.ValidateListSpec | src/lib/schemas.ts:93 | a list is accepted exactly when every element is |
| Schemas.ValidateDataWellFormed | src/lib/schemas.ts:93 | every event of an accepted data file is well formed |
| Schemas.Passthrough | src/lib/schemas.ts:93 | keys other than `upcoming` have no effect on the outcome |
| Manager.NotFoundMessage | src/lib/eventManager.ts:48-50 | the error for an unreadable file is the fixed prefix followed by the file name |
| Manager.Slice | src/lib/eventManager.ts:158 | `slice(0, count)` gives a prefix of length `count` capped at the length, and counts a negative end from the back |
| Manager.FillTake | src/lib/eventManager.ts:160-167 | the fill loop on the first `n` items of a stream gives the first `max(n, count)` items |
| Manager.EnumerateSpec | src/lib/eventManager.ts:150-170 | a request for `count >= 0` items returns the first `count` items of the stream rooted at the instant that created the day's entry; the entry becomes that prefix when it was shorter and is left alone otherwise |
| Manager.EnumerateKeeps | src/lib/eventManager.ts:150-170 | only the request's day changes in the cache; the parsed events and the failure state are untouched; cache coherence is kept |
| Manager.EnumerateGrows | src/lib/eventManager.ts:155-167 | a day's cached items only grow: the old list is a prefix of the new |
| Manager.EnumerateIdempotent | src/lib/eventManager.ts:150-170 | repeating a request on the same day, at any instant of it, returns the same items and changes nothing |
| Manager.EnumerateExtends | src/lib/eventManager.ts:157-169 | a later same-day request for more items extends the earlier answer |
| Manager.SameDayShares | src/lib/eventManager.ts:151-155 | a same-day request at another instant is served by the stream rooted at the first request's instant |
| Manager.ReloadSucceeds | src/lib/eventManager.ts:52-62 | a successful parse installs the validated events sorted, all well formed, and empties the cache |
| Manager.ReloadFails | src/lib/eventManager.ts:42-57 | a missing file, a YAML error or a schema failure keeps the events and the cache and records the matching error |
| Manager.Create | src/lib/eventManager.ts:70-79 | a manager is created exactly when the initial parse succeeds, with the sorted events and an empty cache |
| Manager.GetEventsSpec | src/lib/eventManager.ts:86-91 | after a failed parse every request fails with that error and changes nothing; otherwise the answer is the grouping of the day's stream prefix |
| Manager.FailureUntilReload | src/lib/eventManager.ts:65-67 | after a reload, requests fail exactly when that reload failed |
| Findings.MidnightAsWritten | src/lib/eventManager.ts:208 | setting hour, minute and second to zero stays within the first second of the instant's day |
| Findings.MidnightOrder | src/lib/eventManager.ts:208 | the as-written comparison orders by day first, then by millisecond within the second |
| Findings.StepAsWritten | src/lib/eventManager.ts:176-221 | the as-written step agrees with the calendar-day step on past items |
| Findings.YieldsAsWrittenIff | src/lib/eventManager.ts:218 | the as-written yield test drops a same-day upcoming item exactly when its millisecond-within-the-second is below the query's |
| Findings.SpansAsWrittenIff | src/lib/eventManager.ts:208 | the as-written multi-day test also fires for a same-day item whose end has more milliseconds-within-the-second than its start |
| Findings.WholeSecondsAgree | src/lib/eventManager.ts:203-220 | on whole-second instants the as-written step equals the calendar-day step |
| Findings.SameDayItemDropped | src/lib/eventManager.ts:218-220 | queried at 09:00:00.500, an item at 10:00:00.000 the same day is upcoming but not yielded as written; the calendar-day step yields it |
| Findings.SameDaySpanSplit | src/lib/eventManager.ts:207-215 | an item from 10:00:00.000 to 11:00:00.500 is continued to the next day as written; the calendar-day step queues nothing |
| Store.Lookup | src/lifelist-core.ts:103-105 | `get` finds nothing exactly when no entry has the key |
| Store.PutLookup | src/lifelist-core.ts:78 | after `set`, the key holds the new item and every other key is unchanged |
| Store.PutPosition | src/lifelist-core.ts:78 | `set` of a new key appends it; `set` of a present key keeps every entry's position and key |
| Store.RemoveLookup | src/lifelist-core.ts:98-100 | after `delete`, the key is gone and every other key is unchanged |
| Store.RemoveKeeps | src/lifelist-core.ts:98-100 | `delete` keeps exactly the entries with another key |
| Store.OperationsKeepValid | src/lifelist-core.ts:60 | `set` and `delete` keep keys distinct |
| Store.LookupAt | src/lifelist-core.ts:103-110 | with distinct keys, every listed entry is what its key looks up |
| Store.PutThenRemove | src/lifelist-core.ts:78-99 | setting a new key and deleting it restores the map, order included |
| Store.OverlayLaws | src/lifelist-core.ts:87-91 | an empty patch changes nothing; applying the same patch twice equals applying it once |
| Store.AddItemSpec | src/lifelist-core.ts:68-80 | the new item has the generated id, equal created and modified times, every field of the draft (title, description, type, status, priority, due, start and end times, recurrence), and tags defaulting to none; it is stored under its id, appended after the others when the id is fresh; nothing else changes |
| Store.UpdateItemSpec | src/lifelist-core.ts:83-95 | an unknown id gives null and leaves the store as it was; a known id gives the stored item with the patch laid over it and `modified` set to now, stored under the same key at the same position; other keys are unchanged |
| Store.UpdateItemRepeat | src/lifelist-core.ts:83-95 | repeating an update at the same instant changes nothing more |
| Store.PutTwice | src/lifelist-core.ts:93 | setting a key twice to the same item equals setting it once |
| Store.DeleteItemSpec | src/lifelist-core.ts:98-100 | the answer says whether the id was present; afterwards the id is absent, other entries are kept, and a miss changes nothing |
| Store.RemoveAbsent | src/lifelist-core.ts:98-100 | deleting an absent key changes nothing |
| Store.AddThenDelete | src/lifelist-core.ts:68-100 | adding under a fresh id and deleting it gives back the store, and the delete answers true |
| Store.GetAllItemsSpec | src/lifelist-core.ts:103-110 | every item `getItem` can return is listed, and every listed item is what `getItem` returns for its key |
| Store.FilterCounts | src/lifelist-core.ts:114-137 | the range filter keeps every occurrence of an item in range and drops every other item |
| Store.FilterAppend | src/lifelist-core.ts:114 | the range filter keeps relative order: filtering a concatenation concatenates the filtered parts |
| Store.GetItemsByDateRangeSpec | src/lifelist-core.ts:113-138 | an item is listed for a range exactly when it is stored and passes the range test; the result is a sub-multiset of all items |
| Store.EventOverlap | src/lifelist-core.ts:116-133 | for an ordered event and an ordered range, the test holds exactly when the item is due in the range or the two closed intervals intersect |
| Store.StartWithoutEnd | src/lifelist-core.ts:116-134 | an item with a start but no end is listed only through its due date |

## Left out

- Time.Day: instants are milliseconds in one fixed zone with no daylight-saving changes. Luxon's per-zone weeks, days, `isWeekend`, `toDateString` and `set` are taken in that one zone, and the zone attached to a parsed date only selects which oracle result is used.
- Schemas.ZoneChoice: chrono's parsing of date text and luxon's placement of the parsed fields are parameters (`Oracles`). Their own behaviour is not modelled.
- Schemas.ValidateEventSound: the validator reports the first issue it meets, in shape order. Zod collects every issue, and its error message text is not modelled.
- Grouping.GroupingSpec: day buckets are keyed by calendar-day number instead of the `toDateString` text. The two agree one to one within a zone, and the text formatting is not modelled.
- Grouping.KeyDateOrder: "TODO" is read as local day 0. In the source, `new Date('1970-01-01')` parses as UTC midnight while the other keys parse as local midnights, so away from UTC "TODO" falls a few hours off 1970-01-01 local midnight.
- Grouping.SummarizeSpec: the displayed time text (`toLocaleString` with the zone name) is represented by the instant and a flag for whether the zone name is printed.
- Engine.Step: the multi-day and yield tests use calendar days, the evidently intended behaviour. The source compares instants that keep their milliseconds; see "## Findings" and the `Findings` module.
- Engine.MultiDaySpan: one occurrence per calendar day rests on the calendar-day multi-day and yield tests of `Engine.Step`, not the millisecond-keeping tests as written.
- Engine.RecurringRun: a first cycle on the query's day is yielded by the calendar-day test; as written, it is dropped when the query instant carries more milliseconds than the cycle's start.
- Manager.EnumerateSpec: `count` is an integer. The route coerces any number of at least zero (`src/app/api/events/route.ts:7`), so fractional counts and non-finite counts ("Infinity", "1e309") are not modelled. With an infinite count and a recurring item, the fill loop would never end.
- Manager.Reload: reading the file and parsing the YAML are inputs (`DataFile`). The wording of the "not valid" error (the zod error text) is kept as the structured issue.
- Manager.GetEventsSpec: the asynchronous parts are not modelled:
  - the pending `parsingWork` promise, the 800 ms debounce, and file watching;
  - interleavings of concurrent requests;
  - a parse that has begun but not finished.

  A reload is one atomic step between requests.
- Manager.SameDayShares: the generator copies the parsed events at its first `next()`, not when it is created. A reload empties the cache in the same step, so a sequential model cannot observe the difference.
- `addEvent` is not modelled. It appends to the data file and triggers a reparse: file I/O and YAML output.
- `instanceCache` is not modelled. It is the process-wide registry of managers.
- Store.AddItemSpec: the id generator (`Date.now` and `Math.random`) and the clock are parameters.
  - Extra keys smuggled into the draft at run time are not modelled.
  - Invalid `Date` values (NaN comparisons) are not modelled.
- Store.UpdateItemSpec: a patch that sets a required field to `undefined` is not modelled. Optional fields may be cleared.
- The rest of `src/lifelist-core.ts` after `getItemsByDateRange` is not modelled: text export and the other helpers that the store's callers use.
- Stream.Take: the asynchronous generator is a pure state, and taking items is bounded by the number asked for. An infinite stream is only ever observed through finite prefixes.

## Findings

| source | as written | input that shows it | evidently intended | confidence | as-written member | corrected member |
|---|---|---|---|---|---|---|
| src/lib/eventManager.ts:218 | the yield test compares `start` and the query instant after setting hour, minute and second to zero; milliseconds are kept | query at 09:00:00.500, a once-only item at 10:00:00.000 the same day: it passes the past-skip but is not yielded | yield every item that passed the past-skip and starts on or after the query's calendar day | high; not executed | Findings.SameDayItemDropped | Engine.StepSpec |
| src/lib/eventManager.ts:208 | the multi-day test compares `end` and `start` the same way | an item from 10:00:00.000 to 11:00:00.500 on one day, which no data file can produce (latent): treated as multi-day, it gets an extra occurrence the next day | continue only items whose end lies on a later calendar day than their start | low (latent, unreachable from the data file); not executed | Findings.SameDaySpanSplit | Engine.MultiDaySpan |

The first row is reachable through an events request that omits `date`: the query instant
then falls back to the current time (`src/app/api/events/route.ts:21-25`), which need not
fall on a whole second. The page's own requests always send a date-only `date`
(`src/app/page.tsx:48`), which the date-time schema turns into a midnight with zero seconds
and milliseconds, and `Findings.WholeSecondsAgree` shows those requests are unaffected.
The second row is latent. Every instant the date-time schema builds has zero seconds and
milliseconds (`src/lib/schemas.ts:61-68` sets only year, month, day, hour and minute), and
weekly, biweekly, weekdays and next-day shifts keep them zero. `Findings.SpansAsWrittenIff`
shows the multi-day test as written differs only for items whose end and start differ in
their milliseconds, and `Findings.WholeSecondsAgree` proves the whole step as written equals
the calendar-day step on whole-second items and query instants, so the discrepancy cannot arise from the data
file.
