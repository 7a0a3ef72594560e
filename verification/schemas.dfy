/**
 * `src/lib/schemas.ts`: the validator that turns one raw record of the data file into an
 * `Event`, the shape of a frequency, and the decision logic of `dateTimeSchema`.
 *
 * zod collects every issue it meets; this model reports the first one it would list: the
 * fields in the order the shape declares them, then unknown keys (`.strict()`), then the
 * three cross-field refinements in the order they are chained.
 *
 * chrono-node and luxon are not modelled: the parse of a date string is an oracle that
 * returns chrono's readings, and turning calendar fields and a zone into an instant is an
 * oracle that fails for fields luxon rejects.
 */
module Schemas {
  import opened Wrappers
  import opened Time
  import opened Events
  import Timezones

  /** A raw value of the data file. A missing key is an absent field (`undefined`), not a value. */
  datatype Value =
    | Null
    | Bool(b: bool)
    | Num(n: real)
    | Str(s: string)
    | List(items: seq<Value>)
    | Record(fields: map<string, Value>)
    | DateTime(valid: bool, at: Instant)   // a luxon DateTime instance, valid or not

  /** The first issue the validator reports. */
  datatype Issue =
    | NotAnObject
    | WrongType(field: string)
    | BlankName
    | PriorityTooSmall
    | PriorityTooBig
    | BadFrequency
    | BadDate(field: string, message: string)
    | UnknownKeys(keys: set<string>)
    | Refused(message: string)
    | AtEvent(index: nat, issue: Issue)

  function Field(fields: map<string, Value>, key: string): Option<Value>
  {
    if key in fields then Some(fields[key]) else None
  }

  // ---------------------------------------------------------------------------------------
  // The name field: trimmed, then required to be non-empty.

  /** The characters JavaScript's `trim` removes: the WhiteSpace and LineTerminator classes. */
  predicate IsSpace(c: char)
  {
    || c in {'\t', '\n', '\U{B}', '\U{C}', '\r', ' ', '\U{A0}', '\U{1680}',
             '\U{2028}', '\U{2029}', '\U{202F}', '\U{205F}', '\U{3000}', '\U{FEFF}'}
    || '\U{2000}' <= c <= '\U{200A}'
  }

  /** Drops leading white space: what is left is a suffix that is empty or starts with a non-space. */
  function TrimStart(s: string): (r: string)
    ensures |r| <= |s| && r == s[|s| - |r|..]
    ensures forall k | 0 <= k < |s| - |r| :: IsSpace(s[k])
    ensures r == [] || !IsSpace(r[0])
    decreases |s|
  {
    if |s| > 0 && IsSpace(s[0]) then TrimStart(s[1..]) else s
  }

  /** Drops trailing white space: what is left is a prefix that is empty or ends with a non-space. */
  function TrimEnd(s: string): (r: string)
    ensures |r| <= |s| && r == s[..|r|]
    ensures forall k | |r| <= k < |s| :: IsSpace(s[k])
    ensures r == [] || !IsSpace(r[|r| - 1])
    decreases |s|
  {
    if |s| > 0 && IsSpace(s[|s| - 1]) then TrimEnd(s[..|s| - 1]) else s
  }

  /** `String.prototype.trim` */
  function Trim(s: string): string
  {
    TrimEnd(TrimStart(s))
  }

  /**
   * The trimmed string is the stretch `s[i..j]` with only white space outside it, and it
   * neither starts nor ends with white space.
   */
  lemma TrimSpec(s: string) returns (i: nat, j: nat)
    ensures i <= j <= |s| && Trim(s) == s[i..j]
    ensures forall k | 0 <= k < i :: IsSpace(s[k])
    ensures forall k | j <= k < |s| :: IsSpace(s[k])
    ensures Trim(s) == [] || (!IsSpace(Trim(s)[0]) && !IsSpace(Trim(s)[|Trim(s)| - 1]))
  {
    var a := TrimStart(s);
    var b := TrimEnd(a);
    i := |s| - |a|;
    j := i + |b|;
    assert b == s[i..][..|b|];
    forall k | j <= k < |s|
      ensures IsSpace(s[k])
    {
      assert s[k] == a[k - i];
    }
    if b != [] {
      assert b[0] == a[0];
    }
  }

  /** Trimming twice is trimming once, and a string trims to nothing exactly when it is all white space. */
  lemma TrimIdempotent(s: string)
    ensures Trim(Trim(s)) == Trim(s)
    ensures Trim(s) == [] <==> forall k | 0 <= k < |s| :: IsSpace(s[k])
  {
    var i, j := TrimSpec(s);
    var t := Trim(s);
    if t != [] {
      assert !IsSpace(t[0]) && t == TrimStart(t);
      assert TrimEnd(t) == t;
      assert s[i] == t[0];
    }
  }

  function ReadName(v: Option<Value>): Result<string, Issue>
  {
    match v
    case Some(Str(s)) => if |Trim(s)| > 0 then Ok(Trim(s)) else Err(BlankName)
    case _ => Err(WrongType("name"))
  }

  // ---------------------------------------------------------------------------------------
  // The priority field (a number from 0 to 10) and the optional location field.

  function ReadPriority(v: Option<Value>): Result<real, Issue>
  {
    match v
    case Some(Num(n)) =>
      if n < 0.0 then Err(PriorityTooSmall) else if n > 10.0 then Err(PriorityTooBig) else Ok(n)
    case _ => Err(WrongType("priority"))
  }

  function ReadLocation(v: Option<Value>): Result<Option<string>, Issue>
  {
    match v
    case None => Ok(None)
    case Some(Null) => Ok(None)
    case Some(Str(s)) => Ok(Some(s))
    case _ => Err(WrongType("location"))
  }

  // ---------------------------------------------------------------------------------------
  // dateTimeSchema

  /** The message of the refinement: an invalid DateTime prints as "Invalid DateTime". */
  const InvalidDate: string := "Invalid DateTime is not a valid date"

  /**
   * One chrono reading, after the refiner: the components chrono is certain of (`None`
   * otherwise), the minute it reports, and the certain timezone offset in minutes.
   */
  datatype Reading = Reading(
    year: Option<int>, month: Option<int>, day: Option<int>,
    hour: Option<int>, minute: int, offset: Option<int>)

  /** The object handed to `DateTime.fromObject`; an absent unit is left to luxon. */
  datatype Fields = Fields(year: Option<int>, month: Option<int>, day: Option<int>, hour: int, minute: int)

  datatype Zone = Iana(name: string) | Fixed(offset: int) | Local

  /**
   * The foreign parts: chrono's strict parse of a string, and luxon's `fromObject`, which
   * fills absent higher units from the current date and fails on fields it rejects.
   */
  datatype Oracles = Oracles(parse: string -> seq<Reading>, place: (Fields, Zone) -> Option<Instant>)

  /** The refiner: with no certain hour the time is midnight; otherwise chrono's hour and minute. */
  function FieldsOf(r: Reading): Fields
  {
    if r.hour.Some? then Fields(r.year, r.month, r.day, r.hour.value, r.minute)
    else Fields(r.year, r.month, r.day, 0, 0)
  }

  /** The zone option: the abbreviation's IANA zone if truthy, else a truthy offset, else local time. */
  function ZoneFor(s: string, r: Reading): Zone
  {
    var iana := Timezones.Extract(s);
    if iana.Some? && |iana.value| > 0 then Iana(iana.value)
    else if r.offset.Some? && r.offset.value != 0 then Fixed(r.offset.value)
    else Local
  }

  /** The string branch of `dateTimeSchema`: `None` stands for an invalid DateTime. */
  function ParseDate(s: string, o: Oracles): Option<Instant>
  {
    var rs := o.parse(s);
    if |rs| == 0 then None else o.place(FieldsOf(rs[0]), ZoneFor(s, rs[0]))
  }

  /** `dateTimeSchema` on a present value; `None` is `null`. */
  function ReadDate(v: Value, field: string, o: Oracles): Result<Option<Instant>, Issue>
  {
    match v
    case Null => Ok(None)
    case DateTime(valid, at) => if valid then Ok(Some(at)) else Err(BadDate(field, InvalidDate))
    case Str(s) =>
      (match ParseDate(s, o)
       case Some(t) => Ok(Some(t))
       case None => Err(BadDate(field, InvalidDate)))
    case _ => Err(WrongType(field))
  }

  /** `start` defaults a missing value to null and `end` is nullish: both read as no instant. */
  function ReadOptionalDate(v: Option<Value>, field: string, o: Oracles): Result<Option<Instant>, Issue>
  {
    if v.None? then Ok(None) else ReadDate(v.value, field, o)
  }

  /** With no certain hour the time is 00:00; the date components pass only when chrono is certain of them. */
  lemma MidnightDefault(r: Reading)
    ensures r.hour.None? ==> FieldsOf(r).hour == 0 && FieldsOf(r).minute == 0
    ensures r.hour.Some? ==> FieldsOf(r).hour == r.hour.value && FieldsOf(r).minute == r.minute
    ensures FieldsOf(r).year == r.year && FieldsOf(r).month == r.month && FieldsOf(r).day == r.day
  {
  }

  /**
   * Zone choice: an abbreviation standing as a whole word in the string wins, and its zone is
   * the one of the leftmost such abbreviation; otherwise a certain non-zero offset; otherwise
   * local time. A certain offset of 0 is falsy and falls through to local time.
   */
  lemma ZoneChoice(s: string, r: Reading)
    ensures Timezones.Extract(s).Some? ==> ZoneFor(s, r) == Iana(Timezones.Extract(s).value)
    ensures ZoneFor(s, r).Iana? <==> exists i, a :: 0 <= i <= |s| && Timezones.MatchesAt(s, i, a)
    ensures Timezones.Extract(s).None? && r.offset.Some? && r.offset.value != 0 ==> ZoneFor(s, r) == Fixed(r.offset.value)
    ensures Timezones.Extract(s).None? && (r.offset.None? || r.offset.value == 0) ==> ZoneFor(s, r) == Local
  {
    Timezones.ExtractNonEmpty(s);
    Timezones.ExtractSpec(s);
  }

  /** The informal "7pm PT" is placed in the Pacific zone whatever offset chrono reports. */
  lemma PacificTimeZone(r: Reading)
    ensures ZoneFor("7pm PT", r) == Iana("America/Los_Angeles")
  {
    Timezones.EmbeddedAbbreviations();
  }

  /**
   * The outcome of `dateTimeSchema`: null passes as null, a DateTime instance passes
   * unchanged when valid, a string passes exactly when chrono reads something and luxon
   * places it, and every other failure to give a valid date is the "not a valid date" issue.
   */
  lemma ReadDateSpec(v: Value, field: string, o: Oracles)
    ensures v.Null? ==> ReadDate(v, field, o) == Ok(None)
    ensures v.DateTime? && v.valid ==> ReadDate(v, field, o) == Ok(Some(v.at))
    ensures v.Str? ==> (ReadDate(v, field, o).Ok? <==>
      |o.parse(v.s)| > 0 && o.place(FieldsOf(o.parse(v.s)[0]), ZoneFor(v.s, o.parse(v.s)[0])).Some?)
    ensures v.Str? && o.parse(v.s) == [] ==> ReadDate(v, field, o) == Err(BadDate(field, InvalidDate))
    ensures ReadDate(v, field, o).Err? ==>
      ReadDate(v, field, o).error == (if v.Str? || v.DateTime? then BadDate(field, InvalidDate) else WrongType(field))
  {
  }

  // ---------------------------------------------------------------------------------------
  // frequencySchema

  function KindName(k: Kind): string
  {
    match k
    case Once => "once" case Daily => "daily" case Weekly => "weekly" case Biweekly => "biweekly"
    case Weekdays => "weekdays" case Monthly => "monthly" case Annually => "annually"
    case Floating => "floating"
  }

  function KindNamed(s: string): Option<Kind>
  {
    if s == "once" then Some(Once) else if s == "daily" then Some(Daily)
    else if s == "weekly" then Some(Weekly) else if s == "biweekly" then Some(Biweekly)
    else if s == "weekdays" then Some(Weekdays) else if s == "monthly" then Some(Monthly)
    else if s == "annually" then Some(Annually) else if s == "floating" then Some(Floating)
    else None
  }

  function DayText(d: DayName): string
  {
    match d
    case Sunday => "sunday" case Monday => "monday" case Tuesday => "tuesday"
    case Wednesday => "wednesday" case Thursday => "thursday" case Friday => "friday"
    case Saturday => "saturday"
  }

  function DayNamed(s: string): Option<DayName>
  {
    if s == "sunday" then Some(Sunday) else if s == "monday" then Some(Monday)
    else if s == "tuesday" then Some(Tuesday) else if s == "wednesday" then Some(Wednesday)
    else if s == "thursday" then Some(Thursday) else if s == "friday" then Some(Friday)
    else if s == "saturday" then Some(Saturday) else None
  }

  function WeekText(w: WeekOrdinal): string
  {
    match w
    case First => "first" case Second => "second" case Third => "third"
    case Fourth => "fourth" case Last => "last"
  }

  function WeekNamed(s: string): Option<WeekOrdinal>
  {
    if s == "first" then Some(First) else if s == "second" then Some(Second)
    else if s == "third" then Some(Third) else if s == "fourth" then Some(Fourth)
    else if s == "last" then Some(Last) else None
  }

  function MonthText(m: MonthName): string
  {
    match m
    case January => "january" case February => "february" case March => "march"
    case April => "april" case May => "may" case June => "june" case July => "july"
    case August => "august" case September => "september" case October => "october"
    case November => "november" case December => "december"
  }

  function MonthNamed(s: string): Option<MonthName>
  {
    if s == "january" then Some(January) else if s == "february" then Some(February)
    else if s == "march" then Some(March) else if s == "april" then Some(April)
    else if s == "may" then Some(May) else if s == "june" then Some(June)
    else if s == "july" then Some(July) else if s == "august" then Some(August)
    else if s == "september" then Some(September) else if s == "october" then Some(October)
    else if s == "november" then Some(November) else if s == "december" then Some(December)
    else None
  }

  /** Each enum accepts exactly the listed lower-case names, one name per value. */
  lemma KindNames(k: Kind, s: string)
    ensures KindNamed(KindName(k)) == Some(k)
    ensures KindNamed(s) == Some(k) ==> s == KindName(k)
  {
  }

  lemma DayNames(d: DayName, s: string)
    ensures DayNamed(DayText(d)) == Some(d)
    ensures DayNamed(s) == Some(d) ==> s == DayText(d)
  {
  }

  lemma WeekNames(w: WeekOrdinal, s: string)
    ensures WeekNamed(WeekText(w)) == Some(w)
    ensures WeekNamed(s) == Some(w) ==> s == WeekText(w)
  {
  }

  lemma MonthNames(m: MonthName, s: string)
    ensures MonthNamed(MonthText(m)) == Some(m)
    ensures MonthNamed(s) == Some(m) ==> s == MonthText(m)
  {
  }

  function StrField(fields: map<string, Value>, key: string): Option<string>
  {
    if key in fields && fields[key].Str? then Some(fields[key].s) else None
  }

  /** The floating rule's three fields, each one of its enum's names. */
  function ReadRule(fields: map<string, Value>): Result<Frequency, Issue>
  {
    var d := if StrField(fields, "weekday").Some? then DayNamed(StrField(fields, "weekday").value) else None;
    var w := if StrField(fields, "week").Some? then WeekNamed(StrField(fields, "week").value) else None;
    var m := if StrField(fields, "month").Some? then MonthNamed(StrField(fields, "month").value) else None;
    if d.Some? && w.Some? && m.Some? then Ok(FloatingRule(d.value, w.value, m.value)) else Err(BadFrequency)
  }

  /**
   * `frequencySchema`: missing means `'once'`; a string must name a kind; an object is
   * told apart by its `kind`, carries nothing else unless it is `floating`, in which case
   * it needs the three rule fields. Anything else, `null` included, is refused.
   */
  function ReadFrequency(v: Option<Value>): Result<Frequency, Issue>
  {
    match v
    case None => Ok(Named(Once))
    case Some(Str(s)) => if KindNamed(s).Some? then Ok(Named(KindNamed(s).value)) else Err(BadFrequency)
    case Some(Record(fields)) =>
      if StrField(fields, "kind").None? || KindNamed(StrField(fields, "kind").value).None? then Err(BadFrequency)
      else if KindNamed(StrField(fields, "kind").value) == Some(Floating) then ReadRule(fields)
      else Ok(Tagged(KindNamed(StrField(fields, "kind").value).value))
    case Some(_) => Err(BadFrequency)
  }

  /** An accepted frequency is never an object of kind `floating` without its rule. */
  lemma ReadFrequencyShape(v: Option<Value>)
    ensures ReadFrequency(v).Ok? ==> ReadFrequency(v).value != Tagged(Floating)
    ensures v.Some? && v.value.Str? ==>
      (ReadFrequency(v).Ok? <==>
        v.value.s in {"once", "daily", "weekly", "biweekly", "weekdays", "monthly", "annually", "floating"})
  {
  }

  // ---------------------------------------------------------------------------------------
  // The tags field: a list of strings, empty when absent.

  predicate AllStrings(items: seq<Value>)
  {
    forall k | 0 <= k < |items| :: items[k].Str?
  }

  function ReadTags(v: Option<Value>): Result<seq<string>, Issue>
  {
    match v
    case None => Ok([])
    case Some(List(items)) =>
      if AllStrings(items) then Ok(seq(|items|, k requires 0 <= k < |items| => items[k].s))
      else Err(WrongType("tags"))
    case Some(_) => Err(WrongType("tags"))
  }

  // ---------------------------------------------------------------------------------------
  // eventSchema

  const Shape: set<string> := {"name", "priority", "location", "start", "end", "frequency", "tags"}

  const StartRequired: string := "start must be defined if frequency is not \"once\""
  const EndWithoutStart: string := "end cannot be defined if start is null"
  const EndBeforeStart: string := "start must be before end"

  /** The three cross-field refinements, in the order they are chained. */
  function Refine(e: Event): Result<Event, Issue>
  {
    if e.start.None? && e.frequency != Named(Once) then Err(Refused(StartRequired))
    else if e.end.Some? && e.start.None? then Err(Refused(EndWithoutStart))
    else if e.start.Some? && e.end.Some? && e.start.value > e.end.value then Err(Refused(EndBeforeStart))
    else Ok(e)
  }

  /** Each field of the shape read on its own. */
  datatype Parts = Parts(
    name: Result<string, Issue>,
    priority: Result<real, Issue>,
    location: Result<Option<string>, Issue>,
    start: Result<Option<Instant>, Issue>,
    end: Result<Option<Instant>, Issue>,
    frequency: Result<Frequency, Issue>,
    tags: Result<seq<string>, Issue>)

  function ReadParts(f: map<string, Value>, o: Oracles): Parts
  {
    Parts(
      ReadName(Field(f, "name")),
      ReadPriority(Field(f, "priority")),
      ReadLocation(Field(f, "location")),
      ReadOptionalDate(Field(f, "start"), "start", o),
      ReadOptionalDate(Field(f, "end"), "end", o),
      ReadFrequency(Field(f, "frequency")),
      ReadTags(Field(f, "tags")))
  }

  /** The first issue among the fields in shape order, then the unknown keys, then the refinements. */
  function Assemble(p: Parts, unknown: set<string>): Result<Event, Issue>
  {
    if p.name.Err? then Err(p.name.error)
    else if p.priority.Err? then Err(p.priority.error)
    else if p.location.Err? then Err(p.location.error)
    else if p.start.Err? then Err(p.start.error)
    else if p.end.Err? then Err(p.end.error)
    else if p.frequency.Err? then Err(p.frequency.error)
    else if p.tags.Err? then Err(p.tags.error)
    else if unknown != {} then Err(UnknownKeys(unknown))
    else Refine(Event(p.name.value, p.priority.value, p.location.value, p.start.value, p.end.value,
                      p.frequency.value, p.tags.value))
  }

  /** `eventSchema.parse` */
  function ValidateEvent(v: Value, o: Oracles): Result<Event, Issue>
  {
    if !v.Record? then Err(NotAnObject)
    else Assemble(ReadParts(v.fields, o), v.fields.Keys - Shape)
  }

  /** What every validated event satisfies. */
  predicate WellFormed(e: Event)
  {
    && |e.name| > 0 && Trim(e.name) == e.name
    && 0.0 <= e.priority <= 10.0
    && Dated(e)
    && (e.start.Some? && e.end.Some? ==> e.start.value <= e.end.value)
    && e.frequency != Tagged(Floating)
  }

  /** The refinements accept an event exactly when it has the start its frequency and end need, and ends no earlier. */
  lemma RefineSpec(e: Event)
    ensures Refine(e).Ok? <==> Dated(e) && (e.start.Some? && e.end.Some? ==> e.start.value <= e.end.value)
    ensures Refine(e).Ok? ==> Refine(e).value == e
  {
  }

  /** Assembling succeeds only from fields that all read, with no unknown key, and keeps their values. */
  lemma AssembleOk(p: Parts, unknown: set<string>)
    requires Assemble(p, unknown).Ok?
    ensures p.name.Ok? && p.priority.Ok? && p.location.Ok? && p.start.Ok? && p.end.Ok?
    ensures p.frequency.Ok? && p.tags.Ok? && unknown == {}
    ensures Assemble(p, unknown).value == Event(p.name.value, p.priority.value, p.location.value,
      p.start.value, p.end.value, p.frequency.value, p.tags.value)
  {
  }

  /** A name that reads is the input string trimmed, non-empty and with nothing left to trim. */
  lemma ReadNameSpec(v: Option<Value>)
    ensures ReadName(v).Ok? ==> v.Some? && v.value.Str? && ReadName(v).value == Trim(v.value.s)
    ensures ReadName(v).Ok? ==> |ReadName(v).value| > 0 && Trim(ReadName(v).value) == ReadName(v).value
  {
    if ReadName(v).Ok? {
      TrimIdempotent(v.value.s);
    }
  }

  /** A string is accepted as a name exactly when it holds a character that is not white space. */
  lemma NameNeedsNonSpace(s: string)
    ensures ReadName(Some(Str(s))).Ok? <==> exists k | 0 <= k < |s| :: !IsSpace(s[k])
  {
    TrimIdempotent(s);
    if ReadName(Some(Str(s))).Ok? {
      assert !forall k | 0 <= k < |s| :: IsSpace(s[k]);
    } else {
      assert forall k | 0 <= k < |s| :: IsSpace(s[k]);
    }
  }

  /**
   * An accepted record has only the shape's keys, its name is the input name trimmed, and
   * the event is well formed; a record with an unknown key is refused.
   */
  lemma ValidateEventSound(v: Value, o: Oracles)
    ensures ValidateEvent(v, o).Ok? ==> v.Record? && v.fields.Keys <= Shape
    ensures ValidateEvent(v, o).Ok? ==> WellFormed(ValidateEvent(v, o).value)
    ensures ValidateEvent(v, o).Ok? ==>
      ("name" in v.fields && v.fields["name"].Str? && ValidateEvent(v, o).value.name == Trim(v.fields["name"].s))
    ensures v.Record? && !(v.fields.Keys <= Shape) ==> ValidateEvent(v, o).Err?
  {
    if v.Record? {
      var p := ReadParts(v.fields, o);
      var u := v.fields.Keys - Shape;
      if Assemble(p, u).Ok? {
        AssembleOk(p, u);
        RefineSpec(Assemble(p, u).value);
        ReadNameSpec(Field(v.fields, "name"));
        ReadFrequencyShape(Field(v.fields, "frequency"));
      } else if u != {} {
        assert !(v.fields.Keys <= Shape);
      }
    }
  }

  /**
   * The defaults: a missing `location`, `start` or `end` is no value, a missing `frequency`
   * is `'once'` and missing `tags` are none; a missing `name` or `priority` is refused.
   */
  lemma Defaults(fields: map<string, Value>, o: Oracles)
    ensures "name" !in fields || "priority" !in fields ==> ValidateEvent(Record(fields), o).Err?
    ensures ValidateEvent(Record(fields), o).Ok? ==>
      var e := ValidateEvent(Record(fields), o).value;
      && ("location" !in fields ==> e.location == None)
      && ("start" !in fields ==> e.start == None)
      && ("end" !in fields ==> e.end == None)
      && ("frequency" !in fields ==> e.frequency == Named(Once))
      && ("tags" !in fields ==> e.tags == [])
  {
    var p := ReadParts(fields, o);
    if Assemble(p, fields.Keys - Shape).Ok? {
      AssembleOk(p, fields.Keys - Shape);
    }
  }

  // ---------------------------------------------------------------------------------------
  // The record an event is written back as (`yamlStringify` before parsing it again).

  function EncodeDate(t: Option<Instant>): Value
  {
    if t.Some? then DateTime(true, t.value) else Null
  }

  function EncodeFrequency(f: Frequency): Value
  {
    match f
    case Named(k) => Str(KindName(k))
    case Tagged(k) => Record(map["kind" := Str(KindName(k))])
    case FloatingRule(d, w, m) =>
      Record(map["kind" := Str("floating"), "weekday" := Str(DayText(d)), "week" := Str(WeekText(w)), "month" := Str(MonthText(m))])
  }

  function Encode(e: Event): Value
  {
    Record(map[
      "name" := Str(e.name),
      "priority" := Num(e.priority),
      "location" := (if e.location.Some? then Str(e.location.value) else Null),
      "start" := EncodeDate(e.start),
      "end" := EncodeDate(e.end),
      "frequency" := EncodeFrequency(e.frequency),
      "tags" := List(EncodeTags(e.tags))])
  }

  function EncodeTags(tags: seq<string>): seq<Value>
  {
    seq(|tags|, k requires 0 <= k < |tags| => Str(tags[k]))
  }

  lemma EncodeTagsRoundTrip(tags: seq<string>)
    ensures ReadTags(Some(List(EncodeTags(tags)))) == Ok(tags)
  {
    var items := EncodeTags(tags);
    assert AllStrings(items);
    assert seq(|items|, k requires 0 <= k < |items| => items[k].s) == tags;
  }

  lemma EncodeFrequencyRoundTrip(f: Frequency)
    ensures ReadFrequency(Some(EncodeFrequency(f))) == Ok(f) <==> f != Tagged(Floating)
  {
    match f
    case Named(k) => KindNames(k, KindName(k));
    case Tagged(k) =>
      var fields := map["kind" := Str(KindName(k))];
      assert StrField(fields, "kind") == Some(KindName(k));
      KindNames(k, KindName(k));
      if k == Floating {
        assert StrField(fields, "weekday") == None;
      }
    case FloatingRule(d, w, m) => EncodeRuleRoundTrip(d, w, m);
  }

  lemma EncodeRuleRoundTrip(d: DayName, w: WeekOrdinal, m: MonthName)
    ensures ReadFrequency(Some(EncodeFrequency(FloatingRule(d, w, m)))) == Ok(FloatingRule(d, w, m))
  {
    var fields := EncodeFrequency(FloatingRule(d, w, m)).fields;
    assert StrField(fields, "kind") == Some("floating");
    assert StrField(fields, "weekday") == Some(DayText(d));
    assert StrField(fields, "week") == Some(WeekText(w));
    assert StrField(fields, "month") == Some(MonthText(m));
    DayNames(d, DayText(d));
    WeekNames(w, WeekText(w));
    MonthNames(m, MonthText(m));
  }

  /** The record of an event holds the shape's keys, each with the event's own value. */
  lemma EncodeLookups(e: Event)
    ensures Encode(e).fields.Keys == Shape
    ensures Field(Encode(e).fields, "name") == Some(Str(e.name))
    ensures Field(Encode(e).fields, "priority") == Some(Num(e.priority))
    ensures Field(Encode(e).fields, "location") == Some(if e.location.Some? then Str(e.location.value) else Null)
    ensures Field(Encode(e).fields, "start") == Some(EncodeDate(e.start))
    ensures Field(Encode(e).fields, "end") == Some(EncodeDate(e.end))
    ensures Field(Encode(e).fields, "frequency") == Some(EncodeFrequency(e.frequency))
    ensures Field(Encode(e).fields, "tags") == Some(List(EncodeTags(e.tags)))
  {
  }

  /** Each field of the record of an event reads back as the event's own value. */
  lemma EncodeFields(e: Event, o: Oracles)
    ensures ReadParts(Encode(e).fields, o) == Parts(
      ReadName(Some(Str(e.name))), ReadPriority(Some(Num(e.priority))), Ok(e.location), Ok(e.start), Ok(e.end),
      ReadFrequency(Some(EncodeFrequency(e.frequency))), Ok(e.tags))
  {
    var f := Encode(e).fields;
    EncodeLookups(e);
    EncodeTagsRoundTrip(e.tags);
    assert ReadLocation(Field(f, "location")) == Ok(e.location);
    assert ReadOptionalDate(Field(f, "start"), "start", o) == Ok(e.start);
    assert ReadOptionalDate(Field(f, "end"), "end", o) == Ok(e.end);
  }

  /**
   * The validator accepts the record of an event and gives the event back exactly when the
   * event is well formed.
   */
  lemma RoundTrip(e: Event, o: Oracles)
    ensures ValidateEvent(Encode(e), o) == Ok(e) <==> WellFormed(e)
  {
    var f := Encode(e).fields;
    EncodeLookups(e);
    EncodeFields(e, o);
    assert f.Keys - Shape == {};
    EncodeFrequencyRoundTrip(e.frequency);
    RefineSpec(e);
    var p := ReadParts(f, o);
    if WellFormed(e) {
      assert p.name == Ok(e.name);
    }
    if ValidateEvent(Encode(e), o) == Ok(e) {
      AssembleOk(p, {});
      ReadNameSpec(Some(Str(e.name)));
    }
  }

  // ---------------------------------------------------------------------------------------
  // The data-file schema: an `upcoming` list of events; other keys pass through.

  /**
   * A list schema: every element of the list, in order, through the element schema `check`;
   * the first refused element is reported with its index.
   */
  function ValidateList<T>(items: seq<Value>, check: Value -> Result<T, Issue>): Result<seq<T>, Issue>
    decreases |items|
  {
    if |items| == 0 then Ok([])
    else
      var init := ValidateList(items[..|items| - 1], check);
      var last := check(items[|items| - 1]);
      if init.Err? then init
      else if last.Err? then Err(AtEvent(|items| - 1, last.error))
      else Ok(init.value + [last.value])
  }

  function EventSchema(o: Oracles): Value -> Result<Event, Issue>
  {
    v => ValidateEvent(v, o)
  }

  function ValidateData(doc: Value, o: Oracles): Result<seq<Event>, Issue>
  {
    if !doc.Record? then Err(NotAnObject)
    else match Field(doc.fields, "upcoming")
      case Some(List(items)) => ValidateList(items, EventSchema(o))
      case _ => Err(WrongType("upcoming"))
  }

  /** An accepted list holds the results of its elements, in order, and every element is accepted. */
  lemma {:induction false} ValidateListOk<T>(items: seq<Value>, check: Value -> Result<T, Issue>)
    requires ValidateList(items, check).Ok?
    ensures |ValidateList(items, check).value| == |items|
    ensures forall k | 0 <= k < |items| :: check(items[k]) == Ok(ValidateList(items, check).value[k])
    decreases |items|
  {
    if |items| > 0 {
      var init := items[..|items| - 1];
      ValidateListOk(init, check);
      assert forall k | 0 <= k < |init| :: items[k] == init[k];
    }
  }

  /** A refused list names the first refused element, and its issue. */
  lemma {:induction false} ValidateListErr<T>(items: seq<Value>, check: Value -> Result<T, Issue>)
    requires ValidateList(items, check).Err?
    ensures var issue := ValidateList(items, check).error;
      && issue.AtEvent? && issue.index < |items|
      && check(items[issue.index]) == Err(issue.issue)
      && forall k | 0 <= k < issue.index :: check(items[k]).Ok?
    decreases |items|
  {
    var init := items[..|items| - 1];
    assert forall k | 0 <= k < |init| :: items[k] == init[k];
    if ValidateList(init, check).Err? {
      ValidateListErr(init, check);
    } else {
      ValidateListOk(init, check);
    }
  }

  /** The list is accepted exactly when every element is. */
  lemma ValidateListSpec<T>(items: seq<Value>, check: Value -> Result<T, Issue>)
    ensures ValidateList(items, check).Ok? <==> forall k | 0 <= k < |items| :: check(items[k]).Ok?
  {
    if ValidateList(items, check).Ok? {
      ValidateListOk(items, check);
    } else {
      ValidateListErr(items, check);
    }
  }

  /** Every event of an accepted data file is well formed. */
  lemma ValidateDataWellFormed(doc: Value, o: Oracles)
    ensures ValidateData(doc, o).Ok? ==> forall x | x in ValidateData(doc, o).value :: WellFormed(x)
  {
    if ValidateData(doc, o).Ok? {
      var items := Field(doc.fields, "upcoming").value.items;
      var es := ValidateData(doc, o).value;
      ValidateListOk(items, EventSchema(o));
      forall x | x in es
        ensures WellFormed(x)
      {
        var k :| 0 <= k < |es| && es[k] == x;
        ValidateEventSound(items[k], o);
      }
    }
  }

  /** Keys other than `upcoming` pass through and have no effect on the outcome. */
  lemma Passthrough(fields: map<string, Value>, key: string, x: Value, o: Oracles)
    requires key != "upcoming"
    ensures ValidateData(Record(fields[key := x]), o) == ValidateData(Record(fields), o)
  {
    assert Field(fields[key := x], "upcoming") == Field(fields, "upcoming");
  }
}
