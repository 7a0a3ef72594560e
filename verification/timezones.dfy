/**
 * `extractAndConvertTimezone`: finds the leftmost US time-zone abbreviation that stands as a
 * whole word in a string, ignoring ASCII case, and returns the IANA zone it names.
 *
 * The case-insensitive word-bounded alternation of abbreviations is modelled directly: a token matches
 * at a position when the upper-cased characters there spell it and there is a word
 * boundary on both sides (`\w` is `[A-Za-z0-9_]`; `/i` without `/u` never matches a
 * non-ASCII character against an ASCII letter).
 */
module Timezones {
  import opened Wrappers

  /** The abbreviations the regular expression lists. */
  datatype Abbrev = EST | EDT | CST | CDT | MST | MDT | PST | PDT
                  | ET | CT | MT | PT | AKST | AKDT | HST | HAST | HADT | CHST

  /** The alternatives of the regular expression, in the order it tries them. */
  const Alternatives: seq<Abbrev> := [
    EST, EDT, CST, CDT, MST, MDT, PST, PDT, ET, CT, MT, PT, AKST, AKDT, HST, HAST, HADT, CHST]

  function Spelling(a: Abbrev): string
  {
    match a
    case EST => "EST" case EDT => "EDT" case CST => "CST" case CDT => "CDT"
    case MST => "MST" case MDT => "MDT" case PST => "PST" case PDT => "PDT"
    case ET => "ET" case CT => "CT" case MT => "MT" case PT => "PT"
    case AKST => "AKST" case AKDT => "AKDT" case HST => "HST" case HAST => "HAST"
    case HADT => "HADT" case CHST => "CHST"
  }

  /** The IANA zone the table lists for each abbreviation. */
  function Zone(a: Abbrev): string
  {
    match a
    case ET | EST | EDT => "America/New_York"
    case CT | CST | CDT => "America/Chicago"
    case MT | MST | MDT => "America/Denver"
    case PT | PST | PDT => "America/Los_Angeles"
    case AKST | AKDT => "America/Anchorage"
    case HST | HAST | HADT => "Pacific/Honolulu"
    case CHST => "Pacific/Guam"
  }

  /** The abbreviation table: upper-case abbreviation to IANA zone name. */
  const ZoneOf: map<string, string> := map[
    "ET" := "America/New_York", "EST" := "America/New_York",
    "CT" := "America/Chicago", "CST" := "America/Chicago",
    "MT" := "America/Denver", "MST" := "America/Denver",
    "PT" := "America/Los_Angeles", "PST" := "America/Los_Angeles",
    "EDT" := "America/New_York", "CDT" := "America/Chicago",
    "MDT" := "America/Denver", "PDT" := "America/Los_Angeles",
    "AKST" := "America/Anchorage", "AKDT" := "America/Anchorage",
    "HST" := "Pacific/Honolulu", "HAST" := "Pacific/Honolulu", "HADT" := "Pacific/Honolulu",
    "CHST" := "Pacific/Guam"]

  /**
   * Every alternative of the regular expression is a key of the table, and the table gives
   * it the zone of its family: generic, standard and daylight forms name the same zone.
   */
  lemma TableLookup(a: Abbrev)
    ensures Spelling(a) in ZoneOf && ZoneOf[Spelling(a)] == Zone(a) && |Zone(a)| > 0
  {
  }

  /** Every spelling is an upper-case ASCII word of two to four letters ending in T. */
  lemma SpellingShape(a: Abbrev)
    ensures 2 <= |Spelling(a)| <= 4
    ensures forall k :: 0 <= k < |Spelling(a)| ==> 'A' <= Spelling(a)[k] <= 'Z'
    ensures Spelling(a)[|Spelling(a)| - 1] == 'T'
  {
  }

  /** `\w` */
  predicate IsWordChar(c: char)
  {
    ('a' <= c <= 'z') || ('A' <= c <= 'Z') || ('0' <= c <= '9') || c == '_'
  }

  /** ASCII upper case; every other character is left alone. */
  function Upper(c: char): char
  {
    if 'a' <= c <= 'z' then (c as int - 32) as char else c
  }

  /** `toUpperCase` restricted to the characters a matched abbreviation can hold. */
  function UpperStr(s: string): (r: string)
    ensures |r| == |s|
    ensures forall k :: 0 <= k < |s| ==> r[k] == Upper(s[k])
  {
    seq(|s|, k requires 0 <= k < |s| => Upper(s[k]))
  }

  /** A character whose upper case is a letter is a word character; upper-casing keeps word characters. */
  lemma WordCharUpper(c: char)
    ensures IsWordChar(Upper(c)) == IsWordChar(c)
    ensures 'A' <= Upper(c) <= 'Z' ==> IsWordChar(c)
  {
  }

  /** `\b` at position `i`: a word character on exactly one side. */
  predicate Boundary(s: string, i: int)
    requires 0 <= i <= |s|
  {
    (i > 0 && IsWordChar(s[i - 1])) != (i < |s| && IsWordChar(s[i]))
  }

  /** Abbreviation `a` matches case-insensitively at position `i` as a whole word. */
  predicate MatchesAt(s: string, i: int, a: Abbrev)
  {
    var t := Spelling(a);
    && 0 <= i && i + |t| <= |s|
    && Boundary(s, i) && Boundary(s, i + |t|)
    && forall k :: 0 <= k < |t| ==> Upper(s[i + k]) == t[k]
  }

  /** The first of `alts` that matches at `i`. */
  function FirstMatch(s: string, i: int, alts: seq<Abbrev>): Option<Abbrev>
  {
    if |alts| == 0 then None
    else if MatchesAt(s, i, alts[0]) then Some(alts[0])
    else FirstMatch(s, i, alts[1..])
  }

  lemma {:induction false} FirstMatchSpec(s: string, i: int, alts: seq<Abbrev>)
    ensures FirstMatch(s, i, alts).Some? ==> MatchesAt(s, i, FirstMatch(s, i, alts).value)
    ensures FirstMatch(s, i, alts).None? ==> forall a | a in alts :: !MatchesAt(s, i, a)
    decreases |alts|
  {
    if |alts| > 0 {
      FirstMatchSpec(s, i, alts[1..]);
    }
  }

  /** Where each abbreviation sits among the alternatives. */
  function Position(a: Abbrev): (k: nat)
    ensures k < |Alternatives| && Alternatives[k] == a
  {
    match a
    case EST => 0 case EDT => 1 case CST => 2 case CDT => 3 case MST => 4 case MDT => 5
    case PST => 6 case PDT => 7 case ET => 8 case CT => 9 case MT => 10 case PT => 11
    case AKST => 12 case AKDT => 13 case HST => 14 case HAST => 15 case HADT => 16 case CHST => 17
  }

  /** When no alternative is the first to match at a position, none matches there. */
  lemma NoAlternativeMatches(s: string, i: int)
    requires FirstMatch(s, i, Alternatives).None?
    ensures forall a :: !MatchesAt(s, i, a)
  {
    FirstMatchSpec(s, i, Alternatives);
    forall a
      ensures !MatchesAt(s, i, a)
    {
      assert Alternatives[Position(a)] in Alternatives;
    }
  }

  datatype Found = Found(at: nat, abbrev: Abbrev)

  /** The regular expression's scan: the first position from `i` on where some alternative matches. */
  function Scan(s: string, i: nat): Option<Found>
    requires i <= |s|
    decreases |s| - i
  {
    match FirstMatch(s, i, Alternatives)
    case Some(a) => Some(Found(i, a))
    case None => if i == |s| then None else Scan(s, i + 1)
  }

  /** No abbreviation matches at any position from `lo` up to, not including, `hi`. */
  predicate NoneBetween(s: string, lo: int, hi: int)
  {
    forall j, a | lo <= j < hi :: !MatchesAt(s, j, a)
  }

  lemma NoneBetweenCons(s: string, i: int, hi: int)
    requires forall a :: !MatchesAt(s, i, a)
    requires NoneBetween(s, i + 1, hi)
    ensures NoneBetween(s, i, hi)
  {
  }

  /** A match found by the scan is a whole-word match with none at any earlier position. */
  lemma {:induction false} ScanFinds(s: string, i: nat)
    requires i <= |s| && Scan(s, i).Some?
    ensures var f := Scan(s, i).value;
      i <= f.at <= |s| && MatchesAt(s, f.at, f.abbrev) && NoneBetween(s, i, f.at)
    decreases |s| - i
  {
    FirstMatchSpec(s, i, Alternatives);
    if FirstMatch(s, i, Alternatives).None? {
      NoAlternativeMatches(s, i);
      ScanFinds(s, i + 1);
      NoneBetweenCons(s, i, Scan(s, i + 1).value.at);
    }
  }

  /** When the scan finds nothing, nothing matches from `i` to the end. */
  lemma {:induction false} ScanMisses(s: string, i: nat)
    requires i <= |s| && Scan(s, i).None?
    ensures NoneBetween(s, i, |s| + 1)
    decreases |s| - i
  {
    NoAlternativeMatches(s, i);
    if i < |s| {
      ScanMisses(s, i + 1);
      NoneBetweenCons(s, i, |s| + 1);
    }
  }

  /** The scan finds a whole-word match with none at any earlier position, or shows there is none. */
  lemma ScanSpec(s: string, i: nat)
    requires i <= |s|
    ensures Scan(s, i).Some? ==>
      var f := Scan(s, i).value;
      i <= f.at <= |s| && MatchesAt(s, f.at, f.abbrev) && NoneBetween(s, i, f.at)
    ensures Scan(s, i).None? ==> NoneBetween(s, i, |s| + 1)
  {
    if Scan(s, i).Some? {
      ScanFinds(s, i);
    } else {
      ScanMisses(s, i);
    }
  }

  /** The text an abbreviation matched, upper-cased, is its spelling, so it is a key of the table. */
  lemma MatchedText(s: string, i: int, a: Abbrev)
    requires MatchesAt(s, i, a)
    ensures UpperStr(s[i..i + |Spelling(a)|]) == Spelling(a)
    ensures UpperStr(s[i..i + |Spelling(a)|]) in ZoneOf
  {
    TableLookup(a);
  }

  /** `extractAndConvertTimezone` */
  function Extract(s: string): Option<string>
  {
    match Scan(s, 0)
    case None => None
    case Some(f) =>
      ScanSpec(s, 0);
      MatchedText(s, f.at, f.abbrev);
      Some(ZoneOf[UpperStr(s[f.at..f.at + |Spelling(f.abbrev)|])])
  }

  /**
   * No spelling is a proper prefix of another, so the word boundary after a match decides
   * which abbreviation it is: at most one matches at any position.
   */
  lemma OneAbbrevPerPosition(s: string, i: int, a: Abbrev, b: Abbrev)
    requires MatchesAt(s, i, a) && MatchesAt(s, i, b)
    ensures a == b
  {
    var t, u := Spelling(a), Spelling(b);
    SpellingShape(a);
    SpellingShape(b);
    if |t| < |u| {
      NoBoundaryInsideWord(s, i, |t|, u);
      assert false;
    } else if |u| < |t| {
      NoBoundaryInsideWord(s, i, |u|, t);
      assert false;
    } else {
      assert t == u;
      SpellingInjective(a, b);
    }
  }

  /** Inside a stretch spelling an upper-case word there is no word boundary. */
  lemma NoBoundaryInsideWord(s: string, i: int, n: int, w: string)
    requires 0 < n < |w| && 0 <= i && i + |w| <= |s|
    requires forall k :: 0 <= k < |w| ==> 'A' <= w[k] <= 'Z'
    requires forall k :: 0 <= k < |w| ==> Upper(s[i + k]) == w[k]
    ensures !Boundary(s, i + n)
  {
    assert Upper(s[i + n - 1]) == w[n - 1];
    assert Upper(s[i + n]) == w[n];
    WordCharUpper(s[i + n - 1]);
    WordCharUpper(s[i + n]);
  }

  lemma SpellingInjective(a: Abbrev, b: Abbrev)
    requires Spelling(a) == Spelling(b)
    ensures a == b
  {
  }

  /**
   * The result is null exactly when no abbreviation stands as a whole word anywhere;
   * otherwise it is the zone of the abbreviation found at the leftmost position where one
   * does, and that abbreviation is the only one matching there.
   */
  lemma ExtractSpec(s: string)
    ensures Extract(s).None? <==> forall i, a | 0 <= i <= |s| :: !MatchesAt(s, i, a)
    ensures Extract(s).Some? ==> exists i, a ::
      && 0 <= i <= |s| && MatchesAt(s, i, a)
      && Extract(s).value == Zone(a)
      && forall j, b | 0 <= j < i :: !MatchesAt(s, j, b)
  {
    ScanSpec(s, 0);
    if Scan(s, 0).Some? {
      var f := Scan(s, 0).value;
      ExtractFound(s);
      assert MatchesAt(s, f.at, f.abbrev);
      assert NoneBetween(s, 0, f.at);
      assert 0 <= f.at <= |s| && MatchesAt(s, f.at, f.abbrev) && Extract(s).value == Zone(f.abbrev)
        && forall j, b | 0 <= j < f.at :: !MatchesAt(s, j, b);
    }
  }

  /** A scan that finds an abbreviation gives the zone the table lists for it. */
  lemma ExtractFound(s: string)
    requires Scan(s, 0).Some?
    ensures Extract(s) == Some(Zone(Scan(s, 0).value.abbrev))
  {
    var f := Scan(s, 0).value;
    ScanSpec(s, 0);
    MatchedText(s, f.at, f.abbrev);
    TableLookup(f.abbrev);
  }

  /** Every zone the function can return is a non-empty name. */
  lemma ExtractNonEmpty(s: string)
    ensures Extract(s).Some? ==> |Extract(s).value| > 0
  {
    if Scan(s, 0).Some? {
      ExtractFound(s);
      TableLookup(Scan(s, 0).value.abbrev);
    }
  }

  predicate SameUpToCase(s: string, s': string)
  {
    |s| == |s'| && forall k :: 0 <= k < |s| ==> Upper(s[k]) == Upper(s'[k])
  }

  lemma MatchesUpToCase(s: string, s': string, i: int, a: Abbrev)
    requires SameUpToCase(s, s')
    ensures MatchesAt(s, i, a) == MatchesAt(s', i, a)
  {
    forall k | 0 <= k < |s|
      ensures IsWordChar(s[k]) == IsWordChar(s'[k])
    {
      WordCharUpper(s[k]);
      WordCharUpper(s'[k]);
    }
  }

  lemma {:induction false} FirstMatchUpToCase(s: string, s': string, i: int, alts: seq<Abbrev>)
    requires SameUpToCase(s, s')
    ensures FirstMatch(s, i, alts) == FirstMatch(s', i, alts)
    decreases |alts|
  {
    if |alts| > 0 {
      MatchesUpToCase(s, s', i, alts[0]);
      FirstMatchUpToCase(s, s', i, alts[1..]);
    }
  }

  lemma {:induction false} ScanUpToCase(s: string, s': string, i: nat)
    requires SameUpToCase(s, s') && i <= |s|
    ensures Scan(s, i) == Scan(s', i)
    decreases |s| - i
  {
    FirstMatchUpToCase(s, s', i, Alternatives);
    if i < |s| {
      ScanUpToCase(s, s', i + 1);
    }
  }

  /** Matching ignores ASCII case: strings that differ only in letter case give the same zone. */
  lemma ExtractIgnoresCase(s: string, s': string)
    requires SameUpToCase(s, s')
    ensures Extract(s) == Extract(s')
  {
    ScanUpToCase(s, s', 0);
    if Scan(s, 0).Some? {
      ExtractFound(s);
      ExtractFound(s');
    }
  }

  /** An abbreviation glued to other word characters is not a whole word: "PTO" and "00PT" hold no zone, "7pm PT" does. */
  lemma EmbeddedAbbreviations()
    ensures Extract("PTO") == None
    ensures Extract("00PT") == None
    ensures Extract("7pm PT") == Some("America/Los_Angeles")
  {
    ExtractSpec("PTO");
    ExtractSpec("00PT");
    NoMatchInPto();
    NoMatchIn00Pt();
    OnlyMatchIn7pmPt();
  }

  lemma NoMatchInPto()
    ensures forall i, a | 0 <= i <= 3 :: !MatchesAt("PTO", i, a)
  {
    var s := "PTO";
    assert !Boundary(s, 1) && !Boundary(s, 2);
    forall i, a | 0 <= i <= 3
      ensures !MatchesAt(s, i, a)
    {
      SpellingShape(a);
      var t := Spelling(a);
      if i == 0 && |t| == 3 {
        assert Upper(s[2]) == 'O';
      }
    }
  }

  lemma NoMatchIn00Pt()
    ensures forall i, a | 0 <= i <= 4 :: !MatchesAt("00PT", i, a)
  {
    var s := "00PT";
    assert !Boundary(s, 1) && !Boundary(s, 2) && !Boundary(s, 3);
    forall i, a | 0 <= i <= 4
      ensures !MatchesAt(s, i, a)
    {
      SpellingShape(a);
      if i == 0 && |Spelling(a)| == 4 {
        assert Upper(s[0]) == '0';
      }
    }
  }

  lemma OnlyMatchIn7pmPt()
    ensures Extract("7pm PT") == Some("America/Los_Angeles")
  {
    var s := "7pm PT";
    assert Boundary(s, 4) && Boundary(s, 6) && Upper(s[4]) == 'P' && Upper(s[5]) == 'T';
    assert MatchesAt(s, 4, PT);
    assert !Boundary(s, 1) && !Boundary(s, 2) && !Boundary(s, 5);
    forall j, b | 0 <= j < 4
      ensures !MatchesAt(s, j, b)
    {
      SpellingShape(b);
      if j == 0 {
        assert Upper(s[0]) == '7';
      } else if j == 3 {
        assert Upper(s[3]) == ' ';
      }
    }
    ScanSkips(s, 0, 4);
    OnlyMatchIsFirst(s, 4, PT);
    assert Scan(s, 4) == Some(Found(4, PT));
    ExtractFound(s);
  }

  /** An abbreviation that matches is the one the alternatives pick at that position. */
  lemma OnlyMatchIsFirst(s: string, i: int, a: Abbrev)
    requires MatchesAt(s, i, a)
    ensures FirstMatch(s, i, Alternatives) == Some(a)
  {
    FirstMatchSpec(s, i, Alternatives);
    assert Alternatives[Position(a)] in Alternatives;
    OneAbbrevPerPosition(s, i, a, FirstMatch(s, i, Alternatives).value);
  }

  /** The scan passes over positions where nothing matches. */
  lemma {:induction false} ScanSkips(s: string, i: nat, j: nat)
    requires i <= j <= |s| && NoneBetween(s, i, j)
    ensures Scan(s, i) == Scan(s, j)
    decreases j - i
  {
    if i < j {
      FirstMatchSpec(s, i, Alternatives);
      ScanSkips(s, i + 1, j);
    }
  }
}
