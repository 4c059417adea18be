/** `matches_criteria` (main.py:95-113): an order is in scope when the
    first of its comma-separated tags that reads as an "MM-DD-YYYY" date
    names a day at most 31 days before or after today. */
module Criteria {
  import opened Wrappers
  import opened Text
  import opened Calendar
  import opened Strptime

  /** The in-scope window, in days either side of today. */
  const WindowDays := 31

  /** `re.match(r"\d{2}-\d{2}-\d{4}", tag)`: a test of the tag's start
      only, so text may follow. */
  predicate LooksLikeDate(tag: string) {
    && |tag| >= 10
    && AllDigits(tag[..2]) && tag[2] == '-'
    && AllDigits(tag[3..5]) && tag[5] == '-'
    && AllDigits(tag[6..10])
  }

  /** The date one stripped tag contributes: None when the pattern test
      fails or `strptime(tag, "%m-%d-%Y")` raises ValueError. */
  function TagDate(tag: string): (r: Option<Date>)
    ensures r.Some? ==> IsValid(r.value)
  {
    if LooksLikeDate(tag) then Parse(tag, MonthDayYear) else None
  }

  /** `tag` is exactly the zero-padded "MM-DD-YYYY" text of the date `d`. */
  ghost predicate IsDateTag(tag: string, d: Date) {
    IsValid(d) && tag == FormatMDY(d)
  }

  /** Because strptime must consume the whole tag, the pattern test and the
      parse together accept exactly the ten-character zero-padded
      rendering of a real calendar date. */
  lemma TagDateExact(tag: string, d: Date)
    ensures TagDate(tag) == Some(d) <==> IsDateTag(tag, d)
  {
    if TagDate(tag) == Some(d) {
      ParseShapedMDY(tag);
    }
    if IsDateTag(tag, d) {
      assert tag[..2] == Pad2(d.month) && tag[3..5] == Pad2(d.day) && tag[6..10] == Pad4(d.year);
      ParseFormatMDY(d);
    }
  }

  /** A tag that yields a date reads back as that date's fields. */
  lemma TagDateReadsFields(tag: string, d: Date)
    requires TagDate(tag) == Some(d)
    ensures |tag| == 10
    ensures d == Date(GroupValue(tag[6..10]), GroupValue(tag[..2]), GroupValue(tag[3..5]))
  {
    TagDateExact(tag, d);
    assert tag[..2] == Pad2(d.month) && tag[3..5] == Pad2(d.day) && tag[6..10] == Pad4(d.year);
  }

  /** A tag of any other length, or whose fields name no real calendar
      date, is skipped. */
  lemma NonDateSkipped(tag: string)
    requires |tag| != 10 || !IsValid(Date(GroupValue(tag[6..10]), GroupValue(tag[..2]), GroupValue(tag[3..5])))
    ensures TagDate(tag) == None
  {
    if TagDate(tag).Some? {
      TagDateReadsFields(tag, TagDate(tag).value);
    }
  }

  /** Month 13, February 30th, trailing text after the year, and unpadded
      fields are all skipped. */
  lemma SkippedExamples()
    ensures TagDate("13-01-2025") == None
    ensures TagDate("02-30-2025") == None
    ensures TagDate("03-07-2025 pm") == None
    ensures TagDate("3-7-2025") == None
  {
    assert GroupValue("13") == 13;
    NonDateSkipped("13-01-2025");
    assert GroupValue("02") == 2 && GroupValue("30") == 30;
    NonDateSkipped("02-30-2025");
    NonDateSkipped("03-07-2025 pm");
    NonDateSkipped("3-7-2025");
  }

  /** What each tag yields after stripping, in listed order. */
  function TagDates(tags: seq<string>): (ds: seq<Option<Date>>)
    ensures |ds| == |tags|
    ensures forall i :: 0 <= i < |tags| ==> ds[i] == TagDate(Strip(tags[i]))
  {
    seq(|tags|, i requires 0 <= i < |tags| => TagDate(Strip(tags[i])))
  }

  /** The date of the first tag, in listed order, that yields one after
      stripping; tags before it yield none and tags after it are never
      looked at. */
  function FirstTagDate(tags: seq<string>): (r: Option<Date>)
    ensures r.Some? ==> IsValid(r.value)
  {
    var ds := TagDates(tags);
    var r := FirstSome(ds);
    assert r.Some? ==> IsValid(r.value) by {
      if r.Some? {
        var i :| 0 <= i < |ds| && ds[i] == r && forall j :: 0 <= j < i ==> ds[j].None?;
        assert r == TagDate(Strip(tags[i]));
      }
    }
    r
  }

  function Abs(n: int): nat {
    if n < 0 then -n else n
  }

  /** `matches_criteria(order)`. `tags` is the order's "tags" field (None
      when absent, read as ""); `today` is the day number of
      `datetime.now()`. The tag date is at midnight, so the `.days` of the
      difference is the whole-day difference of the two day numbers. */
  function MatchesCriteria(tags: Option<string>, today: int): bool {
    InWindow(FirstTagDate(Split(tags.GetOr(""), ',')), today)
  }

  /** The decision on the first tag date: no date never matches. */
  function InWindow(first: Option<Date>, today: int): bool
    requires first.Some? ==> IsValid(first.value)
  {
    match first
    case None => false
    case Some(d) => Abs(today - Ordinal(d)) <= WindowDays
  }

  /** The hinge between the two layers: once the first tag date is known,
      the decision is the window test on it. */
  lemma MatchesWithFirst(tags: Option<string>, today: int, d: Date)
    requires IsValid(d)
    requires FirstTagDate(Split(tags.GetOr(""), ',')) == Some(d)
    ensures MatchesCriteria(tags, today) <==> Abs(today - Ordinal(d)) <= WindowDays
  {
    DecidedByFirst(tags, today, d);
    WindowOnDate(d, today);
  }

  /** The decision depends on the tags only through the first tag date. */
  lemma DecidedByFirst(tags: Option<string>, today: int, d: Date)
    requires IsValid(d)
    requires FirstTagDate(Split(tags.GetOr(""), ',')) == Some(d)
    ensures MatchesCriteria(tags, today) == InWindow(Some(d), today)
  {
  }

  /** A known date is in the window when its day number is at most 31
      away from today's. */
  lemma WindowOnDate(d: Date, today: int)
    requires IsValid(d)
    ensures InWindow(Some(d), today) <==> Abs(today - Ordinal(d)) <= WindowDays
  {
  }

  /** Stated without the parser: the stripped tag at index `i` is exactly
      `d` in "MM-DD-YYYY" form, and no earlier stripped tag is any date in
      that form. */
  ghost predicate DecidingTag(parts: seq<string>, i: int, d: Date) {
    && 0 <= i < |parts|
    && IsDateTag(Strip(parts[i]), d)
    && forall j, e :: 0 <= j < i ==> !IsDateTag(Strip(parts[j]), e)
  }

  /** A deciding tag makes its date the first tag date. */
  lemma FirstTagDateAt(parts: seq<string>, i: int, d: Date)
    requires DecidingTag(parts, i, d)
    ensures FirstTagDate(parts) == Some(d)
  {
    var ds := TagDates(parts);
    TagDateExact(Strip(parts[i]), d);
    assert ds[i] == Some(d);
    forall j | 0 <= j < i ensures ds[j].None? {
      if ds[j].Some? {
        TagDateExact(Strip(parts[j]), ds[j].value);
      }
    }
    FirstSomeAt(ds, i);
  }

  /** Conversely, the first tag date comes from a deciding tag. */
  lemma FirstTagDateWitness(parts: seq<string>) returns (i: int)
    requires FirstTagDate(parts).Some?
    ensures IsValid(FirstTagDate(parts).value)
    ensures DecidingTag(parts, i, FirstTagDate(parts).value)
  {
    var ds := TagDates(parts);
    var d := FirstSome(ds).value;
    i :| 0 <= i < |ds| && ds[i] == Some(d) && forall j :: 0 <= j < i ==> ds[j].None?;
    TagDateExact(Strip(parts[i]), d);
    forall j, e | 0 <= j < i ensures !IsDateTag(Strip(parts[j]), e) {
      TagDateExact(Strip(parts[j]), e);
    }
  }

  /** Some tag decides, and its date lies within the window of `today`. */
  ghost predicate DecidedInWindow(parts: seq<string>, today: int) {
    exists i, d :: DecidingTag(parts, i, d) && Abs(today - Ordinal(d)) <= WindowDays
  }

  /** A matching order has a deciding tag whose date lies in the window. */
  lemma MatchHasDecidingTag(tags: Option<string>, today: int)
    ensures MatchesCriteria(tags, today) ==> DecidedInWindow(Split(tags.GetOr(""), ','), today)
  {
    var parts := Split(tags.GetOr(""), ',');
    var r := FirstTagDate(parts);
    if r.Some? {
      var i := FirstTagDateWitness(parts);
      MatchesWithFirst(tags, today, r.value);
    }
  }

  /** A deciding tag whose date lies in the window makes the order match. */
  lemma DecidingTagMatches(tags: Option<string>, today: int, i: int, d: Date)
    requires DecidingTag(Split(tags.GetOr(""), ','), i, d)
    requires Abs(today - Ordinal(d)) <= WindowDays
    ensures MatchesCriteria(tags, today)
  {
    var parts := Split(tags.GetOr(""), ',');
    FirstTagDateAt(parts, i, d);
    assert FirstTagDate(parts) == Some(d);
    MatchesWithFirst(tags, today, d);
  }

  /** The same decision stated without the parser: an order matches iff one
      of its stripped tags is exactly a real date in "MM-DD-YYYY" form, no
      earlier stripped tag is, and that date is within 31 days of today. */
  lemma MatchesCriteriaIff(tags: Option<string>, today: int)
    ensures MatchesCriteria(tags, today) <==> DecidedInWindow(Split(tags.GetOr(""), ','), today)
  {
    MatchHasDecidingTag(tags, today);
    DecidedInWindowMatches(tags, today);
  }

  lemma DecidedInWindowMatches(tags: Option<string>, today: int)
    ensures DecidedInWindow(Split(tags.GetOr(""), ','), today) ==> MatchesCriteria(tags, today)
  {
    var parts := Split(tags.GetOr(""), ',');
    if DecidedInWindow(parts, today) {
      var i, d :| DecidingTag(parts, i, d) && Abs(today - Ordinal(d)) <= WindowDays;
      DecidingTagMatches(tags, today, i, d);
    }
  }

  /** A tag string that is just the date `d` yields `d`. */
  lemma SingleDateTag(d: Date)
    requires IsValid(d)
    ensures FirstTagDate(Split(FormatMDY(d), ',')) == Some(d)
  {
    var t := FormatMDY(d);
    RenderedTag(d);
    SplitNoSeparator(t, ',');
    FirstPlainTag(Split(t, ','), t, d);
  }

  /** A date tag at the front is the first tag date, whatever follows. */
  lemma FirstDateTagWins(d: Date, rest: string)
    requires IsValid(d)
    ensures FirstTagDate(Split(FormatMDY(d) + "," + rest, ',')) == Some(d)
  {
    var t := FormatMDY(d);
    RenderedTag(d);
    SplitAtSeparator(t, ',', rest);
    FirstPlainTag(Split(t + "," + rest, ','), t, d);
  }

  /** The rendering of a date holds no comma and no outer whitespace, and
      as a tag it yields that date. */
  lemma RenderedTag(d: Date)
    requires IsValid(d)
    ensures ',' !in FormatMDY(d)
    ensures Strip(FormatMDY(d)) == FormatMDY(d)
    ensures TagDate(FormatMDY(d)) == Some(d)
  {
    var t := FormatMDY(d);
    FormatShapes(d);
    assert ',' !in t by {
      forall i | 0 <= i < |t| ensures t[i] != ',' {
      }
    }
    assert !IsSpace(t[0]) && !IsSpace(t[9]);
    StripUnchanged(t);
    TagDateExact(t, d);
  }

  /** A first tag that needs no stripping and yields a date decides. */
  lemma FirstPlainTag(parts: seq<string>, t: string, d: Date)
    requires |parts| > 0 && parts[0] == t
    requires Strip(t) == t && TagDate(t) == Some(d)
    ensures FirstTagDate(parts) == Some(d)
  {
    var ds := TagDates(parts);
    assert ds[0] == Some(d);
    FirstSomeAt(ds, 0);
  }

  /** Once a date tag comes first, what follows it is never looked at: the
      decision is the window test on that date alone. */
  lemma FirstDateTagDecides(d: Date, rest: string, today: int)
    requires IsValid(d)
    ensures MatchesCriteria(Some(FormatMDY(d) + "," + rest), today) <==> Abs(today - Ordinal(d)) <= WindowDays
  {
    FirstDateTagWins(d, rest);
    MatchesWithFirst(Some(FormatMDY(d) + "," + rest), today, d);
  }

  /** An order whose only tag is the date `d` is in scope iff `d` is at
      most 31 days from today: 31 days either way is in, 32 is out. */
  lemma WindowBoundary(d: Date, today: int)
    requires IsValid(d)
    ensures MatchesCriteria(Some(FormatMDY(d)), today) <==> -31 <= today - Ordinal(d) <= 31
    ensures today == Ordinal(d) + 31 || today == Ordinal(d) - 31 ==> MatchesCriteria(Some(FormatMDY(d)), today)
    ensures today == Ordinal(d) + 32 || today == Ordinal(d) - 32 ==> !MatchesCriteria(Some(FormatMDY(d)), today)
  {
    SingleDateTag(d);
    FirstDateWindow(Some(FormatMDY(d)), today, d);
  }

  /** The window test on a known first tag date, at its edges. */
  lemma FirstDateWindow(tags: Option<string>, today: int, d: Date)
    requires IsValid(d)
    requires FirstTagDate(Split(tags.GetOr(""), ',')) == Some(d)
    ensures MatchesCriteria(tags, today) <==> -31 <= today - Ordinal(d) <= 31
    ensures today == Ordinal(d) + 31 || today == Ordinal(d) - 31 ==> MatchesCriteria(tags, today)
    ensures today == Ordinal(d) + 32 || today == Ordinal(d) - 32 ==> !MatchesCriteria(tags, today)
  {
    MatchesWithFirst(tags, today, d);
  }

  /** No tags, or an absent "tags" field, never matches. */
  lemma NoTagsNoMatch(today: int)
    ensures !MatchesCriteria(None, today)
    ensures !MatchesCriteria(Some(""), today)
  {
    SplitNoSeparator("", ',');
    assert TagDates([""]) == [None];
  }
}
