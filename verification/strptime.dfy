/** `datetime.strptime` for the two formats main.py uses, "%Y-%m-%d" and
    "%m-%d-%Y", and `strftime` back to zero-padded text.

    CPython's `_strptime` turns the format into a regular expression, one
    alternation per directive:
      %Y  \d\d\d\d
      %m  1[0-2] | 0[1-9] | [1-9]
      %d  3[01] | [12]\d | 0[1-9] | [1-9] | " "[1-9]
    It applies it with `re.match` (anchored at the start only, trying the
    alternatives in order and backtracking into an earlier field when a
    later one fails), raises "unconverted data remains" when the match does
    not reach the end of the input, and lets `datetime.date` reject a day
    that does not exist in its month or year 0. This module models exactly
    that, over ASCII digits. */
module Strptime {
  import opened Wrappers
  import opened Calendar
  import opened Text

  /** One position of a regular-expression alternative. */
  datatype CharClass = Exactly(c: char) | Between(lo: char, hi: char)

  predicate Accepts(k: CharClass, c: char) {
    match k
    case Exactly(x) => c == x
    case Between(lo, hi) => lo <= c <= hi
  }

  datatype Directive = Year | Month | Day

  /** The alternatives of each directive's group, in the order the regular
      expression tries them. */
  function Alternatives(d: Directive): seq<seq<CharClass>> {
    var digit := Between('0', '9');
    match d
    case Year => [[digit, digit, digit, digit]]
    case Month => [[Exactly('1'), Between('0', '2')], [Exactly('0'), Between('1', '9')], [Between('1', '9')]]
    case Day =>
      [[Exactly('3'), Between('0', '1')], [Between('1', '2'), digit],
       [Exactly('0'), Between('1', '9')], [Between('1', '9')], [Exactly(' '), Between('1', '9')]]
  }

  /** A format string as a sequence of directives and literal characters. */
  datatype Piece = Field(directive: Directive) | Literal(c: char)

  datatype Format = YearMonthDay | MonthDayYear

  function Pieces(f: Format): seq<Piece> {
    match f
    case YearMonthDay => [Field(Year), Literal('-'), Field(Month), Literal('-'), Field(Day)]
    case MonthDayYear => [Field(Month), Literal('-'), Field(Day), Literal('-'), Field(Year)]
  }

  function FieldCount(ps: seq<Piece>): nat {
    if ps == [] then 0 else (if ps[0].Field? then 1 else 0) + FieldCount(ps[1..])
  }

  lemma ThreeFields(f: Format)
    ensures FieldCount(Pieces(f)) == 3
  {
    var ps := Pieces(f);
    assert ps[4..][1..] == [];
    assert ps[3..][1..] == ps[4..];
    assert ps[2..][1..] == ps[3..];
    assert ps[1..][1..] == ps[2..];
    assert FieldCount(ps[4..]) == 1;
    assert FieldCount(ps[3..]) == 1;
    assert FieldCount(ps[2..]) == 2;
    assert FieldCount(ps[1..]) == 2;
  }

  /** The alternative `a` matches a prefix of `s`. */
  predicate AltMatches(a: seq<CharClass>, s: string) {
    |a| <= |s| && forall i :: 0 <= i < |a| ==> Accepts(a[i], s[i])
  }

  /** A successful match: the text of each directive's group, in format
      order, and how many characters of the input the match covers. */
  datatype Match = Match(captures: seq<string>, consumed: nat)

  /** `re.match` of the pieces against the start of `s`, with the first
      successful choice of alternatives in backtracking order. */
  function MatchPieces(ps: seq<Piece>, s: string): (r: Option<Match>)
    ensures r.Some? ==> r.value.consumed <= |s| && |r.value.captures| == FieldCount(ps)
    decreases |ps|, 0
  {
    if ps == [] then Some(Match([], 0))
    else
      match ps[0]
      case Literal(c) =>
        if |s| > 0 && s[0] == c then
          match MatchPieces(ps[1..], s[1..])
          case None => None
          case Some(m) => Some(Match(m.captures, m.consumed + 1))
        else None
      case Field(d) => TryAlternatives(d, 0, ps[1..], s)
  }

  /** Tries the alternatives of `d` from the `i`-th on, each followed by a
      match of the remaining pieces, and keeps the first that succeeds. */
  function TryAlternatives(d: Directive, i: nat, rest: seq<Piece>, s: string): (r: Option<Match>)
    ensures r.Some? ==> r.value.consumed <= |s| && |r.value.captures| == 1 + FieldCount(rest)
    decreases |rest|, |Alternatives(d)| - i
  {
    if i >= |Alternatives(d)| then None
    else
      var a := Alternatives(d)[i];
      if AltMatches(a, s) then
        match MatchPieces(rest, s[|a|..])
        case Some(m) => Some(Match([s[..|a|]] + m.captures, |a| + m.consumed))
        case None => TryAlternatives(d, i + 1, rest, s)
      else TryAlternatives(d, i + 1, rest, s)
  }

  /** `int()` of a captured group: its digits read in decimal (a leading
      space, which only %d admits, is ignored as `int` ignores it). */
  function GroupValue(t: string): nat {
    if |t| == 0 then 0
    else if IsDigit(t[|t| - 1]) then 10 * GroupValue(t[..|t| - 1]) + DigitValue(t[|t| - 1])
    else GroupValue(t[..|t| - 1])
  }

  function Assemble(f: Format, captures: seq<string>): Date
    requires |captures| == 3
  {
    match f
    case YearMonthDay => Date(GroupValue(captures[0]), GroupValue(captures[1]), GroupValue(captures[2]))
    case MonthDayYear => Date(GroupValue(captures[2]), GroupValue(captures[0]), GroupValue(captures[1]))
  }

  /** `datetime.strptime(s, f)`: None where Python raises ValueError. Any
      date it returns exists in the calendar. */
  function Parse(s: string, f: Format): (r: Option<Date>)
    ensures r.Some? ==> IsValid(r.value)
  {
    match MatchPieces(Pieces(f), s)
    case None => None
    case Some(m) =>
      if m.consumed < |s| then None
      else
        ThreeFields(f);
        var d := Assemble(f, m.captures);
        if IsValid(d) then Some(d) else None
  }

  /** Two-digit zero-padded rendering (`%m`, `%d` of strftime). */
  function Pad2(n: nat): (s: string)
    requires n < 100
    ensures |s| == 2 && AllDigits(s) && GroupValue(s) == n
  {
    var s := [DigitChar(n / 10), DigitChar(n % 10)];
    assert s[..1] == [s[0]] && s[..1][..0] == [];
    assert GroupValue(s[..1]) == n / 10;
    s
  }

  /** Four-digit zero-padded rendering (`%Y`). */
  function Pad4(n: nat): (s: string)
    requires n < 10000
    ensures |s| == 4 && AllDigits(s) && GroupValue(s) == n
  {
    var s := Pad2(n / 100) + Pad2(n % 100);
    assert s[..2] == Pad2(n / 100) && s[2..] == Pad2(n % 100);
    GroupValueOfFour(s);
    s
  }

  /** The value of four digits is the value of the first two, times 100,
      plus the value of the last two. */
  lemma GroupValueOfFour(x: string)
    requires |x| == 4 && AllDigits(x)
    ensures GroupValue(x) == 100 * GroupValue(x[..2]) + GroupValue(x[2..])
  {
    assert x[..3][..2] == x[..2] && x[..3][2] == x[2];
    assert GroupValue(x[..3]) == 10 * GroupValue(x[..2]) + DigitValue(x[2]);
    assert GroupValue(x) == 10 * GroupValue(x[..3]) + DigitValue(x[3]);
    var t := x[2..];
    assert t[..1] == [x[2]] && t[..1][..0] == [] && t[1] == x[3] && t[..1][0] == x[2];
    assert GroupValue(t[..1]) == DigitValue(x[2]);
    assert GroupValue(t) == 10 * DigitValue(x[2]) + DigitValue(x[3]);
  }

  /** `date.strftime("%Y-%m-%d")`. */
  function FormatYMD(d: Date): (s: string)
    requires IsValid(d)
    ensures |s| == 10
  {
    Pad4(d.year) + ("-" + (Pad2(d.month) + ("-" + Pad2(d.day))))
  }

  /** `date.strftime("%m-%d-%Y")`. */
  function FormatMDY(d: Date): (s: string)
    requires IsValid(d)
    ensures |s| == 10
  {
    Pad2(d.month) + ("-" + (Pad2(d.day) + ("-" + Pad4(d.year))))
  }

  lemma FieldStep(d: Directive, rest: seq<Piece>, s: string)
    ensures MatchPieces([Field(d)] + rest, s) == TryAlternatives(d, 0, rest, s)
  {
    assert ([Field(d)] + rest)[1..] == rest;
  }

  lemma LiteralStep(c: char, rest: seq<Piece>, u: string, m: Match)
    requires MatchPieces(rest, u) == Some(m)
    ensures MatchPieces([Literal(c)] + rest, [c] + u) == Some(Match(m.captures, m.consumed + 1))
  {
    assert ([Literal(c)] + rest)[1..] == rest;
    assert ([c] + u)[1..] == u;
  }

  lemma LiteralStepBack(c: char, rest: seq<Piece>, s: string) returns (m: Match)
    requires MatchPieces([Literal(c)] + rest, s).Some?
    ensures |s| > 0 && s[0] == c && MatchPieces(rest, s[1..]) == Some(m)
    ensures MatchPieces([Literal(c)] + rest, s) == Some(Match(m.captures, m.consumed + 1))
  {
    assert ([Literal(c)] + rest)[1..] == rest;
    m := MatchPieces(rest, s[1..]).value;
  }

  /** A two-digit month (01..12) or day (01..31) is taken whole by the first
      alternative that fits it, ahead of the one-digit alternatives. */
  lemma TwoDigitField(dir: Directive, v: nat, rest: seq<Piece>, u: string, m: Match)
    requires (dir == Month && 1 <= v <= 12) || (dir == Day && 1 <= v <= 31)
    requires MatchPieces(rest, u) == Some(m)
    ensures TryAlternatives(dir, 0, rest, Pad2(v) + u) == Some(Match([Pad2(v)] + m.captures, 2 + m.consumed))
  {
    var s := Pad2(v) + u;
    assert s[..2] == Pad2(v) && s[2..] == u;
    if dir == Month {
      TwoDigitMonth(v, rest, s, m);
    } else {
      TwoDigitDay(v, rest, s, m);
    }
  }

  lemma TwoDigitMonth(v: nat, rest: seq<Piece>, s: string, m: Match)
    requires 1 <= v <= 12 && |s| >= 2 && s[..2] == Pad2(v)
    requires MatchPieces(rest, s[2..]) == Some(m)
    ensures TryAlternatives(Month, 0, rest, s) == Some(Match([s[..2]] + m.captures, 2 + m.consumed))
  {
    var alts := Alternatives(Month);
    assert s[0] == Pad2(v)[0] && s[1] == Pad2(v)[1];
    if v >= 10 {
      assert AltMatches(alts[0], s);
    } else {
      assert !AltMatches(alts[0], s);
      assert AltMatches(alts[1], s);
    }
  }

  lemma TwoDigitDay(v: nat, rest: seq<Piece>, s: string, m: Match)
    requires 1 <= v <= 31 && |s| >= 2 && s[..2] == Pad2(v)
    requires MatchPieces(rest, s[2..]) == Some(m)
    ensures TryAlternatives(Day, 0, rest, s) == Some(Match([s[..2]] + m.captures, 2 + m.consumed))
  {
    var alts := Alternatives(Day);
    assert s[0] == Pad2(v)[0] && s[1] == Pad2(v)[1];
    if v >= 30 {
      assert AltMatches(alts[0], s);
    } else if v >= 10 {
      assert !AltMatches(alts[0], s);
      assert AltMatches(alts[1], s);
    } else {
      assert !AltMatches(alts[0], s);
      assert TryAlternatives(Day, 0, rest, s) == TryAlternatives(Day, 1, rest, s);
      assert !AltMatches(alts[1], s);
      assert TryAlternatives(Day, 1, rest, s) == TryAlternatives(Day, 2, rest, s);
      assert AltMatches(alts[2], s);
    }
  }

  /** A four-digit year is taken whole by %Y. */
  lemma FourDigitYear(y: nat, rest: seq<Piece>, u: string, m: Match)
    requires y < 10000
    requires MatchPieces(rest, u) == Some(m)
    ensures TryAlternatives(Year, 0, rest, Pad4(y) + u) == Some(Match([Pad4(y)] + m.captures, 4 + m.consumed))
  {
    var s := Pad4(y) + u;
    assert s[..4] == Pad4(y) && s[4..] == u;
    assert AltMatches(Alternatives(Year)[0], s);
  }

  /** Both renderings are digits except for the two '-' separators. */
  lemma FormatShapes(d: Date)
    requires IsValid(d)
    ensures forall i :: 0 <= i < 10 && i != 4 && i != 7 ==> IsDigit(FormatYMD(d)[i])
    ensures FormatYMD(d)[4] == '-' && FormatYMD(d)[7] == '-'
    ensures forall i :: 0 <= i < 10 && i != 2 && i != 5 ==> IsDigit(FormatMDY(d)[i])
    ensures FormatMDY(d)[2] == '-' && FormatMDY(d)[5] == '-'
  {
  }

  /** A two-digit month or day group, then whatever `rest` matches. */
  lemma FieldThen(dir: Directive, v: nat, rest: seq<Piece>, u: string, m: Match)
    requires (dir == Month && 1 <= v <= 12) || (dir == Day && 1 <= v <= 31)
    requires MatchPieces(rest, u) == Some(m)
    ensures MatchPieces([Field(dir)] + rest, Pad2(v) + u) == Some(Match([Pad2(v)] + m.captures, 2 + m.consumed))
  {
    TwoDigitField(dir, v, rest, u, m);
    FieldStep(dir, rest, Pad2(v) + u);
  }

  /** A four-digit year group, then whatever `rest` matches. */
  lemma YearThen(y: nat, rest: seq<Piece>, u: string, m: Match)
    requires y < 10000
    requires MatchPieces(rest, u) == Some(m)
    ensures MatchPieces([Field(Year)] + rest, Pad4(y) + u) == Some(Match([Pad4(y)] + m.captures, 4 + m.consumed))
  {
    FourDigitYear(y, rest, u, m);
    FieldStep(Year, rest, Pad4(y) + u);
  }

  /** A two-digit month or day group and '-', then whatever `rest` matches. */
  lemma FieldDashThen(dir: Directive, v: nat, rest: seq<Piece>, u: string, m: Match)
    requires (dir == Month && 1 <= v <= 12) || (dir == Day && 1 <= v <= 31)
    requires MatchPieces(rest, u) == Some(m)
    ensures MatchPieces([Field(dir), Literal('-')] + rest, Pad2(v) + ("-" + u))
            == Some(Match([Pad2(v)] + m.captures, m.consumed + 3))
  {
    LiteralStep('-', rest, u, m);
    FieldThen(dir, v, [Literal('-')] + rest, "-" + u, Match(m.captures, m.consumed + 1));
    assert [Field(dir)] + ([Literal('-')] + rest) == [Field(dir), Literal('-')] + rest;
  }

  /** A four-digit year group and '-', then whatever `rest` matches. */
  lemma YearDashThen(y: nat, rest: seq<Piece>, u: string, m: Match)
    requires y < 10000
    requires MatchPieces(rest, u) == Some(m)
    ensures MatchPieces([Field(Year), Literal('-')] + rest, Pad4(y) + ("-" + u))
            == Some(Match([Pad4(y)] + m.captures, m.consumed + 5))
  {
    LiteralStep('-', rest, u, m);
    YearThen(y, [Literal('-')] + rest, "-" + u, Match(m.captures, m.consumed + 1));
    assert [Field(Year)] + ([Literal('-')] + rest) == [Field(Year), Literal('-')] + rest;
  }

  /** A lone two-digit day group is matched whole. */
  lemma DayAlone(v: nat)
    requires 1 <= v <= 31
    ensures MatchPieces([Field(Day)], Pad2(v)) == Some(Match([Pad2(v)], 2))
  {
    FieldThen(Day, v, [], "", Match([], 0));
    assert [Field(Day)] + [] == [Field(Day)];
    assert Pad2(v) + "" == Pad2(v);
    assert [Pad2(v)] + [] == [Pad2(v)];
  }

  /** A lone four-digit year group is matched whole. */
  lemma YearAlone(y: nat)
    requires y < 10000
    ensures MatchPieces([Field(Year)], Pad4(y)) == Some(Match([Pad4(y)], 4))
  {
    YearThen(y, [], "", Match([], 0));
    assert [Field(Year)] + [] == [Field(Year)];
    assert Pad4(y) + "" == Pad4(y);
    assert [Pad4(y)] + [] == [Pad4(y)];
  }

  /** Each format, split after its first directive and '-'. */
  lemma HeadPieceYMD()
    ensures Pieces(YearMonthDay) == [Field(Year), Literal('-')] + [Field(Month), Literal('-'), Field(Day)]
    ensures [Field(Month), Literal('-'), Field(Day)] == [Field(Month), Literal('-')] + [Field(Day)]
  {
  }

  lemma HeadPieceMDY()
    ensures Pieces(MonthDayYear) == [Field(Month), Literal('-')] + [Field(Day), Literal('-'), Field(Year)]
    ensures [Field(Day), Literal('-'), Field(Year)] == [Field(Day), Literal('-')] + [Field(Year)]
  {
  }

  /** "%m-%d" matches a rendered month and day whole. */
  lemma MonthDashDay(month: nat, day: nat)
    requires 1 <= month <= 12 && 1 <= day <= 31
    ensures MatchPieces([Field(Month), Literal('-'), Field(Day)], Pad2(month) + ("-" + Pad2(day)))
            == Some(Match([Pad2(month), Pad2(day)], 5))
  {
    DayAlone(day);
    FieldDashThen(Month, month, [Field(Day)], Pad2(day), Match([Pad2(day)], 2));
    HeadPieceYMD();
    assert [Pad2(month)] + [Pad2(day)] == [Pad2(month), Pad2(day)];
  }

  /** "%d-%Y" matches a rendered day and year whole. */
  lemma DayDashYear(day: nat, year: nat)
    requires 1 <= day <= 31 && year < 10000
    ensures MatchPieces([Field(Day), Literal('-'), Field(Year)], Pad2(day) + ("-" + Pad4(year)))
            == Some(Match([Pad2(day), Pad4(year)], 7))
  {
    YearAlone(year);
    FieldDashThen(Day, day, [Field(Year)], Pad4(year), Match([Pad4(year)], 4));
    HeadPieceMDY();
    assert [Pad2(day)] + [Pad4(year)] == [Pad2(day), Pad4(year)];
  }

  /** "%Y-%m-%d" matches rendered year, month and day text whole. */
  lemma MatchRenderedYMD(year: nat, month: nat, day: nat)
    requires year < 10000 && 1 <= month <= 12 && 1 <= day <= 31
    ensures MatchPieces(Pieces(YearMonthDay), Pad4(year) + ("-" + (Pad2(month) + ("-" + Pad2(day)))))
            == Some(Match([Pad4(year), Pad2(month), Pad2(day)], 10))
  {
    MonthDashDay(month, day);
    YearDashThen(year, [Field(Month), Literal('-'), Field(Day)], Pad2(month) + ("-" + Pad2(day)), Match([Pad2(month), Pad2(day)], 5));
    HeadPieceYMD();
    assert [Pad4(year)] + [Pad2(month), Pad2(day)] == [Pad4(year), Pad2(month), Pad2(day)];
  }

  /** "%m-%d-%Y" matches rendered month, day and year text whole. */
  lemma MatchRenderedMDY(month: nat, day: nat, year: nat)
    requires 1 <= month <= 12 && 1 <= day <= 31 && year < 10000
    ensures MatchPieces(Pieces(MonthDayYear), Pad2(month) + ("-" + (Pad2(day) + ("-" + Pad4(year)))))
            == Some(Match([Pad2(month), Pad2(day), Pad4(year)], 10))
  {
    DayDashYear(day, year);
    FieldDashThen(Month, month, [Field(Day), Literal('-'), Field(Year)], Pad2(day) + ("-" + Pad4(year)), Match([Pad2(day), Pad4(year)], 7));
    HeadPieceMDY();
    assert [Pad2(month)] + [Pad2(day), Pad4(year)] == [Pad2(month), Pad2(day), Pad4(year)];
  }

  /** "%Y-%m-%d" matches a rendered date whole, with its three groups. */
  lemma MatchFormatYMD(d: Date)
    requires IsValid(d)
    ensures MatchPieces(Pieces(YearMonthDay), FormatYMD(d))
            == Some(Match([Pad4(d.year), Pad2(d.month), Pad2(d.day)], 10))
  {
    MatchRenderedYMD(d.year, d.month, d.day);
  }

  /** "%m-%d-%Y" matches a rendered date whole, with its three groups. */
  lemma MatchFormatMDY(d: Date)
    requires IsValid(d)
    ensures MatchPieces(Pieces(MonthDayYear), FormatMDY(d))
            == Some(Match([Pad2(d.month), Pad2(d.day), Pad4(d.year)], 10))
  {
    MatchRenderedMDY(d.month, d.day, d.year);
  }

  /** strftime then strptime with "%Y-%m-%d" gives the date back. */
  lemma ParseFormatYMD(d: Date)
    requires IsValid(d)
    ensures Parse(FormatYMD(d), YearMonthDay) == Some(d)
  {
    MatchFormatYMD(d);
  }

  /** strftime then strptime with "%m-%d-%Y" gives the date back. */
  lemma ParseFormatMDY(d: Date)
    requires IsValid(d)
    ensures Parse(FormatMDY(d), MonthDayYear) == Some(d)
  {
    MatchFormatMDY(d);
  }

  /** "%Y-%m-%d" needs four digits first, so it rejects "MM-DD-YYYY" text. */
  lemma ParseYMDRejectsMDY(d: Date)
    requires IsValid(d)
    ensures Parse(FormatMDY(d), YearMonthDay) == None
  {
    var s := FormatMDY(d);
    var ps := Pieces(YearMonthDay);
    assert s[2] == '-';
    assert !AltMatches(Alternatives(Year)[0], s);
    assert TryAlternatives(Year, 0, ps[1..], s) == TryAlternatives(Year, 1, ps[1..], s) == None;
  }

  /** When the character after a month or day group is a digit and the
      format continues with '-', only a two-character alternative can lead
      to a match, so the group is the first two characters. */
  lemma {:induction false} TwoCharsForced(dir: Directive, i: nat, rest: seq<Piece>, s: string)
    requires dir == Month || dir == Day
    requires |s| >= 2 && IsDigit(s[1])
    requires rest != [] && rest[0] == Literal('-')
    ensures TryAlternatives(dir, i, rest, s).Some? ==>
              && MatchPieces(rest, s[2..]).Some?
              && TryAlternatives(dir, i, rest, s)
                 == Some(Match([s[..2]] + MatchPieces(rest, s[2..]).value.captures, 2 + MatchPieces(rest, s[2..]).value.consumed))
    decreases |Alternatives(dir)| - i
  {
    if i < |Alternatives(dir)| {
      var a := Alternatives(dir)[i];
      assert 1 <= |a| <= 2;
      if |a| == 1 {
        assert s[1..][0] == s[1];
        assert MatchPieces(rest, s[1..]) == None;
      }
      TwoCharsForced(dir, i + 1, rest, s);
    }
  }

  /** %Y always takes exactly four characters. */
  lemma YearTakesFour(rest: seq<Piece>, s: string)
    ensures TryAlternatives(Year, 0, rest, s).Some? ==>
              && |s| >= 4
              && MatchPieces(rest, s[4..]).Some?
              && TryAlternatives(Year, 0, rest, s)
                 == Some(Match([s[..4]] + MatchPieces(rest, s[4..]).value.captures, 4 + MatchPieces(rest, s[4..]).value.consumed))
  {
    assert |Alternatives(Year)| == 1 && |Alternatives(Year)[0]| == 4;
    assert TryAlternatives(Year, 1, rest, s) == None;
  }

  /** Rendering the value of a two-digit group gives the group back. */
  lemma Pad2OfValue(x: string)
    requires |x| == 2 && AllDigits(x)
    ensures GroupValue(x) < 100 && Pad2(GroupValue(x)) == x
  {
    assert x[..1][..0] == [] && x[..1][0] == x[0];
    assert GroupValue(x[..1]) == DigitValue(x[0]);
    assert GroupValue(x) == 10 * DigitValue(x[0]) + DigitValue(x[1]);
  }

  /** Rendering the value of a four-digit group gives the group back. */
  lemma Pad4OfValue(x: string)
    requires |x| == 4 && AllDigits(x)
    ensures GroupValue(x) < 10000 && Pad4(GroupValue(x)) == x
  {
    GroupValueOfFour(x);
    Pad2OfValue(x[..2]);
    Pad2OfValue(x[2..]);
    var v := GroupValue(x);
    assert v / 100 == GroupValue(x[..2]) && v % 100 == GroupValue(x[2..]);
    assert x == x[..2] + x[2..];
  }

  /** A month or day group followed by '-', where the second character is
      a digit, takes two characters, then the dash. */
  lemma FieldDashStep(dir: Directive, rest: seq<Piece>, s: string) returns (m: Match)
    requires dir == Month || dir == Day
    requires |s| >= 2 && IsDigit(s[1])
    requires MatchPieces([Field(dir), Literal('-')] + rest, s).Some?
    ensures |s| >= 3 && MatchPieces(rest, s[3..]) == Some(m)
    ensures MatchPieces([Field(dir), Literal('-')] + rest, s) == Some(Match([s[..2]] + m.captures, m.consumed + 3))
  {
    var tail := [Literal('-')] + rest;
    assert [Field(dir), Literal('-')] + rest == [Field(dir)] + tail;
    var n := FieldTakesTwo(dir, tail, s);
    m := LiteralStepBack('-', rest, s[2..]);
    assert s[2..][1..] == s[3..];
  }

  /** A month or day group before '-', where the second character is a
      digit, takes two characters. */
  lemma FieldTakesTwo(dir: Directive, tail: seq<Piece>, s: string) returns (m: Match)
    requires dir == Month || dir == Day
    requires |s| >= 2 && IsDigit(s[1])
    requires tail != [] && tail[0] == Literal('-')
    requires MatchPieces([Field(dir)] + tail, s).Some?
    ensures MatchPieces(tail, s[2..]) == Some(m)
    ensures MatchPieces([Field(dir)] + tail, s) == Some(Match([s[..2]] + m.captures, 2 + m.consumed))
  {
    FieldStep(dir, tail, s);
    TwoCharsForced(dir, 0, tail, s);
    m := MatchPieces(tail, s[2..]).value;
  }

  /** A final year group takes exactly four characters. */
  lemma YearLast(w: string)
    requires MatchPieces([Field(Year)], w).Some?
    ensures |w| >= 4 && MatchPieces([Field(Year)], w) == Some(Match([w[..4]], 4))
  {
    FieldStep(Year, [], w);
    assert [Field(Year)] + [] == [Field(Year)];
    YearTakesFour([], w);
    assert [w[..4]] + [] == [w[..4]];
  }

  /** The "%d-%Y" tail of the format against two digits, '-', four
      digits takes those seven characters. */
  lemma DayYearTail(u: string)
    requires |u| >= 7 && u[2] == '-'
    requires AllDigits(u[..2]) && AllDigits(u[3..7])
    requires MatchPieces([Field(Day), Literal('-')] + [Field(Year)], u).Some?
    ensures MatchPieces([Field(Day), Literal('-')] + [Field(Year)], u) == Some(Match([u[..2], u[3..7]], 7))
  {
    assert u[..2][1] == u[1];
    var m := FieldDashStep(Day, [Field(Year)], u);
    YearLast(u[3..]);
    assert u[3..][..4] == u[3..7];
    assert m == Match([u[3..7]], 4);
    assert [u[..2]] + m.captures == [u[..2], u[3..7]];
  }

  /** Matching "%m-%d-%Y" against text that starts with two digits, '-',
      two digits, '-', four digits can only take those ten characters,
      captured field by field. */
  lemma MatchShapedMDY(t: string)
    requires |t| >= 10 && t[2] == '-' && t[5] == '-'
    requires AllDigits(t[..2]) && AllDigits(t[3..5]) && AllDigits(t[6..10])
    requires MatchPieces(Pieces(MonthDayYear), t).Some?
    ensures MatchPieces(Pieces(MonthDayYear), t) == Some(Match([t[..2], t[3..5], t[6..10]], 10))
  {
    var p2 := [Field(Day), Literal('-')] + [Field(Year)];
    HeadPieceMDY();
    assert t[..2][1] == t[1];
    var m := FieldDashStep(Month, p2, t);
    var u := t[3..];
    assert u[..2] == t[3..5] && u[3..7] == t[6..10] && u[2] == t[5];
    DayYearTail(u);
    assert m == Match([t[3..5], t[6..10]], 7);
    assert [t[..2]] + m.captures == [t[..2], t[3..5], t[6..10]];
  }

  /** strptime with "%m-%d-%Y" of text that starts with two digits, '-',
      two digits, '-', four digits succeeds only when that is the whole
      text, and then the text is the zero-padded rendering of the date. */
  lemma ParseShapedMDY(t: string)
    requires |t| >= 10 && t[2] == '-' && t[5] == '-'
    requires AllDigits(t[..2]) && AllDigits(t[3..5]) && AllDigits(t[6..10])
    requires Parse(t, MonthDayYear).Some?
    ensures |t| == 10 && t == FormatMDY(Parse(t, MonthDayYear).value)
  {
    MatchShapedMDY(t);
    var d := Parse(t, MonthDayYear).value;
    assert d == Date(GroupValue(t[6..10]), GroupValue(t[..2]), GroupValue(t[3..5]));
    RenderShaped(t, d);
  }

  /** Ten characters shaped "MM-DD-YYYY" are the rendering of the date
      their groups denote. */
  lemma RenderShaped(t: string, d: Date)
    requires |t| == 10 && t[2] == '-' && t[5] == '-'
    requires AllDigits(t[..2]) && AllDigits(t[3..5]) && AllDigits(t[6..10])
    requires IsValid(d) && d == Date(GroupValue(t[6..10]), GroupValue(t[..2]), GroupValue(t[3..5]))
    ensures t == FormatMDY(d)
  {
    Pad2OfValue(t[..2]);
    Pad2OfValue(t[3..5]);
    Pad4OfValue(t[6..10]);
    assert t == t[..2] + "-" + t[3..5] + "-" + t[6..10];
  }
}
