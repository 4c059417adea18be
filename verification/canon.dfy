/** The fulfilment-date canonicalisation written inline in `main`
    (main.py:258-273): the row's Date cell becomes the "YYYY-MM-DD" title
    of the spreadsheet tab the row goes to, or the order is skipped. */
module Canon {
  import opened Wrappers
  import opened Text
  import opened Calendar
  import opened Strptime
  import opened Row

  /** `strptime(t, "%Y-%m-%d")`, and on ValueError `strptime(t, "%m-%d-%Y")`. */
  function ParseEither(t: string): (r: Option<Date>)
    ensures r.Some? ==> IsValid(r.value)
  {
    match Parse(t, YearMonthDay)
    case Some(d) => Some(d)
    case None => Parse(t, MonthDayYear)
  }

  /** The tab title for a Date cell: None (the order is skipped) when the
      cell is empty or None, or when neither "%Y-%m-%d" nor "%m-%d-%Y"
      parses it after every '/' became '-'; otherwise the parsed date
      written back as zero-padded "YYYY-MM-DD". */
  function Canon(raw: Cell): (key: Option<string>)
    ensures raw == Null || raw == Str("") ==> key == None
    ensures key.Some? ==> |key.value| == 10 && exists d :: IsValid(d) && key.value == FormatYMD(d)
  {
    match raw
    case Null => None
    case Str(s) =>
      if s == "" then None
      else
        match ParseEither(ReplaceChar(s, '/', '-'))
        case Some(d) => Some(FormatYMD(d))
        case None => None
  }

  /** Replacing `a` by `b` and back restores text that had no `b`. */
  lemma ReplaceRoundTrip(s: string, a: char, b: char)
    requires b !in s
    ensures ReplaceChar(ReplaceChar(s, a, b), b, a) == s
  {
  }

  /** "YYYY-MM-DD" text holds no '/'. */
  lemma NoSlash(d: Date)
    requires IsValid(d)
    ensures '/' !in FormatYMD(d) && '/' !in FormatMDY(d)
  {
    FormatShapes(d);
    var s := FormatYMD(d);
    var t := FormatMDY(d);
    forall i | 0 <= i < 10 ensures s[i] != '/' && t[i] != '/' {
    }
  }

  /** A tab title is its own canonical form. */
  lemma CanonFixedPoint(d: Date)
    requires IsValid(d)
    ensures Canon(Str(FormatYMD(d))) == Some(FormatYMD(d))
  {
    var s := FormatYMD(d);
    NoSlash(d);
    assert ReplaceChar(s, '/', '-') == s;
    ParseFormatYMD(d);
  }

  /** Canonicalising a tab title again changes nothing. */
  lemma CanonIdempotent(raw: Cell)
    ensures Canon(raw).Some? ==> Canon(Str(Canon(raw).value)) == Canon(raw)
  {
    if Canon(raw).Some? {
      var d :| IsValid(d) && Canon(raw).value == FormatYMD(d);
      CanonFixedPoint(d);
    }
  }

  /** Month-first "MM-DD-YYYY" text is accepted by the second format and
      re-emitted year first. */
  lemma CanonMonthFirst(d: Date)
    requires IsValid(d)
    ensures Canon(Str(FormatMDY(d))) == Some(FormatYMD(d))
  {
    var s := FormatMDY(d);
    NoSlash(d);
    assert ReplaceChar(s, '/', '-') == s;
    ParseYMDRejectsMDY(d);
    ParseFormatMDY(d);
  }

  /** Writing the separators as '/' instead of '-' makes no difference. */
  lemma CanonSlashes(s: string)
    requires '/' !in s
    ensures Canon(Str(ReplaceChar(s, '-', '/'))) == Canon(Str(s))
  {
    var t := ReplaceChar(s, '-', '/');
    ReplaceRoundTrip(s, '-', '/');
    assert ReplaceChar(s, '/', '-') == s;
    assert ReplaceChar(t, '/', '-') == ReplaceChar(s, '/', '-');
    assert t == "" <==> s == "";
  }

  /** Year and month groups start with a digit, so text that does not
      cannot match them. */
  lemma {:induction false} NoDigitNoMatch(dir: Directive, i: nat, rest: seq<Piece>, s: string)
    requires dir != Day
    requires s == [] || !IsDigit(s[0])
    ensures TryAlternatives(dir, i, rest, s) == None
    decreases |Alternatives(dir)| - i
  {
    if i < |Alternatives(dir)| {
      var a := Alternatives(dir)[i];
      assert |a| > 0 && forall c :: Accepts(a[0], c) ==> IsDigit(c);
      assert !AltMatches(a, s);
      NoDigitNoMatch(dir, i + 1, rest, s);
    }
  }

  /** Text that does not start with a digit is skipped. */
  lemma NoDigitSkipped(s: string)
    requires s != [] && !IsDigit(s[0])
    ensures Canon(Str(s)) == None
  {
    var t := ReplaceChar(s, '/', '-');
    assert !IsDigit(t[0]);
    FieldStep(Year, Pieces(YearMonthDay)[1..], t);
    assert Pieces(YearMonthDay) == [Field(Year)] + Pieces(YearMonthDay)[1..];
    NoDigitNoMatch(Year, 0, Pieces(YearMonthDay)[1..], t);
    FieldStep(Month, Pieces(MonthDayYear)[1..], t);
    assert Pieces(MonthDayYear) == [Field(Month)] + Pieces(MonthDayYear)[1..];
    NoDigitNoMatch(Month, 0, Pieces(MonthDayYear)[1..], t);
  }

  /** Replacing the separator of three separator-free pieces. */
  lemma ReplaceSeparators(a: string, b: string, c: string, x: char, y: char)
    requires x !in a && x !in b && x !in c && y !in a && y !in b && y !in c
    ensures ReplaceChar(a + [y] + b + [y] + c, y, x) == a + [x] + b + [x] + c
  {
    var s := a + [y] + b + [y] + c;
    var t := a + [x] + b + [x] + c;
    var r := ReplaceChar(s, y, x);
    forall i | 0 <= i < |s| ensures r[i] == t[i] {
      if i < |a| {
        assert s[i] == a[i] && t[i] == a[i];
      } else if i == |a| {
      } else if i < |a| + 1 + |b| {
        assert s[i] == b[i - |a| - 1] && t[i] == b[i - |a| - 1];
      } else if i == |a| + 1 + |b| {
      } else {
        assert s[i] == c[i - |a| - 2 - |b|] && t[i] == c[i - |a| - 2 - |b|];
      }
    }
  }

  /** Digits only. */
  lemma DigitsHaveNoSeparator(s: string)
    requires AllDigits(s)
    ensures '-' !in s && '/' !in s
  {
    forall i | 0 <= i < |s| ensures s[i] != '-' && s[i] != '/' {
    }
  }

  /** "YYYY/MM/DD" with slashes lands on the same tab as "YYYY-MM-DD". */
  lemma CanonSlashedYMD(d: Date)
    requires IsValid(d)
    ensures Canon(Str(Pad4(d.year) + "/" + Pad2(d.month) + "/" + Pad2(d.day))) == Some(FormatYMD(d))
  {
    var a, b, c := Pad4(d.year), Pad2(d.month), Pad2(d.day);
    DigitsHaveNoSeparator(a);
    DigitsHaveNoSeparator(b);
    DigitsHaveNoSeparator(c);
    ReplaceSeparators(a, b, c, '-', '/');
    assert a + "/" + b + "/" + c == a + ['/'] + b + ['/'] + c;
    assert FormatYMD(d) == a + ['-'] + b + ['-'] + c;
    ParseFormatYMD(d);
  }

  /** "MM/DD/YYYY" with slashes lands on the same tab as "YYYY-MM-DD". */
  lemma CanonSlashedMDY(d: Date)
    requires IsValid(d)
    ensures Canon(Str(Pad2(d.month) + "/" + Pad2(d.day) + "/" + Pad4(d.year))) == Some(FormatYMD(d))
  {
    var a, b, c := Pad2(d.month), Pad2(d.day), Pad4(d.year);
    DigitsHaveNoSeparator(a);
    DigitsHaveNoSeparator(b);
    DigitsHaveNoSeparator(c);
    ReplaceSeparators(a, b, c, '-', '/');
    assert a + "/" + b + "/" + c == a + ['/'] + b + ['/'] + c;
    assert FormatMDY(d) == a + ['-'] + b + ['-'] + c;
    ParseYMDRejectsMDY(d);
    ParseFormatMDY(d);
  }

  /** 7 March 2025 in both orders. */
  lemma MarchSeventh()
    ensures IsValid(Date(2025, 3, 7))
    ensures FormatYMD(Date(2025, 3, 7)) == "2025-03-07"
    ensures FormatMDY(Date(2025, 3, 7)) == "03-07-2025"
  {
    MarchSeventhFields();
  }

  lemma MarchSeventhFields()
    ensures Pad4(2025) == "2025" && Pad2(3) == "03" && Pad2(7) == "07"
  {
    assert Pad2(20) == "20" && Pad2(25) == "25";
  }

  /** Both dash spellings of 7 March 2025 land on one tab. */
  lemma CanonDashExamples()
    ensures Canon(Str("2025-03-07")) == Some("2025-03-07")
    ensures Canon(Str("03-07-2025")) == Some("2025-03-07")
  {
    MarchSeventh();
    CanonFixedPoint(Date(2025, 3, 7));
    CanonMonthFirst(Date(2025, 3, 7));
  }

  /** So do both slash spellings. */
  lemma CanonSlashExamples()
    ensures Canon(Str("2025/03/07")) == Some("2025-03-07")
    ensures Canon(Str("03/07/2025")) == Some("2025-03-07")
  {
    SlashedYearFirstExample();
    SlashedMonthFirstExample();
  }

  lemma SlashedYearFirstExample()
    ensures Canon(Str("2025/03/07")) == Some("2025-03-07")
  {
    MarchSeventh();
    MarchSeventhFields();
    CanonSlashedYMD(Date(2025, 3, 7));
    assert Pad4(2025) + "/" + Pad2(3) + "/" + Pad2(7) == "2025/03/07";
  }

  lemma SlashedMonthFirstExample()
    ensures Canon(Str("03/07/2025")) == Some("2025-03-07")
  {
    MarchSeventh();
    MarchSeventhFields();
    CanonSlashedMDY(Date(2025, 3, 7));
    assert Pad2(3) + "/" + Pad2(7) + "/" + Pad4(2025) == "03/07/2025";
  }

  /** Free text is skipped rather than raising. */
  lemma CanonFreeTextExample()
    ensures Canon(Str("soon")) == None
  {
    NoDigitSkipped("soon");
  }
}
