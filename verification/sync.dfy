/** The order loop of `main` (main.py:240-288): every fetched order that
    matches the tag-date filter is formatted, its Date cell canonicalised
    into a "YYYY-MM-DD" tab title, and the tab is written. Two versions are
    modelled: the loop as written, which writes the header and the single
    row of each order to its tab as soon as it is seen, and the batched
    upload the dead loop at the end was evidently meant to perform. Every
    Sheets call is taken to succeed here. */
module Sync {
  import opened Wrappers
  import opened Text
  import opened Calendar
  import opened Strptime
  import opened Criteria
  import opened Row
  import opened Canon
  import opened Sheets

  /** A list of strings as a row of text cells. */
  function TextRow(xs: seq<string>): (r: seq<Cell>)
    ensures |r| == |xs|
    ensures forall i :: 0 <= i < |xs| ==> r[i] == Str(xs[i])
  {
    seq(|xs|, i requires 0 <= i < |xs| => Str(xs[i]))
  }

  /** The header row as cells (main.py:247). */
  const HeaderRow: seq<Cell> := TextRow(Headers)

  /** What the loop demands of each order it sees: the progress message
      indexes "order_number" of every order, and a matching order is
      passed to `format_order_row`, which indexes more fields. */
  predicate Processable(o: Order, today: int) {
    o.orderNumber.Some? && (MatchesCriteria(o.tags, today) ==> Formattable(o))
  }

  predicate AllProcessable(orders: seq<Order>, today: int) {
    forall i :: 0 <= i < |orders| ==> Processable(orders[i], today)
  }

  /** What the loop does with one order: nothing (it does not match),
      count it and skip it (its Date cell is empty or not a date), or
      count it and write `row` to tab `tab`. */
  datatype Verdict = Ignored | Skipped | Written(tab: string, row: seq<Cell>)

  /** The verdict on one order (main.py:255-277). The tab is the canonical
      form of the row's Date cell; it is ten characters long, so an order
      is never written to the template. */
  function Judge(o: Order, today: int): (v: Verdict)
    requires Processable(o, today)
    ensures v.Ignored? <==> !MatchesCriteria(o.tags, today)
    ensures v.Skipped? ==> Canon.Canon(FormatRow(o)[DateColumn]).None?
    ensures v.Written? ==> && Canon.Canon(FormatRow(o)[DateColumn]) == Some(v.tab)
                           && v.row == FormatRow(o)
                           && |v.tab| == 10 && v.tab != Template
  {
    if !MatchesCriteria(o.tags, today) then Ignored
    else
      match Canon.Canon(FormatRow(o)[DateColumn])
      case None => Skipped
      case Some(k) => Written(k, FormatRow(o))
  }

  /** The verdicts on a stream of orders, in order. */
  function Verdicts(orders: seq<Order>, today: int): (vs: seq<Verdict>)
    requires AllProcessable(orders, today)
    ensures |vs| == |orders|
    ensures forall i :: 0 <= i < |orders| ==> vs[i] == Judge(orders[i], today)
  {
    seq(|orders|, i requires 0 <= i < |orders| && AllProcessable(orders, today) => Judge(orders[i], today))
  }

  /** No verdict writes to the template. */
  predicate SparesTemplate(vs: seq<Verdict>) {
    forall i :: 0 <= i < |vs| && vs[i].Written? ==> vs[i].tab != Template
  }

  /** The rows written to tab `k`, in stream order: the reference the two
      versions of the loop are measured against. */
  function RowsFor(vs: seq<Verdict>, k: string): (rows: Values)
    ensures |rows| <= |vs|
    decreases |vs|
  {
    if |vs| == 0 then []
    else
      var v := vs[|vs| - 1];
      var rest := RowsFor(vs[..|vs| - 1], k);
      if v.Written? && v.tab == k then rest + [v.row] else rest
  }

  /** `match_count`: the orders that pass the filter, including those
      skipped afterwards. */
  function MatchCount(vs: seq<Verdict>): (n: nat)
    ensures n <= |vs|
    decreases |vs|
  {
    if |vs| == 0 then 0
    else MatchCount(vs[..|vs| - 1]) + (if vs[|vs| - 1].Ignored? then 0 else 1)
  }

  /** The state the loop carries: the spreadsheet and `match_count`. */
  datatype Run = Run(sheet: Spreadsheet, matches: nat)

  /** One turn of the loop as written (main.py:255-277): a match counts
      even when it is then skipped, and a written order uploads the header
      and its own row to its tab. The upload goes through `safe_upload`,
      which calls `upload_to_sheet` exactly once because that function
      never raises. */
  function Step(r: Run, v: Verdict): Run {
    match v
    case Ignored => r
    case Skipped => Run(r.sheet, r.matches + 1)
    case Written(k, row) => Run(UploadToSheet(r.sheet, k, [HeaderRow, row], {}), r.matches + 1)
  }

  /** The per-order loop as written. It counts every match; tabs are only
      ever added, the template is never written and no stray copies are
      left behind. */
  function PerOrder(sheet: Spreadsheet, vs: seq<Verdict>): (r: Run)
    requires SparesTemplate(vs)
    ensures r.matches == MatchCount(vs)
    ensures forall t :: t in sheet.tabs ==> t in r.sheet.tabs
    ensures Template in sheet.tabs ==> r.sheet.tabs[Template] == sheet.tabs[Template]
    ensures r.sheet.strays == sheet.strays
    decreases |vs|
  {
    if |vs| == 0 then Run(sheet, 0)
    else Step(PerOrder(sheet, vs[..|vs| - 1]), vs[|vs| - 1])
  }

  /** What each tab ends up holding after the loop as written: the header
      and the row of the LAST order written to it; a tab no order is
      written to is left as it was. */
  lemma {:induction false} PerOrderTab(sheet: Spreadsheet, vs: seq<Verdict>, k: string)
    requires Template in sheet.tabs
    requires SparesTemplate(vs)
    ensures var rows := RowsFor(vs, k);
            var s := PerOrder(sheet, vs).sheet;
            && (rows != [] ==> k in s.tabs && s.tabs[k] == [HeaderRow, rows[|rows| - 1]])
            && (rows == [] ==> (k in s.tabs <==> k in sheet.tabs) && (k in sheet.tabs ==> s.tabs[k] == sheet.tabs[k]))
    decreases |vs|
  {
    if |vs| > 0 {
      var init := vs[..|vs| - 1];
      var v := vs[|vs| - 1];
      PerOrderTab(sheet, init, k);
      var before := PerOrder(sheet, init);
      if v.Written? {
        UploadReadsBack(before.sheet, v.tab, [HeaderRow, v.row]);
      }
    }
  }

  /** Upload `byDay[d]` to tab `d` for each `d` of `days` in turn, as the
      final loop does (main.py:284-288). */
  function UploadDays(sheet: Spreadsheet, byDay: map<string, Values>, days: seq<string>): (s: Spreadsheet)
    requires forall i :: 0 <= i < |days| ==> days[i] in byDay
    decreases |days|
  {
    if |days| == 0 then sheet
    else
      var d := days[|days| - 1];
      UploadToSheet(UploadDays(sheet, byDay, days[..|days| - 1]), d, byDay[d], {})
  }

  /** Uploading a set of tabs in any order leaves each listed tab holding
      exactly its rows and every other tab as it was, so the order the
      dates are uploaded in does not matter. */
  lemma {:induction false} UploadDaysTab(sheet: Spreadsheet, byDay: map<string, Values>, days: seq<string>, k: string)
    requires Template in sheet.tabs
    requires forall i :: 0 <= i < |days| ==> days[i] in byDay && days[i] != Template
    ensures var s := UploadDays(sheet, byDay, days);
            && Template in s.tabs && s.tabs[Template] == sheet.tabs[Template]
            && s.strays == sheet.strays
            && (k in days ==> k in s.tabs && s.tabs[k] == byDay[k])
            && (k !in days ==> (k in s.tabs <==> k in sheet.tabs) && (k in sheet.tabs ==> s.tabs[k] == sheet.tabs[k]))
    decreases |days|
  {
    if |days| > 0 {
      var init := days[..|days| - 1];
      var d := days[|days| - 1];
      UploadDaysTab(sheet, byDay, init, k);
      UploadDaysTab(sheet, byDay, init, Template);
      UploadReadsBack(UploadDays(sheet, byDay, init), d, byDay[d]);
      assert k in days <==> k in init || k == d;
    }
  }

  /** `main` as written. Nothing ever stores into `rows_by_day`, so the
      final loop runs over no dates and the spreadsheet is what the
      per-order loop left. */
  function SyncAsWritten(sheet: Spreadsheet, orders: seq<Order>, today: int): (r: Run)
    requires AllProcessable(orders, today)
    ensures r.matches == MatchCount(Verdicts(orders, today))
    ensures r.sheet == PerOrder(sheet, Verdicts(orders, today)).sheet
  {
    var r := PerOrder(sheet, Verdicts(orders, today));
    var rowsByDay: map<string, Values> := map[];
    Run(UploadDays(r.sheet, rowsByDay, []), r.matches)
  }

  /** The corrected grouping: each date's rows, after one header row. */
  function Bucket(vs: seq<Verdict>): map<string, Values>
    decreases |vs|
  {
    if |vs| == 0 then map[]
    else
      var v := vs[|vs| - 1];
      var m := Bucket(vs[..|vs| - 1]);
      if v.Written? then m[v.tab := (if v.tab in m then m[v.tab] else [HeaderRow]) + [v.row]]
      else m
  }

  /** Each date is grouped with exactly the rows written to it, in stream
      order, under one header row. */
  lemma {:induction false} BucketRows(vs: seq<Verdict>, k: string)
    ensures k in Bucket(vs) <==> RowsFor(vs, k) != []
    ensures k in Bucket(vs) ==> Bucket(vs)[k] == [HeaderRow] + RowsFor(vs, k)
    decreases |vs|
  {
    if |vs| > 0 {
      BucketRows(vs[..|vs| - 1], k);
    }
  }

  /** The dates with rows, each once, in the order first seen. */
  function Days(vs: seq<Verdict>): (days: seq<string>)
    ensures forall k :: k in days <==> k in Bucket(vs)
    ensures SparesTemplate(vs) ==> Template !in days
    decreases |vs|
  {
    if |vs| == 0 then []
    else
      var v := vs[|vs| - 1];
      var days := Days(vs[..|vs| - 1]);
      if v.Written? && v.tab !in days then days + [v.tab] else days
  }

  /** The corrected `main`: rows are grouped by date during the loop, and
      each date's tab is then written once, with the header and all its
      rows. */
  function SyncBatched(sheet: Spreadsheet, orders: seq<Order>, today: int): (r: Run)
    requires AllProcessable(orders, today)
    ensures r.matches == MatchCount(Verdicts(orders, today))
  {
    var vs := Verdicts(orders, today);
    Run(UploadDays(sheet, Bucket(vs), Days(vs)), MatchCount(vs))
  }

  /** What each tab holds after the corrected loop: the header followed by
      the rows of every order written to it, in stream order; a tab no
      order is written to is left as it was. */
  lemma BatchedTab(sheet: Spreadsheet, orders: seq<Order>, today: int, k: string)
    requires Template in sheet.tabs
    requires AllProcessable(orders, today)
    ensures var rows := RowsFor(Verdicts(orders, today), k);
            var s := SyncBatched(sheet, orders, today).sheet;
            && (rows != [] ==> k in s.tabs && s.tabs[k] == [HeaderRow] + rows)
            && (rows == [] ==> (k in s.tabs <==> k in sheet.tabs) && (k in sheet.tabs ==> s.tabs[k] == sheet.tabs[k]))
  {
    var vs := Verdicts(orders, today);
    assert SparesTemplate(vs);
    UploadDaysTab(sheet, Bucket(vs), Days(vs), k);
    BucketRows(vs, k);
  }

  /** The same for the loop as written: only the last row survives. */
  lemma AsWrittenTab(sheet: Spreadsheet, orders: seq<Order>, today: int, k: string)
    requires Template in sheet.tabs
    requires AllProcessable(orders, today)
    ensures var rows := RowsFor(Verdicts(orders, today), k);
            var s := SyncAsWritten(sheet, orders, today).sheet;
            && (rows != [] ==> k in s.tabs && s.tabs[k] == [HeaderRow, rows[|rows| - 1]])
            && (rows == [] ==> (k in s.tabs <==> k in sheet.tabs) && (k in sheet.tabs ==> s.tabs[k] == sheet.tabs[k]))
  {
    var vs := Verdicts(orders, today);
    assert SparesTemplate(vs);
    PerOrderTab(sheet, vs, k);
  }

  /** Where a date has at most one order, the two versions agree on its
      tab: the loss needs two orders for one day. */
  lemma AgreeWhenOneOrderPerDay(sheet: Spreadsheet, orders: seq<Order>, today: int, k: string)
    requires Template in sheet.tabs
    requires AllProcessable(orders, today)
    requires |RowsFor(Verdicts(orders, today), k)| <= 1
    ensures var s := SyncAsWritten(sheet, orders, today).sheet;
            var t := SyncBatched(sheet, orders, today).sheet;
            (k in s.tabs <==> k in t.tabs) && (k in s.tabs ==> s.tabs[k] == t.tabs[k])
  {
    var vs := Verdicts(orders, today);
    assert SparesTemplate(vs);
    AgreeOnVerdicts(sheet, vs, k);
  }

  lemma AgreeOnVerdicts(sheet: Spreadsheet, vs: seq<Verdict>, k: string)
    requires Template in sheet.tabs
    requires SparesTemplate(vs)
    requires |RowsFor(vs, k)| <= 1
    ensures var s := PerOrder(sheet, vs).sheet;
            var t := UploadDays(sheet, Bucket(vs), Days(vs));
            (k in s.tabs <==> k in t.tabs) && (k in s.tabs ==> s.tabs[k] == t.tabs[k])
  {
    PerOrderTab(sheet, vs, k);
    UploadDaysTab(sheet, Bucket(vs), Days(vs), k);
    BucketRows(vs, k);
    AgreeOnTab(sheet.tabs, RowsFor(vs, k), PerOrder(sheet, vs).sheet.tabs, UploadDays(sheet, Bucket(vs), Days(vs)).tabs, k);
  }

  /** The tab-level core of AgreeWhenOneOrderPerDay: with at most one row,
      keeping the last row and keeping all rows are the same. */
  lemma AgreeOnTab(before: map<string, Values>, rows: Values, s: map<string, Values>, t: map<string, Values>, k: string)
    requires |rows| <= 1
    requires rows != [] ==> k in s && s[k] == [HeaderRow, rows[|rows| - 1]]
    requires rows == [] ==> (k in s <==> k in before) && (k in before ==> s[k] == before[k])
    requires rows != [] ==> k in t && t[k] == [HeaderRow] + rows
    requires rows == [] ==> (k in t <==> k in before) && (k in before ==> t[k] == before[k])
    ensures (k in s <==> k in t) && (k in s ==> s[k] == t[k])
  {
    if |rows| == 1 {
      assert [HeaderRow] + rows == [HeaderRow, rows[0]];
    }
  }

  /** Two orders written to the same tab, as the loop is written: the tab
      keeps only the second row, while the corrected loop keeps both. */
  lemma SameDayRowLost(sheet: Spreadsheet, k: string, a: seq<Cell>, b: seq<Cell>)
    requires Template in sheet.tabs && k != Template
    ensures var s := PerOrder(sheet, [Written(k, a), Written(k, b)]).sheet;
            k in s.tabs && s.tabs[k] == [HeaderRow, b]
    ensures var vs := [Written(k, a), Written(k, b)];
            var s := UploadDays(sheet, Bucket(vs), Days(vs));
            k in s.tabs && s.tabs[k] == [HeaderRow, a, b]
  {
    var vs := [Written(k, a), Written(k, b)];
    assert vs[..1] == [Written(k, a)] && vs[..1][..0] == [];
    assert RowsFor(vs, k) == [a, b];
    PerOrderTab(sheet, vs, k);
    UploadDaysTab(sheet, Bucket(vs), Days(vs), k);
    BucketRows(vs, k);
  }

  /** A pickup order numbered `n`, tagged with the date `d` and picked up
      on it. */
  function PickupOrder(n: nat, d: Date): Order
    requires IsValid(d)
  {
    Order(Some(n), Some(n), Some(Customer(None, None)), Some([]), Some(FormatMDY(d)),
          Some([NoteAttribute("Pickup-Date", FormatYMD(d))]), None, None)
  }

  /** On its own date such an order matches. */
  lemma PickupOrderMatches(n: nat, d: Date)
    requires IsValid(d)
    ensures MatchesCriteria(PickupOrder(n, d).tags, Ordinal(d))
  {
    WindowBoundary(d, Ordinal(d));
  }

  /** Its row's Date cell is its pickup date, already canonical. */
  lemma PickupOrderDate(n: nat, d: Date)
    requires IsValid(d)
    ensures FormatRow(PickupOrder(n, d))[DateColumn] == Str(FormatYMD(d))
    ensures FormatRow(PickupOrder(n, d))[0] == Str(NatToString(n))
  {
    var o := PickupOrder(n, d);
    assert Attrs(o) == map["Pickup-Date" := FormatYMD(d)];
  }

  /** So it is written, with its own row, to the tab of its date. */
  lemma PickupOrderWritten(n: nat, d: Date)
    requires IsValid(d)
    ensures Processable(PickupOrder(n, d), Ordinal(d))
    ensures Judge(PickupOrder(n, d), Ordinal(d)) == Written(FormatYMD(d), FormatRow(PickupOrder(n, d)))
  {
    var o := PickupOrder(n, d);
    PickupOrderMatches(n, d);
    PickupOrderDate(n, d);
    CanonFixedPoint(d);
    JudgeWritten(o, Ordinal(d), FormatYMD(d));
  }

  /** A matching order whose Date cell canonicalises to `k` is written,
      with its row, to tab `k`. */
  lemma JudgeWritten(o: Order, today: int, k: string)
    requires Formattable(o) && MatchesCriteria(o.tags, today)
    requires Canon.Canon(FormatRow(o)[DateColumn]) == Some(k)
    ensures Processable(o, today)
    ensures Judge(o, today) == Written(k, FormatRow(o))
  {
  }

  /** Two orders each written somewhere give the two verdicts in order. */
  lemma TwoVerdicts(a: Order, b: Order, today: int)
    requires Processable(a, today) && Processable(b, today)
    ensures AllProcessable([a, b], today)
    ensures Verdicts([a, b], today) == [Judge(a, today), Judge(b, today)]
  {
    var orders := [a, b];
    assert AllProcessable(orders, today) by {
      forall i | 0 <= i < 2 ensures Processable(orders[i], today) {
        if i == 0 { assert orders[i] == a; } else { assert orders[i] == b; }
      }
    }
    PairOf(Verdicts(orders, today), Judge(a, today), Judge(b, today));
  }

  lemma PairOf(vs: seq<Verdict>, v: Verdict, w: Verdict)
    requires |vs| == 2 && vs[0] == v && vs[1] == w
    ensures vs == [v, w]
  {
  }

  /** Two orders written to the same tab, as the loop is written: that
      tab keeps only the second order's row; the corrected loop keeps both. */
  lemma SameDayOrderLost(sheet: Spreadsheet, a: Order, b: Order, today: int, k: string)
    requires Template in sheet.tabs
    requires Processable(a, today) && Processable(b, today)
    requires Judge(a, today).Written? && Judge(a, today).tab == k
    requires Judge(b, today).Written? && Judge(b, today).tab == k
    ensures AllProcessable([a, b], today)
    ensures var s := SyncAsWritten(sheet, [a, b], today).sheet;
            k in s.tabs && s.tabs[k] == [HeaderRow, Judge(b, today).row]
    ensures var s := SyncBatched(sheet, [a, b], today).sheet;
            k in s.tabs && s.tabs[k] == [HeaderRow, Judge(a, today).row, Judge(b, today).row]
  {
    TwoVerdicts(a, b, today);
    var vs := Verdicts([a, b], today);
    assert vs == [Written(k, Judge(a, today).row), Written(k, Judge(b, today).row)];
    SameDayRowLost(sheet, k, Judge(a, today).row, Judge(b, today).row);
  }

  /** Their rows differ from each other and from the header row in the
      first column. */
  lemma PickupRowsDistinct(d: Date)
    requires IsValid(d)
    ensures FormatRow(PickupOrder(1, d)) != FormatRow(PickupOrder(2, d))
    ensures FormatRow(PickupOrder(1, d)) != HeaderRow
  {
    PickupOrderDate(1, d);
    PickupOrderDate(2, d);
    assert NatToString(1) == "1" && NatToString(2) == "2";
    assert HeaderRow[0] == Str("Transaction ID");
  }

  /** The concrete case: two pickup orders for the same day leave that
      day's tab with the header and one order row, the second; the first
      order appears nowhere. The corrected loop writes both. */
  lemma TwoPickupsSameDay(sheet: Spreadsheet, d: Date)
    requires IsValid(d) && Template in sheet.tabs
    ensures AllProcessable([PickupOrder(1, d), PickupOrder(2, d)], Ordinal(d))
    ensures var a := PickupOrder(1, d);
            var b := PickupOrder(2, d);
            var s := SyncAsWritten(sheet, [a, b], Ordinal(d)).sheet;
            var k := FormatYMD(d);
            && k in s.tabs && s.tabs[k] == [HeaderRow, FormatRow(b)]
            && FormatRow(a) !in s.tabs[k]
    ensures var a := PickupOrder(1, d);
            var b := PickupOrder(2, d);
            var s := SyncBatched(sheet, [a, b], Ordinal(d)).sheet;
            var k := FormatYMD(d);
            k in s.tabs && s.tabs[k] == [HeaderRow, FormatRow(a), FormatRow(b)]
  {
    PickupOrderWritten(1, d);
    PickupOrderWritten(2, d);
    PickupRowsDistinct(d);
    FirstRowLost(sheet, PickupOrder(1, d), PickupOrder(2, d), Ordinal(d), FormatYMD(d),
                 FormatRow(PickupOrder(1, d)), FormatRow(PickupOrder(2, d)));
  }

  /** Two orders with distinct rows written to one tab: the first row is
      gone from that tab after the loop as written. */
  lemma FirstRowLost(sheet: Spreadsheet, a: Order, b: Order, today: int, k: string, ra: seq<Cell>, rb: seq<Cell>)
    requires Template in sheet.tabs
    requires Processable(a, today) && Processable(b, today)
    requires Judge(a, today) == Written(k, ra) && Judge(b, today) == Written(k, rb)
    requires ra != rb && ra != HeaderRow
    ensures AllProcessable([a, b], today)
    ensures var s := SyncAsWritten(sheet, [a, b], today).sheet;
            && k in s.tabs && s.tabs[k] == [HeaderRow, rb]
            && ra !in s.tabs[k]
    ensures var s := SyncBatched(sheet, [a, b], today).sheet;
            k in s.tabs && s.tabs[k] == [HeaderRow, ra, rb]
  {
    SameDayOrderLost(sheet, a, b, today, k);
    NotInPair(ra, HeaderRow, rb);
  }

  lemma NotInPair(x: seq<Cell>, p: seq<Cell>, q: seq<Cell>)
    requires x != p && x != q
    ensures x !in [p, q]
  {
  }
}
