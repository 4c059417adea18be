/** The paging loop of `fetch_shopify_orders_streaming` (main.py:71-91).
    The HTTP exchange is abstract: the i-th request made is answered by the
    i-th element of a sequence of responses, and `urllib.parse.unquote` is
    a function parameter. */
module Pagination {
  import opened Wrappers
  import opened Text
  import opened Row

  /** What the loop reads from one HTTP response: the status code, the
      "orders" list of the JSON body (None when the key is missing) and the
      Link header (None when absent). */
  datatype Response = Response(status: int, orders: Option<seq<Order>>, link: Option<string>)

  /** The text a Link header part must contain to be the next-page link. */
  const Marker := "rel=\"next\""

  /** The orders a response contributes: `response.json().get('orders', [])`. */
  function Batch(r: Response): seq<Order> {
    r.orders.GetOr([])
  }

  /** What one part of the Link header yields: if it mentions the marker,
      the decoded text between its first '<' and its first '>' (with
      Python's slice rules when either is missing). */
  function LinkTarget(part: string, unquote: string -> string): Option<string> {
    if Contains(part, Marker) then Some(unquote(PySlice(part, Find(part, '<') + 1, Find(part, '>'))))
    else None
  }

  /** What each part yields, in order. */
  function Targets(parts: seq<string>, unquote: string -> string): (ts: seq<Option<string>>)
    ensures |ts| == |parts|
    ensures forall k :: 0 <= k < |parts| ==> ts[k] == LinkTarget(parts[k], unquote)
  {
    seq(|parts|, i requires 0 <= i < |parts| => LinkTarget(parts[i], unquote))
  }

  /** The next URL announced by a Link header: the target of the first
      comma-separated part that mentions the marker. */
  function NextLink(header: string, unquote: string -> string): Option<string> {
    FirstSome(Targets(Split(header, ','), unquote))
  }

  /** `k` is the first of `parts` to mention the marker. */
  ghost predicate FirstMarked(parts: seq<string>, k: int) {
    && 0 <= k < |parts|
    && Contains(parts[k], Marker)
    && forall j :: 0 <= j < k ==> !Contains(parts[j], Marker)
  }

  /** No part of `parts` mentions the marker. */
  ghost predicate NoneMarked(parts: seq<string>) {
    forall k :: 0 <= k < |parts| ==> !Contains(parts[k], Marker)
  }

  /** The parts yield nothing iff none of them mentions the marker. */
  lemma TargetsNone(parts: seq<string>, unquote: string -> string)
    ensures FirstSome(Targets(parts, unquote)).None? <==> NoneMarked(parts)
  {
    var ts := Targets(parts, unquote);
    assert forall k :: 0 <= k < |parts| ==> (ts[k].None? <==> !Contains(parts[k], Marker));
  }

  /** Otherwise they yield the target of the first part that mentions the
      marker. */
  lemma TargetsFirstMarked(parts: seq<string>, unquote: string -> string) returns (k: int)
    requires FirstSome(Targets(parts, unquote)).Some?
    ensures FirstMarked(parts, k)
    ensures FirstSome(Targets(parts, unquote)) == LinkTarget(parts[k], unquote)
  {
    var ts := Targets(parts, unquote);
    k :| 0 <= k < |ts| && ts[k] == FirstSome(ts) && forall j :: 0 <= j < k ==> ts[j].None?;
    forall j | 0 <= j < k ensures !Contains(parts[j], Marker) {
      assert ts[j].None?;
    }
  }

  /** NextLink is None iff no part of the header mentions the marker. */
  lemma NextLinkNone(header: string, unquote: string -> string)
    ensures NextLink(header, unquote).None? <==> NoneMarked(Split(header, ','))
  {
    TargetsNone(Split(header, ','), unquote);
  }

  /** Otherwise NextLink is the target of the first part that mentions the
      marker; later parts are never looked at. */
  lemma NextLinkFirstMarked(header: string, unquote: string -> string)
    ensures NextLink(header, unquote).Some? ==>
              exists k :: FirstMarked(Split(header, ','), k) && NextLink(header, unquote) == LinkTarget(Split(header, ',')[k], unquote)
  {
    if NextLink(header, unquote).Some? {
      var k := TargetsFirstMarked(Split(header, ','), unquote);
    }
  }

  /** The URL the loop moves to after response `r`. */
  function NextUrl(r: Response, unquote: string -> string): Option<string> {
    NextLink(r.link.GetOr(""), unquote)
  }

  /** `while url:`: the loop goes on only with a present, non-empty URL. */
  predicate Present(url: Option<string>) {
    url.Some? && url.value != ""
  }

  /** After `r` the loop requests another page: the status is 200, the page
      is not empty and the Link header names a non-empty next URL. */
  predicate Continues(r: Response, unquote: string -> string) {
    r.status == 200 && Batch(r) != [] && Present(NextUrl(r, unquote))
  }

  /** Why the loop ended: a status other than 200, an empty page, no usable
      next link, or (an artifact of the finite model) no more responses. */
  datatype Stop = HttpFailure(status: int) | EmptyPage | LastPage | OutOfResponses

  /** The orders yielded, in order; the URLs requested, in order; and why
      the loop ended. */
  datatype Fetched = Fetched(orders: seq<Order>, urls: seq<string>, stop: Stop)

  /** The batches of a run of responses, joined. */
  function Concat(rs: seq<Response>): (os: seq<Order>)
    ensures |rs| > 0 ==> os == Batch(rs[0]) + Concat(rs[1..])
  {
    if |rs| == 0 then [] else Batch(rs[0]) + Concat(rs[1..])
  }

  /** How the loop ends on the last response it requested. */
  function StopAfter(last: Response, unquote: string -> string): Stop {
    if last.status != 200 then HttpFailure(last.status)
    else if Batch(last) == [] then EmptyPage
    else if !Present(NextUrl(last, unquote)) then LastPage
    else OutOfResponses
  }

  /** How many of the requested responses had their orders yielded: all
      but a failed last one. */
  function Yielding(f: Fetched): int {
    if f.stop.HttpFailure? then |f.urls| - 1 else |f.urls|
  }

  /** Every response but the last of those requested let the loop go on,
      and the URL requested after it is the one it announced. */
  ghost predicate Chained(rs: seq<Response>, urls: seq<string>, unquote: string -> string) {
    && |urls| <= |rs|
    && forall i :: 0 <= i < |urls| - 1 ==> Continues(rs[i], unquote) && NextUrl(rs[i], unquote) == Some(urls[i + 1])
  }

  lemma ChainedCons(rs: seq<Response>, u: string, rest: seq<string>, unquote: string -> string)
    requires |rs| > 0
    requires Chained(rs[1..], rest, unquote)
    requires rest != [] ==> Continues(rs[0], unquote) && NextUrl(rs[0], unquote) == Some(rest[0])
    ensures Chained(rs, [u] + rest, unquote)
  {
    var urls := [u] + rest;
    forall i | 0 <= i < |urls| - 1
      ensures Continues(rs[i], unquote) && NextUrl(rs[i], unquote) == Some(urls[i + 1])
    {
      if i > 0 {
        assert rs[i] == rs[1..][i - 1];
      }
    }
  }

  /** The loop from URL `url` on, answered by `rs`. The orders yielded are
      the batches of the responses requested, joined in order; every
      response but the last one requested let the loop go on, and the next
      URL requested is the one it announced; the last one requested says
      why the loop ended. */
  function Fetch(url: Option<string>, rs: seq<Response>, unquote: string -> string): (f: Fetched)
    ensures |f.urls| <= |rs|
    ensures f.stop.HttpFailure? ==> |f.urls| > 0
    ensures f.orders == Concat(rs[..Yielding(f)])
    ensures f.urls != [] ==> Some(f.urls[0]) == url
    ensures Chained(rs, f.urls, unquote)
    ensures f.urls == [] ==> if Present(url) then rs == [] && f.stop == OutOfResponses else f.stop == LastPage
    ensures f.urls != [] ==> f.stop == StopAfter(rs[|f.urls| - 1], unquote)
    ensures f.stop == OutOfResponses ==> |f.urls| == |rs|
    decreases |rs|
  {
    if !Present(url) then Fetched([], [], LastPage)
    else if |rs| == 0 then Fetched([], [], OutOfResponses)
    else
      var r := rs[0];
      if r.status != 200 then Fetched([], [url.value], HttpFailure(r.status))
      else if Batch(r) == [] then Fetched([], [url.value], EmptyPage)
      else
        var rest := Fetch(NextUrl(r, unquote), rs[1..], unquote);
        var f := Fetched(Batch(r) + rest.orders, [url.value] + rest.urls, rest.stop);
        assert Yielding(f) == 1 + Yielding(rest);
        assert f.orders == Concat(rs[..Yielding(f)]) by {
          assert rs[..Yielding(f)][1..] == rs[1..][..Yielding(rest)];
        }
        ChainedCons(rs, url.value, rest.urls, unquote);
        assert f.stop == StopAfter(rs[|f.urls| - 1], unquote) by {
          if rest.urls != [] {
            assert rs[|f.urls| - 1] == rs[1..][|rest.urls| - 1];
          }
        }
        f
  }

  lemma DropFirstOfAppend(rs: seq<Response>, more: seq<Response>)
    requires |rs| > 0
    ensures (rs + more)[0] == rs[0] && (rs + more)[1..] == rs[1..] + more
  {
  }

  /** The loop reads no response beyond the one that stopped it: answers
      that would come after it change nothing. */
  lemma {:induction false} FetchIgnoresLaterResponses(url: Option<string>, rs: seq<Response>, more: seq<Response>, unquote: string -> string)
    requires Fetch(url, rs, unquote).stop != OutOfResponses
    ensures Fetch(url, rs + more, unquote) == Fetch(url, rs, unquote)
    decreases |rs|
  {
    if Present(url) && |rs| > 0 && rs[0].status == 200 && Batch(rs[0]) != [] {
      DropFirstOfAppend(rs, more);
      FetchIgnoresLaterResponses(NextUrl(rs[0], unquote), rs[1..], more, unquote);
    }
  }

  /** One Link header part in the form Shopify sends, `<u>; rel="next"`. */
  function NextPart(u: string): string {
    "<" + u + ">; " + Marker
  }

  /** A part `<u>; rel="next"` whose URL holds no angle bracket yields the
      decoded `u`. */
  lemma NextPartTarget(u: string, unquote: string -> string)
    requires '<' !in u && '>' !in u
    ensures LinkTarget(NextPart(u), unquote) == Some(unquote(u))
  {
    var p := NextPart(u);
    MarkedNextPart(u);
    assert p[..0] == [];
    FindAt(p, '<', 0);
    assert p[..|u| + 1] == "<" + u;
    FindAt(p, '>', |u| + 1);
    assert p[1..|u| + 1] == u;
  }

  /** A marked part with neither '<' nor '>': both `find` calls give -1, so
      the slice is `part[0:-1]` and the target is the decoded part without
      its last character. */
  lemma UnbracketedPartTarget(p: string, unquote: string -> string)
    requires Contains(p, Marker) && '<' !in p && '>' !in p
    ensures |p| >= |Marker|
    ensures LinkTarget(p, unquote) == Some(unquote(p[..|p| - 1]))
  {
    MarkedLength(p);
    var lt, gt := Find(p, '<'), Find(p, '>');
    assert lt == -1 && gt == -1;
    DropLastSlice(p);
  }

  /** A part that mentions the marker is at least as long as the marker. */
  lemma MarkedLength(p: string)
    requires Contains(p, Marker)
    ensures |p| >= |Marker|
  {
    if |p| < |Marker| {
      LongerNotContained(p, Marker);
    }
  }

  /** `s[0:-1]` drops the last character of a non-empty text. */
  lemma DropLastSlice(s: string)
    requires |s| >= 1
    ensures PySlice(s, 0, -1) == s[..|s| - 1]
  {
    assert SliceBound(0, |s|) == 0;
    assert SliceBound(-1, |s|) == |s| - 1;
  }

  /** `<u>; rel="next"` mentions the marker. */
  lemma MarkedNextPart(u: string)
    ensures Contains(NextPart(u), Marker)
  {
    var p := NextPart(u);
    assert p[|u| + 4..|u| + 4 + |Marker|] == Marker;
    ContainsAt(p, Marker, |u| + 4);
  }

  /** `<u>; rel="next"` holds a comma only when `u` does. */
  lemma UnsplitNextPart(u: string)
    requires ',' !in u
    ensures ',' !in NextPart(u)
    ensures Split(NextPart(u), ',') == [NextPart(u)]
  {
    var p := NextPart(u);
    assert p == "<" + u + ">; " + Marker;
    SplitNoSeparator(p, ',');
  }

  /** A header that is a single next link names that link. */
  lemma SingleNextLink(u: string, unquote: string -> string)
    requires '<' !in u && '>' !in u && ',' !in u
    ensures NextLink(NextPart(u), unquote) == Some(unquote(u))
  {
    var p := NextPart(u);
    UnsplitNextPart(u);
    NextPartTarget(u, unquote);
    assert Targets([p], unquote) == [Some(unquote(u))];
  }

  /** A part that does not mention the marker is passed over: the header
      `q,<u>; rel="next"` names `u`. */
  lemma UnmarkedPartSkipped(q: string, u: string, unquote: string -> string)
    requires ',' !in q && !Contains(q, Marker)
    requires '<' !in u && '>' !in u && ',' !in u
    ensures NextLink(q + "," + NextPart(u), unquote) == Some(unquote(u))
  {
    var p := NextPart(u);
    UnsplitNextPart(u);
    SplitAtSeparator(q, ',', p);
    assert Split(q + "," + p, ',') == [q, p];
    NextPartTarget(u, unquote);
    var ts := Targets([q, p], unquote);
    assert ts[0] == None && ts[1] == Some(unquote(u));
    FirstSomeAt(ts, 1);
  }

  /** The first next link wins: in `<u>; rel="next",rest` nothing in
      `rest` is looked at. */
  lemma FirstNextLinkWins(u: string, rest: string, unquote: string -> string)
    requires '<' !in u && '>' !in u && ',' !in u
    ensures NextLink(NextPart(u) + "," + rest, unquote) == Some(unquote(u))
  {
    var p := NextPart(u);
    UnsplitNextPart(u);
    SplitAtSeparator(p, ',', rest);
    NextPartTarget(u, unquote);
    var parts := Split(p + "," + rest, ',');
    assert parts[0] == p;
    FirstSomeAt(Targets(parts, unquote), 0);
  }

  /** A single non-empty page with no Link header: its orders are yielded,
      one request is made and the loop ends for want of a next link. */
  lemma SinglePage(u: string, os: seq<Order>, unquote: string -> string)
    requires u != "" && os != []
    ensures Fetch(Some(u), [Response(200, Some(os), None)], unquote) == Fetched(os, [u], LastPage)
  {
    SplitNoSeparator("", ',');
    assert Targets([""], unquote) == [None];
  }

  /** A failing first request yields nothing, however many pages would
      have followed. */
  lemma FirstRequestFails(u: string, r: Response, rs: seq<Response>, unquote: string -> string)
    requires u != "" && r.status != 200
    ensures Fetch(Some(u), [r] + rs, unquote) == Fetched([], [u], HttpFailure(r.status))
  {
  }
}
