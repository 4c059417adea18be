/** `format_order_row` (main.py:116-151): the 17 spreadsheet cells written
    for one Shopify order, in the column order of the header row
    (main.py:247). */
module Row {
  import opened Wrappers
  import opened Text

  /** One entry of the order's "line_items". */
  datatype LineItem = LineItem(quantity: nat, title: string)

  /** One entry of the order's "note_attributes": the checkout's custom
      fields (delivery or pickup date, time, location, notes). */
  datatype NoteAttribute = NoteAttribute(name: string, value: string)

  datatype Customer = Customer(firstName: Option<string>, lastName: Option<string>)

  datatype Address = Address(
    address1: Option<string>,
    address2: Option<string>,
    city: Option<string>,
    provinceCode: Option<string>,
    zip: Option<string>,
    phone: Option<string>)

  /** The fields of a Shopify order that the sync reads; None is a key
      missing from the order's JSON object. */
  datatype Order = Order(
    id: Option<nat>,
    orderNumber: Option<nat>,
    customer: Option<Customer>,
    lineItems: Option<seq<LineItem>>,
    tags: Option<string>,
    noteAttributes: Option<seq<NoteAttribute>>,
    shippingAddress: Option<Address>,
    totalPrice: Option<string>)

  /** A spreadsheet cell: text, or Python's None (an empty cell). */
  datatype Cell = Str(s: string) | Null

  /** The header row (main.py:247). */
  const Headers: seq<string> := [
    "Transaction ID", "Order #", "Name", "Trays/Gifts", "Add-ons", "Date", "Time",
    "Amount", "Refunded", "Gift Note", "Special Requests", "Location",
    "Pickup / Delivery", "Address", "Delivery Fee", "Scheduled Delivery?", "All Items"]

  /** Column positions, named by their headers. */
  const DateColumn := 5
  const TimeColumn := 6
  const LocationColumn := 11
  const ModeColumn := 12

  /** The note at index `i` is the last one named `k`, and carries `v`. */
  ghost predicate LastNamed(notes: seq<NoteAttribute>, k: string, v: string, i: int) {
    && 0 <= i < |notes|
    && notes[i] == NoteAttribute(k, v)
    && forall j :: i < j < |notes| ==> notes[j].name != k
  }

  /** `m` holds a key for each name among the notes and no other, and each
      key's value is that of the last note with the name. */
  ghost predicate Records(notes: seq<NoteAttribute>, m: map<string, string>) {
    && (forall k :: k in m <==> exists i :: 0 <= i < |notes| && notes[i].name == k)
    && (forall k :: k in m ==> exists i :: LastNamed(notes, k, m[k], i))
  }

  /** The dict comprehension of main.py:117: one key per distinct name, and
      a later note overwrites an earlier one of the same name. */
  function Attributes(notes: seq<NoteAttribute>): (m: map<string, string>)
    ensures Records(notes, m)
    decreases |notes|
  {
    if |notes| == 0 then map[]
    else
      var init := notes[..|notes| - 1];
      var last := notes[|notes| - 1];
      assert notes == init + [last];
      RecordsSnoc(init, last, Attributes(init));
      Attributes(init)[last.name := last.value]
  }

  /** One more note adds or overwrites the key of its name. */
  lemma RecordsSnoc(init: seq<NoteAttribute>, last: NoteAttribute, m: map<string, string>)
    requires Records(init, m)
    ensures Records(init + [last], m[last.name := last.value])
  {
    var notes := init + [last];
    var m' := m[last.name := last.value];
    assert LastNamed(notes, last.name, last.value, |init|);
    assert forall i :: 0 <= i < |init| ==> notes[i] == init[i];
    forall k | k in m'
      ensures exists i :: 0 <= i < |notes| && notes[i].name == k
    {
      if k != last.name {
        var i :| 0 <= i < |init| && init[i].name == k;
        assert notes[i].name == k;
      }
    }
    forall k | k != last.name && k in m' ensures exists i :: LastNamed(notes, k, m'[k], i) {
      var i :| LastNamed(init, k, m[k], i);
      assert LastNamed(notes, k, m'[k], i);
    }
  }

  /** `attrs.get(k)`. */
  function Lookup(m: map<string, string>, k: string): Option<string> {
    if k in m then Some(m[k]) else None
  }

  /** Python truthiness of an optional string: present and non-empty. */
  predicate Truthy(v: Option<string>) {
    v.Some? && v.value != ""
  }

  /** Python's `a or b`: `a` when truthy, otherwise `b` (falsy or not). */
  function Or(a: Option<string>, b: Option<string>): (r: Option<string>)
    ensures Truthy(a) ==> r == a
    ensures !Truthy(a) ==> r == b
  {
    if Truthy(a) then a else b
  }

  /** A possibly-missing value placed in a cell. */
  function ToCell(v: Option<string>): (c: Cell)
    ensures c.Null? <==> v.None?
    ensures v.Some? ==> c == Str(v.value)
  {
    match v
    case Some(s) => Str(s)
    case None => Null
  }

  /** `f"{q} x {title}"`. */
  function RenderItem(li: LineItem): string {
    NatToString(li.quantity) + " x " + li.title
  }

  function RenderItems(lis: seq<LineItem>): (items: seq<string>)
    ensures |items| == |lis|
    ensures forall i :: 0 <= i < |lis| ==> items[i] == RenderItem(lis[i])
  {
    seq(|lis|, i requires 0 <= i < |lis| => RenderItem(lis[i]))
  }

  /** The case-sensitive keyword test of main.py:120. */
  predicate IsTray(item: string) {
    Contains(item, "DINNER") || Contains(item, "TRAY") || Contains(item, "GIFT")
  }

  /** The items of `xs` that satisfy `p`, in their order. */
  function Filter(xs: seq<string>, p: string -> bool): (r: seq<string>)
    ensures |r| <= |xs|
    ensures forall x :: x in r <==> x in xs && p(x)
    decreases |xs|
  {
    if |xs| == 0 then []
    else
      var rest := Filter(xs[1..], p);
      assert forall x :: x in xs <==> x == xs[0] || x in xs[1..];
      (if p(xs[0]) then [xs[0]] else []) + rest
  }

  /** An item without any of the keywords. */
  predicate IsAddon(item: string) {
    !IsTray(item)
  }

  function Trays(items: seq<string>): seq<string> {
    Filter(items, IsTray)
  }

  /** `[i for i in items if i not in trays]`: membership in the tray list,
      not the keyword test, decides an add-on. */
  function Addons(items: seq<string>): seq<string> {
    var trays := Trays(items);
    Filter(items, i => i !in trays)
  }

  /** `str(n)` prefixed with "#". */
  function OrderNumberText(n: nat): string {
    "#" + NatToString(n)
  }

  /** The customer's name: first and last name, space-separated, with outer
      whitespace stripped (so a missing part leaves no stray space). */
  function CustomerName(c: Customer): (name: string)
    ensures exists i :: PaddedAt(c.firstName.GetOr("") + " " + c.lastName.GetOr(""), name, i)
    ensures name == [] || (!IsSpace(name[0]) && !IsSpace(name[|name| - 1]))
  {
    Strip(c.firstName.GetOr("") + " " + c.lastName.GetOr(""))
  }

  /** The address cell of main.py:124; missing parts are empty text. */
  function AddressText(name: string, a: Address): string {
    name + "  " + a.address1.GetOr("") + "\n" + a.address2.GetOr("") + "\n"
    + a.city.GetOr("") + ", " + a.provinceCode.GetOr("") + " " + a.zip.GetOr("")
    + " US, Phone: " + a.phone.GetOr("")
  }

  const NoAddress := Address(None, None, None, None, None, None)

  /** The order's note attributes as the dict of main.py:117. */
  function Attrs(o: Order): map<string, string> {
    Attributes(o.noteAttributes.GetOr([]))
  }

  /** `'Delivery-Location-Id' in attrs`. */
  predicate IsDelivery(o: Order) {
    "Delivery-Location-Id" in Attrs(o)
  }

  /** The fields `format_order_row` indexes directly, so the source raises
      KeyError without them. */
  predicate Formattable(o: Order) {
    o.id.Some? && o.orderNumber.Some? && o.customer.Some? && o.lineItems.Some?
  }

  /** The "Date" cell: the delivery date, else the pickup date. */
  function DateCell(attrs: map<string, string>): Cell {
    ToCell(Or(Lookup(attrs, "Delivery-Date"), Lookup(attrs, "Pickup-Date")))
  }

  /** The "Time" cell: the delivery time for a delivery, with no fallback;
      for a pickup the pickup time, else "N/A". */
  function TimeCell(attrs: map<string, string>): Cell {
    if "Delivery-Location-Id" in attrs then ToCell(Lookup(attrs, "Delivery-Time"))
    else ToCell(Or(Lookup(attrs, "Pickup-Time"), Some("N/A")))
  }

  /** The "Location" cell: the delivery location, else the pickup one. */
  function LocationCell(attrs: map<string, string>): Cell {
    ToCell(Or(Lookup(attrs, "Delivery-Location-Id"), Lookup(attrs, "Pickup-Location-Id")))
  }

  /** A text cell read with `attrs.get(k, '')`. */
  function TextCell(attrs: map<string, string>, k: string): Cell {
    Str(Lookup(attrs, k).GetOr(""))
  }

  /** The row's values by column name; the text columns are plain strings
      and the three that may be Python's None are cells. */
  datatype RowFields = RowFields(
    transactionId: string,
    orderNumber: string,
    name: string,
    trays: string,
    addons: string,
    date: Cell,
    time: Cell,
    amount: string,
    refunded: string,
    giftNote: string,
    specialRequests: string,
    location: Cell,
    mode: string,
    address: string,
    deliveryFee: string,
    favorTag: string,
    allItems: string)

  /** The values `format_order_row` computes for an order. */
  function FormatOrder(o: Order): RowFields
    requires Formattable(o)
  {
    var attrs := Attrs(o);
    var name := CustomerName(o.customer.value);
    var items := RenderItems(o.lineItems.value);
    RowFields(
      NatToString(o.id.value),
      OrderNumberText(o.orderNumber.value),
      name,
      Join(Trays(items), "; "),
      Join(Addons(items), "; "),
      DateCell(attrs),
      TimeCell(attrs),
      o.totalPrice.GetOr(""),
      "",
      Lookup(attrs, "Gift Note").GetOr(""),
      Lookup(attrs, "Special Requests").GetOr(""),
      LocationCell(attrs),
      if "Delivery-Location-Id" in attrs then "delivery" else "pickup",
      AddressText(name, o.shippingAddress.GetOr(NoAddress)),
      Lookup(attrs, "Delivery Fee").GetOr(""),
      Lookup(attrs, "Favor Tag").GetOr(""),
      Join(items, "; "))
  }

  /** The values laid out in header order: one cell per header, and every
      column but Date, Time and Location holds text. */
  function Cells(f: RowFields): (r: seq<Cell>)
    ensures |r| == |Headers| == 17
    ensures r[DateColumn] == f.date && r[TimeColumn] == f.time && r[LocationColumn] == f.location
    ensures r[ModeColumn] == Str(f.mode)
    ensures Headers[DateColumn] == "Date" && Headers[TimeColumn] == "Time"
    ensures Headers[LocationColumn] == "Location" && Headers[ModeColumn] == "Pickup / Delivery"
    ensures forall i :: 0 <= i < |r| && i != DateColumn && i != TimeColumn && i != LocationColumn ==> r[i].Str?
  {
    [ Str(f.transactionId), Str(f.orderNumber), Str(f.name), Str(f.trays), Str(f.addons),
      f.date, f.time, Str(f.amount), Str(f.refunded), Str(f.giftNote), Str(f.specialRequests),
      f.location, Str(f.mode), Str(f.address), Str(f.deliveryFee), Str(f.favorTag), Str(f.allItems) ]
  }

  /** `format_order_row(order)`: the list of 17 values. */
  function FormatRow(o: Order): (r: seq<Cell>)
    requires Formattable(o)
    ensures |r| == |Headers|
    ensures r[DateColumn] == FormatOrder(o).date
  {
    Cells(FormatOrder(o))
  }

  // ---------------------------------------------------------------------
  // Properties of the row

  /** The attribute map read back: a name maps to `v` iff the last note of
      that name carries `v`, and a name no note carries is missing. */
  lemma LookupLastWins(notes: seq<NoteAttribute>, k: string, v: string)
    ensures Lookup(Attributes(notes), k) == Some(v) <==> exists i :: LastNamed(notes, k, v, i)
    ensures Lookup(Attributes(notes), k) == None <==> forall i :: 0 <= i < |notes| ==> notes[i].name != k
  {
    var m := Attributes(notes);
    if exists i :: LastNamed(notes, k, v, i) {
      var i :| LastNamed(notes, k, v, i);
      assert k in m;
      var i' :| LastNamed(notes, k, m[k], i');
      LastNamedUnique(notes, k, v, m[k], i, i');
    }
  }

  /** At most one note is the last of its name. */
  lemma LastNamedUnique(notes: seq<NoteAttribute>, k: string, v: string, w: string, i: int, j: int)
    requires LastNamed(notes, k, v, i) && LastNamed(notes, k, w, j)
    ensures i == j && v == w
  {
  }

  /** A later note of the same name overrides an earlier one. */
  lemma LaterNoteWins(notes: seq<NoteAttribute>, k: string, v: string, w: string)
    ensures Lookup(Attributes(notes + [NoteAttribute(k, v), NoteAttribute(k, w)]), k) == Some(w)
  {
    var ns := notes + [NoteAttribute(k, v), NoteAttribute(k, w)];
    assert LastNamed(ns, k, w, |ns| - 1);
    LookupLastWins(ns, k, w);
  }

  /** The row is a delivery row iff some note is named
      "Delivery-Location-Id"; otherwise it is a pickup row. */
  lemma DeliveryOrPickup(o: Order)
    requires Formattable(o)
    ensures var notes := o.noteAttributes.GetOr([]);
            FormatOrder(o).mode == "delivery" <==>
              exists i :: 0 <= i < |notes| && notes[i].name == "Delivery-Location-Id"
    ensures FormatOrder(o).mode == "delivery" || FormatOrder(o).mode == "pickup"
  {
  }

  /** The "Time" cell: a delivery row shows the delivery time, empty when
      there is none; a pickup row shows the pickup time, or "N/A" when it is
      missing or empty. */
  lemma TimeFallback(o: Order)
    requires Formattable(o)
    ensures var delivery := Lookup(Attrs(o), "Delivery-Time");
            IsDelivery(o) ==> (FormatOrder(o).time.Null? <==> delivery.None?)
                              && (delivery.Some? ==> FormatOrder(o).time == Str(delivery.value))
    ensures var pickup := Lookup(Attrs(o), "Pickup-Time");
            !IsDelivery(o) ==> FormatOrder(o).time == Str(if Truthy(pickup) then pickup.value else "N/A")
  {
  }

  /** The "Date" and "Location" cells prefer a non-empty delivery value and
      otherwise show the pickup value as it is (empty when missing). */
  lemma DeliveryValuesFirst(o: Order)
    requires Formattable(o)
    ensures var d := Lookup(Attrs(o), "Delivery-Date");
            FormatOrder(o).date == if Truthy(d) then Str(d.value) else ToCell(Lookup(Attrs(o), "Pickup-Date"))
    ensures var l := Lookup(Attrs(o), "Delivery-Location-Id");
            FormatOrder(o).location == if Truthy(l) then Str(l.value) else ToCell(Lookup(Attrs(o), "Pickup-Location-Id"))
  {
  }

  /** With both parts given, the name is first and last name joined by
      one space. */
  lemma NameBothParts(first: string, last: string)
    requires first != [] && !IsSpace(first[0]) && !IsSpace(first[|first| - 1])
    requires last != [] && !IsSpace(last[0]) && !IsSpace(last[|last| - 1])
    ensures CustomerName(Customer(Some(first), Some(last))) == first + " " + last
  {
    StripPadded("", first + " " + last, "");
    assert "" + (first + " " + last) + "" == first + " " + last;
  }

  /** A missing last name leaves no trailing space. */
  lemma NameFirstOnly(first: string)
    requires first == [] || (!IsSpace(first[0]) && !IsSpace(first[|first| - 1]))
    ensures CustomerName(Customer(Some(first), None)) == first
  {
    var s := first + " " + "";
    assert s == "" + first + " ";
    StripPadded("", first, " ");
  }

  /** A missing first name leaves no leading space; with neither part the
      name is empty. */
  lemma NameLastOnly(last: string)
    requires last == [] || (!IsSpace(last[0]) && !IsSpace(last[|last| - 1]))
    ensures CustomerName(Customer(None, Some(last))) == last
  {
    assert "" + " " + last == " " + last + "";
    StripPadded(" ", last, "");
  }

  /** Whitespace inside the name is kept: only the outer ends are
      stripped. */
  lemma NameInnerSpaceKept()
    ensures CustomerName(Customer(Some("Jane "), Some("Doe"))) == "Jane  Doe"
  {
    var s := "Jane " + " " + "Doe";
    assert s == "Jane  Doe";
    assert !IsSpace(s[0]) && !IsSpace(s[|s| - 1]);
    StripUnchanged(s);
  }

  lemma NameNeitherPart()
    ensures CustomerName(Customer(None, None)) == ""
  {
    NameLastOnly("");
  }

  /** The address cell opens with the name and two spaces, and closes with
      the phone number after " US, Phone: ". */
  lemma AddressCellEnds(name: string, a: Address)
    ensures var t := AddressText(name, a); var ph := " US, Phone: " + a.phone.GetOr("");
      && |t| >= |name| + 2 + |ph|
      && t[..|name| + 2] == name + "  "
      && t[|t| - |ph|..] == ph
  {
    var ph := " US, Phone: " + a.phone.GetOr("");
    var mid := a.address1.GetOr("") + "\n" + a.address2.GetOr("") + "\n"
      + a.city.GetOr("") + ", " + a.provinceCode.GetOr("") + " " + a.zip.GetOr("");
    var t := AddressText(name, a);
    assert t == (name + "  ") + mid + ph;
  }

  /** An order without a shipping address still gets an address cell: the
      name, then the fixed separators around empty parts. */
  lemma MissingAddressCell(name: string)
    ensures AddressText(name, NoAddress) == name + "  \n\n,   US, Phone: "
  {
    var t := AddressText(name, NoAddress);
    assert t == name + "  " + "\n" + "\n" + ", " + " " + " US, Phone: ";
  }

  /** Filtering commutes with concatenation, so it keeps the items' order. */
  lemma {:induction false} FilterAppend(a: seq<string>, b: seq<string>, p: string -> bool)
    ensures Filter(a + b, p) == Filter(a, p) + Filter(b, p)
    decreases |a|
  {
    if |a| == 0 {
      assert a + b == b;
    } else {
      assert (a + b)[0] == a[0] && (a + b)[1..] == a[1..] + b;
      FilterAppend(a[1..], b, p);
    }
  }

  /** Two tests that agree on the items keep the same items. */
  lemma {:induction false} FilterCongruent(xs: seq<string>, p: string -> bool, q: string -> bool)
    requires forall x :: x in xs ==> p(x) == q(x)
    ensures Filter(xs, p) == Filter(xs, q)
    decreases |xs|
  {
    if |xs| > 0 {
      assert xs[0] in xs;
      assert forall x :: x in xs[1..] ==> x in xs;
      FilterCongruent(xs[1..], p, q);
    }
  }

  /** A test and its negation split the items between them. */
  lemma {:induction false} FilterComplement(xs: seq<string>, p: string -> bool, q: string -> bool)
    requires forall x :: x in xs ==> q(x) == !p(x)
    ensures multiset(Filter(xs, p)) + multiset(Filter(xs, q)) == multiset(xs)
    decreases |xs|
  {
    if |xs| > 0 {
      var h, t := xs[0], xs[1..];
      assert h in xs;
      assert forall x :: x in t ==> x in xs;
      FilterComplement(t, p, q);
      FilterHead(xs, p);
      FilterHead(xs, q);
      ConsMultiset(xs);
      if p(h) {
        assert !q(h);
        assert multiset(Filter(xs, p)) + multiset(Filter(xs, q)) == multiset{h} + (multiset(Filter(t, p)) + multiset(Filter(t, q)));
      } else {
        assert q(h);
        assert multiset(Filter(xs, p)) + multiset(Filter(xs, q)) == multiset{h} + (multiset(Filter(t, p)) + multiset(Filter(t, q)));
      }
    }
  }

  /** Filtering a non-empty list keeps or drops its head, then filters the
      tail. */
  lemma FilterHead(xs: seq<string>, p: string -> bool)
    requires |xs| > 0
    ensures p(xs[0]) ==> multiset(Filter(xs, p)) == multiset{xs[0]} + multiset(Filter(xs[1..], p))
    ensures !p(xs[0]) ==> multiset(Filter(xs, p)) == multiset(Filter(xs[1..], p))
  {
    var f := Filter(xs[1..], p);
    if p(xs[0]) {
      assert Filter(xs, p) == [xs[0]] + f;
    } else {
      assert Filter(xs, p) == [] + f;
    }
  }

  lemma ConsMultiset(xs: seq<string>)
    requires |xs| > 0
    ensures multiset(xs) == multiset{xs[0]} + multiset(xs[1..])
  {
    assert xs == [xs[0]] + xs[1..];
  }

  /** The `not in trays` test of main.py:121 is the negated keyword test:
      an item is an add-on exactly when it names no keyword. */
  lemma AddonsAreNonTrays(items: seq<string>)
    ensures Addons(items) == Filter(items, IsAddon)
  {
    var trays := Trays(items);
    FilterCongruent(items, i => i !in trays, IsAddon);
  }

  /** Every rendered item lands in exactly one of the two lists, by the
      keyword test, and together the lists hold each item as often as the
      order does. */
  lemma TraysAddonsPartition(items: seq<string>)
    ensures forall x :: x in items ==> (x in Trays(items) <==> IsTray(x)) && (x in Addons(items) <==> !IsTray(x))
    ensures multiset(Trays(items)) + multiset(Addons(items)) == multiset(items)
  {
    AddonsAreNonTrays(items);
    FilterComplement(items, IsTray, IsAddon);
  }

  /** Both lists keep the items' order: the lists for two runs of items
      are the lists for each run, one after the other. */
  lemma TraysAddonsOrder(a: seq<string>, b: seq<string>)
    ensures Trays(a + b) == Trays(a) + Trays(b)
    ensures Addons(a + b) == Addons(a) + Addons(b)
  {
    FilterAppend(a, b, IsTray);
    AddonsAreNonTrays(a + b);
    AddonsAreNonTrays(a);
    AddonsAreNonTrays(b);
    FilterAppend(a, b, IsAddon);
  }

  /** A keyword occurrence cannot start in a prefix that lacks the
      keyword's first character. */
  lemma ContainsPastPrefix(p: string, t: string, kw: string)
    requires |kw| > 0 && kw[0] !in p
    ensures Contains(p + t, kw) <==> Contains(t, kw)
  {
    ContainsOccurs(t, kw);
    ContainsOccurs(p + t, kw);
    if Contains(t, kw) {
      var i :| OccursAt(t, kw, i);
      OccursAfterPrefix(p, t, kw, i);
    }
    if Contains(p + t, kw) {
      var i :| OccursAt(p + t, kw, i);
      OccursPastPrefix(p, t, kw, i);
    }
  }

  lemma OccursAfterPrefix(p: string, t: string, kw: string, i: int)
    requires OccursAt(t, kw, i)
    ensures OccursAt(p + t, kw, i + |p|)
  {
    assert (p + t)[i + |p|..i + |p| + |kw|] == t[i..i + |kw|];
  }

  lemma OccursPastPrefix(p: string, t: string, kw: string, i: int)
    requires |kw| > 0 && kw[0] !in p
    requires OccursAt(p + t, kw, i)
    ensures i >= |p| && OccursAt(t, kw, i - |p|)
  {
    assert (p + t)[i] == (p + t)[i..i + |kw|][0] == kw[0];
    assert t[i - |p|..i - |p| + |kw|] == (p + t)[i..i + |kw|];
  }

  /** The "q x " prefix holds only digits, spaces and a lower-case x, so a
      rendered item is a tray exactly when its title names a keyword. */
  lemma TrayByTitle(li: LineItem)
    ensures IsTray(RenderItem(li)) <==> IsTray(li.title)
  {
    var q := NatToString(li.quantity);
    var p := q + " x ";
    assert RenderItem(li) == p + li.title;
    assert forall i :: 0 <= i < |p| ==> IsDigit(p[i]) || p[i] == ' ' || p[i] == 'x' by {
      forall i | 0 <= i < |p| ensures IsDigit(p[i]) || p[i] == ' ' || p[i] == 'x' {
        if i < |q| {
          assert p[i] == q[i];
        }
      }
    }
    assert 'D' !in p && 'T' !in p && 'G' !in p;
    ContainsPastPrefix(p, li.title, "DINNER");
    ContainsPastPrefix(p, li.title, "TRAY");
    ContainsPastPrefix(p, li.title, "GIFT");
  }

  /** The three item columns: trays and add-ons are the rendered items
      with and without a keyword, and All Items is every rendered item,
      each list joined by "; " in line-item order. */
  lemma ItemColumns(o: Order)
    requires Formattable(o)
    ensures var items := RenderItems(o.lineItems.value);
            && FormatOrder(o).trays == Join(Filter(items, IsTray), "; ")
            && FormatOrder(o).addons == Join(Filter(items, IsAddon), "; ")
            && FormatOrder(o).allItems == Join(items, "; ")
  {
    AddonsAreNonTrays(RenderItems(o.lineItems.value));
  }
}
