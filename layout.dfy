/** What one shipment's packing slip draws: the order summary, the table
    header, one row per order item, the billing, contact and shipping
    address blocks, and the wrapped order comment.

    Each block is a function from the page's log before the block to the
    log after it, appending one command per drawing call in the order the
    PDF class issues them; the drawing methods in module Shipment are proved
    to leave exactly that log. `XOnto([], ...)` is then the block's own
    list of commands, and the lemmas here say what those lists contain and
    that a block appends the same commands whatever the page already holds. */
module Layout {
  import opened PhpStrings
  import opened Canvas
  import opened OrderText

  /** An order item as the item table reads it. `weight` is the product's
      weight attribute text, None when the item has no product or the
      attribute is not set; `qtyOrdered` is the ordered quantity already
      converted to an integer. */
  datatype Item = Item(
    productType: Bytes,
    sku: Bytes,
    name: Bytes,
    parentItemId: Option<int>,
    qtyOrdered: int,
    weight: Option<Bytes>)

  datatype Address = Address(
    firstname: Bytes,
    lastname: Bytes,
    street: seq<Bytes>,
    postcode: Option<Bytes>,
    city: Bytes,
    countryId: Bytes,
    telephone: Bytes)

  /** The order data one page is drawn from. `items` are the order's items
      as the item repository returns them, sorted by SKU ascending;
      `itemCount` is the number of items the order itself reports, which
      places the address blocks. `dateText` is the formatted order date;
      `customerGroupCode` is None when the order has no customer group id,
      else the group's code. */
  datatype Order = Order(
    incrementId: Bytes,
    shippingDescription: Bytes,
    paymentTitle: Option<Bytes>,
    dateText: Bytes,
    items: seq<Item>,
    itemCount: nat,
    billing: Address,
    shipping: Address,
    customerGroupCode: Option<Bytes>,
    customerEmail: Bytes,
    comment: Option<Bytes>)

  // ---------------------------------------------------------------------
  // Geometry helpers
  // ---------------------------------------------------------------------

  /** The lowest y a command reaches. */
  function Bottom(c: Command): int {
    match c
    case Rect(_, y1, _, y2, _) => if y1 < y2 then y1 else y2
    case Text(_, _, y, _) => y
  }

  /** The highest y a command reaches (a text's baseline). */
  function Top(c: Command): int {
    match c
    case Rect(_, y1, _, y2, _) => if y1 < y2 then y2 else y1
    case Text(_, _, y, _) => y
  }

  // ---------------------------------------------------------------------
  // Order summary (packing_slip/Shipment.php:147-181)
  // ---------------------------------------------------------------------

  /** The texts above the item table, drawn in the fill colour the page
      has when the summary starts. */
  function SummaryOnto(log: seq<Command>, o: Order, fill: Shade): seq<Command> {
    log + [Text("Pakbon", 25, 780, fill)]
        + [Text("Order: " + o.incrementId, 25, 765, fill)]
        + [Text("Verzendmethode", 25, 725, fill)]
        + [Text(ShippingMethod(o.shippingDescription), 25, 715, fill)]
        + [Text("Betaalmethode", 205, 725, fill)]
        + [Text(PaymentTitle(o.paymentTitle), 205, 715, fill)]
        + [Text("Besteldatum", 320, 725, fill)]
        + [Text(o.dateText, 320, 715, fill)]
  }

  lemma SummaryAppends(log: seq<Command>, o: Order, fill: Shade)
    ensures SummaryOnto(log, o, fill) == log + SummaryOnto([], o, fill)
  {
  }

  /** The summary is eight texts in the starting fill colour, all above the
      table header (y >= 715); the shipping and payment lines carry the
      shipping method and the cleaned payment title. */
  lemma SummaryShape(o: Order, fill: Shade)
    ensures var s := SummaryOnto([], o, fill);
      && |s| == 8
      && (forall k :: 0 <= k < 8 ==> s[k].Text? && s[k].fill == fill && 715 <= s[k].y && HeaderTop < Bottom(s[k]))
      && s[3] == Text(ShippingMethod(o.shippingDescription), 25, 715, fill)
      && s[5] == Text(PaymentTitle(o.paymentTitle), 205, 715, fill)
  {
  }

  // ---------------------------------------------------------------------
  // Table header (packing_slip/Shipment.php:88-111)
  // ---------------------------------------------------------------------

  const HeaderTop := 700

  function HeaderOnto(log: seq<Command>): seq<Command> {
    log + [Rect(25, HeaderTop, 570, HeaderTop - 15, Gray50)]
        + [Text("Beschrijving", 30, 690, White)]
        + [Text("Gewicht", 205, 690, White)]
        + [Text("Artikelcode", 320, 690, White)]
        + [Text("SKU", 420, 690, White)]
        + [Text("Aantal", 490, 690, White)]
  }

  lemma HeaderAppends(log: seq<Command>)
    ensures HeaderOnto(log) == log + HeaderOnto([])
  {
  }

  /** The header is a mid-grey band from y = 685 to 700 across the page,
      with its five column titles in white inside it. */
  lemma HeaderShape()
    ensures var hd := HeaderOnto([]);
      && |hd| == 6
      && hd[0] == Rect(25, 700, 570, 685, Gray50)
      && (forall c :: c in hd ==> 685 <= Bottom(c) && Top(c) <= 700)
      && (forall c :: c in hd && c.Text? ==> c.fill == White && c.y == 690)
  {
  }

  // ---------------------------------------------------------------------
  // Item rows (packing_slip/Shipment.php:318-385)
  // ---------------------------------------------------------------------

  const FirstRow := 670
  const RowHeight := 20

  /** The vertical offset `$height` while row i is drawn. */
  function RowBaseline(i: nat): int {
    FirstRow - RowHeight * i
  }

  /** Configurable and bundle items are composite: they get a short row. */
  predicate IsComposite(productType: Bytes) {
    productType == "configurable" || productType == "bundle"
  }

  /** Child items of a composite item are indented further. */
  function Indent(it: Item): int {
    if it.parentItemId.Some? then 40 else 30
  }

  /** The background grey alternates by row index: 0.7, 0.9, 0.7, ... */
  function RowShade(i: nat): Shade {
    if i % 2 == 0 then Gray70 else Gray90
  }

  /** The quantity column: the integer quantity followed by "x". */
  function QtyText(qty: int): Bytes {
    IntToString(qty) + "x"
  }

  /** The quantity column ends in "x" and what precedes it reads back as
      the ordered quantity. */
  lemma QtyTextSpec(qty: int)
    ensures var t := QtyText(qty);
      |t| >= 2 && t[|t| - 1] == 'x'
      && (t[0] == '-' || IsDigit(t[0]))
      && (forall k :: 1 <= k < |t| - 1 ==> IsDigit(t[k]))
      && ParseInt(t[..|t| - 1]) == qty
  {
    IntToStringRoundTrip(qty);
    assert QtyText(qty)[..|QtyText(qty)| - 1] == IntToString(qty);
  }

  /** Row i for item it: the background band, then for a composite item its
      name and SKU prefix; for any other item a checkbox, the weight when
      the item has one, the name cut to 35 bytes, the SKU prefix, the full
      SKU and the quantity. */
  function RowOnto(log: seq<Command>, i: nat, it: Item): seq<Command> {
    var y := RowBaseline(i);
    var banded := log + [Rect(25, y + 15, 570, y - 5, RowShade(i))];
    if IsComposite(it.productType) then
      banded + [Text(it.name, Indent(it), y + 3, Black)]
             + [Text(Prefix(it.sku, 4), 320, y + 3, Black)]
    else
      var boxed := banded + [Rect(550, y + 10, 560, y, White)];
      var weighed := if it.weight.Some? then boxed + [Text(it.weight.value, 205, y + 3, Black)] else boxed;
      weighed + [Text(Prefix(it.name, 35), Indent(it), y + 3, Black)]
              + [Text(Prefix(it.sku, 4), 320, y + 3, Black)]
              + [Text(it.sku, 420, y + 3, Black)]
              + [Text(QtyText(it.qtyOrdered), 490, y + 3, Black)]
  }

  /** The commands of row i on their own. */
  function RowCommands(i: nat, it: Item): seq<Command> {
    RowOnto([], i, it)
  }

  lemma RowAppends(log: seq<Command>, i: nat, it: Item)
    ensures RowOnto(log, i, it) == log + RowCommands(i, it)
  {
  }

  /** What every row looks like: it starts with a background band 20 high
      whose grey depends on the parity of i, everything lies inside that
      band, every text sits on one baseline in black, and the SKU prefix is
      at x = 320. It has the white checkbox exactly when the item is not
      composite. */
  lemma RowShape(i: nat, it: Item)
    ensures var row := RowCommands(i, it); var y := RowBaseline(i);
      && row[0] == Rect(25, y + 15, 570, y - 5, RowShade(i))
      && (forall c :: c in row ==> y - 5 <= Bottom(c) && Top(c) <= y + 15)
      && (forall c :: c in row && c.Text? ==> c.y == y + 3 && c.fill == Black)
      && Text(Prefix(it.sku, 4), 320, y + 3, Black) in row
      && (Rect(550, y + 10, 560, y, White) in row <==> !IsComposite(it.productType))
  {
  }

  /** A composite row is just the band, the full name at the item's indent
      and the SKU prefix. */
  lemma CompositeRow(i: nat, it: Item)
    requires IsComposite(it.productType)
    ensures var y := RowBaseline(i);
      RowCommands(i, it) == [ Rect(25, y + 15, 570, y - 5, RowShade(i)),
                              Text(it.name, Indent(it), y + 3, Black),
                              Text(Prefix(it.sku, 4), 320, y + 3, Black) ]
  {
  }

  /** Any other row shows the name cut to 35 bytes at the item's indent,
      the full SKU and the quantity, and has one command more when the item
      has a weight. */
  lemma SimpleRow(i: nat, it: Item)
    requires !IsComposite(it.productType)
    ensures var row := RowCommands(i, it); var y := RowBaseline(i);
      && |row| == (if it.weight.Some? then 7 else 6)
      && Text(Prefix(it.name, 35), Indent(it), y + 3, Black) in row
      && Text(it.sku, 420, y + 3, Black) in row
      && Text(QtyText(it.qtyOrdered), 490, y + 3, Black) in row
  {
    var y := RowBaseline(i);
    var row := RowCommands(i, it);
    var k := if it.weight.Some? then 3 else 2;
    assert row[k] == Text(Prefix(it.name, 35), Indent(it), y + 3, Black);
    assert row[k + 2] == Text(it.sku, 420, y + 3, Black);
    assert row[k + 3] == Text(QtyText(it.qtyOrdered), 490, y + 3, Black);
  }

  /** A row shows a weight in the weight column exactly when the item is
      not composite and has a weight, and then it shows that weight. */
  lemma RowWeight(i: nat, it: Item)
    ensures var y := RowBaseline(i);
      forall w :: Text(w, 205, y + 3, Black) in RowCommands(i, it) <==>
        !IsComposite(it.productType) && it.weight == Some(w)
  {
    var y := RowBaseline(i);
    var band := Rect(25, y + 15, 570, y - 5, RowShade(i));
    var box := Rect(550, y + 10, 560, y, White);
    var skuPrefix := Text(Prefix(it.sku, 4), 320, y + 3, Black);
    var tail := [ Text(Prefix(it.name, 35), Indent(it), y + 3, Black), skuPrefix,
                  Text(it.sku, 420, y + 3, Black),
                  Text(QtyText(it.qtyOrdered), 490, y + 3, Black) ];
    if IsComposite(it.productType) {
      assert RowCommands(i, it) == [band, Text(it.name, Indent(it), y + 3, Black), skuPrefix];
    } else if it.weight.Some? {
      assert RowCommands(i, it) == [band, box, Text(it.weight.value, 205, y + 3, Black)] + tail;
    } else {
      assert RowCommands(i, it) == [band, box] + tail;
    }
  }

  /** Neighbouring rows never share a background grey. */
  lemma RowsAlternate(i: nat, a: Item, b: Item)
    ensures RowCommands(i, a)[0].fill != RowCommands(i + 1, b)[0].fill
  {
  }

  /** The item table drawn onto log: a row per item, in order, row i for
      items[i]. */
  function ItemsOnto(log: seq<Command>, items: seq<Item>): seq<Command>
    decreases |items|
  {
    if items == [] then log
    else
      var n := |items| - 1;
      RowOnto(ItemsOnto(log, items[..n]), n, items[n])
  }

  /** The rows of the given items, row i for items[i]. */
  function Rows(items: seq<Item>): seq<seq<Command>> {
    seq(|items|, i requires 0 <= i < |items| => RowCommands(i, items[i]))
  }

  /** The rows' commands one after the other. */
  function Flatten(rows: seq<seq<Command>>): seq<Command>
    decreases |rows|
  {
    if rows == [] then [] else Flatten(rows[..|rows| - 1]) + rows[|rows| - 1]
  }

  /** What the item table draws, row by row: the rows laid end to end. */
  function ItemsCommands(items: seq<Item>): seq<Command> {
    Flatten(Rows(items))
  }

  /** Drawing one more item appends its row, numbered by its position. */
  lemma ItemsCommandsSnoc(items: seq<Item>, it: Item)
    ensures ItemsCommands(items + [it]) == ItemsCommands(items) + RowCommands(|items|, it)
  {
    var rows := Rows(items + [it]);
    assert rows[..|items|] == Rows(items);
  }

  /** Drawing the table item by item appends exactly the rows laid end to
      end, whatever the page already holds. */
  lemma {:induction false} ItemsAppend(log: seq<Command>, items: seq<Item>)
    ensures ItemsOnto(log, items) == log + ItemsCommands(items)
    decreases |items|
  {
    if items != [] {
      var n := |items| - 1;
      var front := ItemsOnto(log, items[..n]);
      var row := RowCommands(n, items[n]);
      ItemsAppend(log, items[..n]);
      RowAppends(front, n, items[n]);
      assert ItemsOnto(log, items) == front + row;
      assert items == items[..n] + [items[n]];
      ItemsCommandsSnoc(items[..n], items[n]);
      AppendAssoc(log, ItemsCommands(items[..n]), row);
    }
  }

  lemma SliceOfAppend(a: seq<Command>, b: seq<Command>, lo: nat, hi: nat)
    requires lo <= hi <= |a|
    ensures (a + b)[lo..hi] == a[lo..hi]
  {
  }

  lemma {:induction false} FlattenAt(rows: seq<seq<Command>>, i: nat)
    requires i < |rows|
    ensures var off := |Flatten(rows[..i])|;
      && off + |rows[i]| <= |Flatten(rows)|
      && Flatten(rows)[off..off + |rows[i]|] == rows[i]
    decreases |rows|
  {
    var n := |rows| - 1;
    var front := rows[..n];
    assert Flatten(rows) == Flatten(front) + rows[n];
    if i == n {
      assert rows[..i] == front;
    } else {
      FlattenAt(front, i);
      assert front[..i] == rows[..i];
      var off := |Flatten(rows[..i])|;
      SliceOfAppend(Flatten(front), rows[n], off, off + |rows[i]|);
    }
  }

  /** Row i's commands sit in the item table's log right after those of the
      rows before it. */
  lemma ItemRowInLog(items: seq<Item>, i: nat)
    requires i < |items|
    ensures var off := |ItemsCommands(items[..i])|; var row := RowCommands(i, items[i]);
      && off + |row| <= |ItemsCommands(items)|
      && ItemsCommands(items)[off..off + |row|] == row
  {
    var rows := Rows(items);
    FlattenAt(rows, i);
    assert rows[..i] == Rows(items[..i]);
  }

  /** The offset of the address blocks, from the number of items the order
      reports. */
  function AddressTop(itemCount: nat): int {
    FirstRow - RowHeight * itemCount
  }

  /** Everything the item table draws lies between the bottom of the table
      header (y = 685) and 15 above the address offset for the number of
      rows drawn. */
  lemma {:induction false} ItemsBand(items: seq<Item>)
    ensures forall c :: c in ItemsCommands(items) ==>
      AddressTop(|items|) + 15 <= Bottom(c) && Top(c) <= 685
    decreases |items|
  {
    if items != [] {
      var n := |items| - 1;
      ItemsBand(items[..n]);
      RowShape(n, items[n]);
      assert items == items[..n] + [items[n]];
      ItemsCommandsSnoc(items[..n], items[n]);
    }
  }

  // ---------------------------------------------------------------------
  // Address blocks (packing_slip/Shipment.php:188-265)
  // ---------------------------------------------------------------------

  function FullName(a: Address): Bytes {
    Ucfirst(a.firstname) + " " + Ucfirst(a.lastname)
  }

  /** cmds is a column of black texts at x, the first `diff` below top and
      each next one 12 lower. */
  ghost predicate IsColumn(cmds: seq<Command>, x: int, top: int, diff: int) {
    forall k :: 0 <= k < |cmds| ==>
      cmds[k].Text? && cmds[k].x == x && cmds[k].y == top - diff - 12 * k && cmds[k].fill == Black
  }

  /** The billing column: heading, customer group, name, street, postcode,
      city and country. */
  function BillingOnto(log: seq<Command>, o: Order, h: int): seq<Command> {
    var b := o.billing;
    log + [Text("Factuuradres:", 25, h - 10, Black)]
        + [Text(o.customerGroupCode.GetOr(""), 25, h - 22, Black)]
        + [Text(FullName(b), 25, h - 34, Black)]
        + [Text(Implode(" ", b.street), 25, h - 46, Black)]
        + [Text(b.postcode.GetOr(""), 25, h - 58, Black)]
        + [Text(b.city, 25, h - 70, Black)]
        + [Text(b.countryId, 25, h - 82, Black)]
  }

  /** The contact column: heading, e-mail address and telephone. */
  function ContactOnto(log: seq<Command>, o: Order, h: int): seq<Command> {
    log + [Text("Contact informatie:", 205, h - 10, Black)]
        + [Text(o.customerEmail, 205, h - 22, Black)]
        + [Text(o.billing.telephone, 205, h - 34, Black)]
  }

  /** The shipping column: heading, name, street, postcode, city and country. */
  function ShippingOnto(log: seq<Command>, o: Order, h: int): seq<Command> {
    var s := o.shipping;
    log + [Text("Afleveradres:", 320, h - 10, Black)]
        + [Text(FullName(s), 320, h - 22, Black)]
        + [Text(Implode(" ", s.street), 320, h - 34, Black)]
        + [Text(s.postcode.GetOr(""), 320, h - 46, Black)]
        + [Text(s.city, 320, h - 58, Black)]
        + [Text(s.countryId, 320, h - 70, Black)]
  }

  /** The three address blocks side by side below the table. */
  function AddressesOnto(log: seq<Command>, o: Order, h: int): seq<Command> {
    ShippingOnto(ContactOnto(BillingOnto(log, o, h), o, h), o, h)
  }

  function AddressCommands(o: Order, h: int): seq<Command> {
    AddressesOnto([], o, h)
  }

  /** The billing column is seven lines at x = 25, starting 10 below the
      address offset h and stepping down 12 per line. */
  lemma BillingShape(o: Order, h: int)
    ensures |BillingOnto([], o, h)| == 7 && IsColumn(BillingOnto([], o, h), 25, h, 10)
  {
  }

  /** The contact column is three lines at x = 205, on the same baselines. */
  lemma ContactShape(o: Order, h: int)
    ensures |ContactOnto([], o, h)| == 3 && IsColumn(ContactOnto([], o, h), 205, h, 10)
  {
  }

  /** The shipping column is six lines at x = 320, on the same baselines. */
  lemma ShippingShape(o: Order, h: int)
    ensures |ShippingOnto([], o, h)| == 6 && IsColumn(ShippingOnto([], o, h), 320, h, 10)
  {
  }

  /** The address blocks are the three columns one after the other, and
      they append the same commands whatever the page already holds. */
  lemma AddressesAppend(log: seq<Command>, o: Order, h: int)
    ensures AddressesOnto(log, o, h) == log + AddressCommands(o, h)
    ensures AddressCommands(o, h) == BillingOnto([], o, h) + ContactOnto([], o, h) + ShippingOnto([], o, h)
  {
    var b := BillingOnto([], o, h);
    var c := ContactOnto([], o, h);
    var s := ShippingOnto([], o, h);
    assert BillingOnto(log, o, h) == log + b;
    assert ContactOnto(log + b, o, h) == log + b + c;
    AppendAssoc(log, b, c);
    assert ShippingOnto(log + (b + c), o, h) == log + (b + c) + s;
    AppendAssoc(log, b + c, s);
    assert ContactOnto(b, o, h) == b + c;
    assert ShippingOnto(b + c, o, h) == b + c + s;
  }

  /** The address blocks are black texts on baselines from h - 82 to h - 10. */
  lemma AddressShape(o: Order, h: int)
    ensures forall c :: c in AddressCommands(o, h) ==>
      c.Text? && c.fill == Black && h - 82 <= c.y <= h - 10
  {
    BillingShape(o, h);
    ContactShape(o, h);
    ShippingShape(o, h);
    AddressesAppend([], o, h);
    var a := BillingOnto([], o, h);
    var b := ContactOnto([], o, h);
    var s := ShippingOnto([], o, h);
    forall c: Command | c in a + b + s ensures c.Text? && c.fill == Black && h - 82 <= c.y <= h - 10 {
      if c in a {
        var k :| 0 <= k < |a| && a[k] == c;
      } else if c in b {
        var k :| 0 <= k < |b| && b[k] == c;
      } else {
        var k :| 0 <= k < |s| && s[k] == c;
      }
    }
  }

  /** When the order reports at least as many items as rows were drawn, every
      address baseline lies below every part of the item table, so the two
      do not overlap. */
  lemma AddressesBelowItems(o: Order)
    requires o.itemCount >= |o.items|
    ensures forall a, c :: a in AddressCommands(o, AddressTop(o.itemCount)) && c in ItemsCommands(o.items) ==>
      Top(a) < Bottom(c)
  {
    ItemsBand(o.items);
    AddressShape(o, AddressTop(o.itemCount));
  }

  // ---------------------------------------------------------------------
  // Order comment (packing_slip/Shipment.php:285-307)
  // ---------------------------------------------------------------------

  /** The same column described position by position. */
  function TextColumn(lines: seq<Bytes>, x: int, top: int, diff: int): seq<Command> {
    seq(|lines|, k requires 0 <= k < |lines| => Text(lines[k], x, top - diff - 12 * k, Black))
  }

  /** The comment drawn onto log the way the loop draws it: each pass cuts
      the next line off s, draws it at x = 25 `diff` below top, and moves 12
      further down. */
  function WrapOnto(log: seq<Command>, s: Bytes, top: int, diff: int): seq<Command>
    decreases |s|
  {
    if s == [] then log
    else
      var (line, rest) := WrapStep(s);
      WrapOnto(log + [Text(line, 25, top - diff, Black)], rest, top, diff + 12)
  }

  /** The loop appends the wrapped lines as a column: line k at
      top - diff - 12 k. */
  lemma {:induction false} WrapColumn(log: seq<Command>, s: Bytes, top: int, diff: int)
    ensures WrapOnto(log, s, top, diff) == log + TextColumn(WrapLines(s), 25, top, diff)
    decreases |s|
  {
    if s != [] {
      var (line, rest) := WrapStep(s);
      var first := Text(line, 25, top - diff, Black);
      var col := TextColumn(WrapLines(rest), 25, top, diff + 12);
      WrapColumn(log + [first], rest, top, diff + 12);
      assert WrapLines(s) == [line] + WrapLines(rest);
      assert TextColumn(WrapLines(s), 25, top, diff) == [first] + col;
      AppendAssoc(log, [first], col);
    }
  }

  /** The comment block for an address offset h: nothing for a comment that
      PHP reads as false (null, "" or "0"), else its wrapped lines, starting
      112 below h and 12 apart. */
  function CommentOnto(log: seq<Command>, comment: Option<Bytes>, h: int): seq<Command> {
    if Truthy(comment) then WrapOnto(log, comment.value, h - 100, 12) else log
  }

  function CommentCommands(comment: Option<Bytes>, h: int): seq<Command> {
    CommentOnto([], comment, h)
  }

  /** Line k of the wrapped comment (counting from 0) is drawn in black at
      x = 25, y = h - 100 - 12 (k + 1), and is at most 100 bytes long; at
      least one line is drawn. No line is drawn for a comment PHP reads as
      false. The block appends the same commands whatever the page holds. */
  lemma CommentLayout(log: seq<Command>, comment: Option<Bytes>, h: int)
    ensures CommentOnto(log, comment, h) == log + CommentCommands(comment, h)
    ensures !Truthy(comment) ==> CommentCommands(comment, h) == []
    ensures Truthy(comment) ==>
      var lines := WrapLines(comment.value);
      && |CommentCommands(comment, h)| == |lines| >= 1
      && forall k :: 0 <= k < |lines| ==>
           && CommentCommands(comment, h)[k] == Text(lines[k], 25, h - 100 - 12 * (k + 1), Black)
           && |lines[k]| <= LineWidth
  {
    if Truthy(comment) {
      WrapLinesBounded(comment.value);
      WrapColumn(log, comment.value, h - 100, 12);
      WrapColumn([], comment.value, h - 100, 12);
    }
  }

  /** The comment is drawn below the address blocks. */
  lemma CommentBelowAddresses(o: Order, h: int)
    ensures forall a, c :: a in AddressCommands(o, h) && c in CommentCommands(o.comment, h) ==>
      Bottom(a) > Top(c)
  {
    AddressShape(o, h);
    CommentLayout([], o.comment, h);
    forall a, c | a in AddressCommands(o, h) && c in CommentCommands(o.comment, h)
      ensures Bottom(a) > Top(c)
    {
      var k :| 0 <= k < |CommentCommands(o.comment, h)| && CommentCommands(o.comment, h)[k] == c;
    }
  }

  // ---------------------------------------------------------------------
  // One page
  // ---------------------------------------------------------------------

  /** One shipment's page drawn onto log, for a page whose fill colour is
      `fill` when drawing starts: summary, header, item table, addresses at
      the offset given by the order's own item count, then the comment. */
  function PageOnto(log: seq<Command>, o: Order, fill: Shade): seq<Command> {
    var h := AddressTop(o.itemCount);
    CommentOnto(AddressesOnto(ItemsOnto(HeaderOnto(SummaryOnto(log, o, fill)), o.items), o, h), o.comment, h)
  }

  /** A page holds the five blocks one after the other. */
  lemma PageBlocks(o: Order, fill: Shade)
    ensures var h := AddressTop(o.itemCount);
      PageOnto([], o, fill)
        == SummaryOnto([], o, fill) + HeaderOnto([]) + ItemsCommands(o.items)
           + AddressCommands(o, h) + CommentCommands(o.comment, h)
  {
    var h := AddressTop(o.itemCount);
    var s := SummaryOnto([], o, fill);
    var hd := HeaderOnto([]);
    HeaderAppends(s);
    ItemsAppend(s + hd, o.items);
    AddressesAppend(s + hd + ItemsCommands(o.items), o, h);
    CommentLayout(s + hd + ItemsCommands(o.items) + AddressCommands(o, h), o.comment, h);
  }
}
