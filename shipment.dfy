/** The packing-slip renderer: the drawing methods of the shipment PDF
    class, written as the step-by-step appends to the page that they are,
    each proved to append exactly the commands module Layout describes. */
module Shipment {
  import opened PhpStrings
  import opened Canvas
  import opened OrderText
  import opened Layout

  /** The table header band and its column titles. */
  method DrawHeader(page: Page)
    modifies page
    ensures page.log == HeaderOnto(old(page.log))
    ensures page.fill == White
  {
    page.SetFillColor(Gray50);
    var top := 700;
    page.DrawRectangle(25, top, 570, top - 15);

    page.SetFillColor(White);
    page.DrawText("Beschrijving", 30, 690);
    page.SetFillColor(White);
    page.DrawText("Gewicht", 205, 690);
    page.SetFillColor(White);
    page.DrawText("Artikelcode", 320, 690);
    page.SetFillColor(White);
    page.DrawText("SKU", 420, 690);
    page.SetFillColor(White);
    page.DrawText("Aantal", 490, 690);
  }

  /** The order number, shipping method, payment method and order date
      above the table, in the page's current fill colour. */
  method DrawOrderSummary(page: Page, o: Order)
    modifies page
    ensures page.log == SummaryOnto(old(page.log), o, old(page.fill))
    ensures page.fill == old(page.fill)
  {
    page.DrawText("Pakbon", 25, 780);
    page.DrawText("Order: " + o.incrementId, 25, 765);

    page.DrawText("Verzendmethode", 25, 725);
    var shippingDescription := o.shippingDescription;
    var shippingMethod := shippingDescription;
    if StrContains(shippingDescription, Dash) {
      ExplodePieces(Dash, shippingDescription);
      shippingMethod := Explode(Dash, shippingDescription)[1];
    }
    assert shippingMethod == ShippingMethod(shippingDescription);
    page.DrawText(shippingMethod, 25, 715);

    page.DrawText("Betaalmethode", 205, 725);
    page.DrawText(StripGroups(o.paymentTitle.GetOr("")), 205, 715);

    page.DrawText("Besteldatum", 320, 725);
    page.DrawText(o.dateText, 320, 715);
  }

  /** One row per item, 20 units apart from y = 670 down. The ghost result
      is the vertical offset after the last row. */
  method DrawItems(page: Page, items: seq<Item>) returns (ghost finalHeight: int)
    modifies page
    ensures page.log == ItemsOnto(old(page.log), items)
    ensures page.fill == if items == [] then old(page.fill) else Black
    ensures finalHeight == AddressTop(|items|)
  {
    var height := 670;
    var fillColor := [Gray70, Gray90];
    var counter := 0;
    while counter < |items|
      invariant 0 <= counter <= |items|
      invariant height == RowBaseline(counter)
      invariant page.log == ItemsOnto(old(page.log), items[..counter])
      invariant page.fill == if counter == 0 then old(page.fill) else Black
    {
      var item := items[counter];
      var indent := 30;
      if item.parentItemId.Some? {
        indent := 40;
      }
      DrawRow(page, counter, item, height, indent, fillColor);
      height := height - 20;
      assert items[..counter + 1][..counter] == items[..counter];
      counter := counter + 1;
    }
    assert items[..counter] == items;
    finalHeight := height;
  }

  /** The body of the item loop: row `counter`, whose baseline is `height`,
      in the loop's alternating greys `fillColor`, at the item's indent. */
  method DrawRow(page: Page, counter: nat, item: Item, height: int, indent: int, fillColor: seq<Shade>)
    requires height == RowBaseline(counter) && indent == Indent(item)
    requires fillColor == [Gray70, Gray90]
    modifies page
    ensures page.log == RowOnto(old(page.log), counter, item)
    ensures page.fill == Black
  {
    assert fillColor[counter % 2] == RowShade(counter);
    if IsComposite(item.productType) {
      page.SetFillColor(fillColor[counter % 2]);
      page.DrawRectangle(25, height + 15, 570, height - 5);

      page.SetFillColor(Black);
      page.DrawText(item.name, indent, height + 3);

      page.SetFillColor(Black);
      page.DrawText(Prefix(item.sku, 4), 320, height + 3);
    } else {
      page.SetFillColor(fillColor[counter % 2]);
      page.DrawRectangle(25, height + 15, 570, height - 5);

      page.SetFillColor(White);
      page.DrawRectangle(550, height + 10, 560, height);

      if item.weight.Some? {
        page.SetFillColor(Black);
        page.DrawText(item.weight.value, 205, height + 3);
      }

      page.SetFillColor(Black);
      page.DrawText(Prefix(item.name, 35), indent, height + 3);

      page.SetFillColor(Black);
      page.DrawText(Prefix(item.sku, 4), 320, height + 3);

      page.SetFillColor(Black);
      page.DrawText(item.sku, 420, height + 3);

      page.SetFillColor(Black);
      page.DrawText(IntToString(item.qtyOrdered) + "x", 490, height + 3);
    }
  }

  /** The billing, contact and shipping address columns below the table. */
  method DrawAddresses(page: Page, o: Order, height: int)
    modifies page
    ensures page.log == AddressesOnto(old(page.log), o, height)
    ensures page.fill == Black
  {
    DrawBillingAddress(page, o, height);
    DrawContact(page, o, height);
    DrawShippingAddress(page, o, height);
  }

  method DrawBillingAddress(page: Page, o: Order, height: int)
    modifies page
    ensures page.log == BillingOnto(old(page.log), o, height)
    ensures page.fill == Black
  {
    var billing := o.billing;
    var customerGroup := o.customerGroupCode.GetOr("");
    page.SetFillColor(Black);
    page.DrawText("Factuuradres:", 25, height - 10);
    page.SetFillColor(Black);
    page.DrawText(customerGroup, 25, height - 22);
    page.SetFillColor(Black);
    page.DrawText(Ucfirst(billing.firstname) + " " + Ucfirst(billing.lastname), 25, height - 34);
    page.SetFillColor(Black);
    page.DrawText(Implode(" ", billing.street), 25, height - 46);
    var postCode := billing.postcode.GetOr("");
    page.SetFillColor(Black);
    page.DrawText(postCode, 25, height - 58);
    page.SetFillColor(Black);
    page.DrawText(billing.city, 25, height - 70);
    page.SetFillColor(Black);
    page.DrawText(billing.countryId, 25, height - 82);
  }

  method DrawContact(page: Page, o: Order, height: int)
    modifies page
    ensures page.log == ContactOnto(old(page.log), o, height)
    ensures page.fill == Black
  {
    page.SetFillColor(Black);
    page.DrawText("Contact informatie:", 205, height - 10);
    page.SetFillColor(Black);
    page.DrawText(o.customerEmail, 205, height - 22);
    page.SetFillColor(Black);
    page.DrawText(o.billing.telephone, 205, height - 34);
  }

  method DrawShippingAddress(page: Page, o: Order, height: int)
    modifies page
    ensures page.log == ShippingOnto(old(page.log), o, height)
    ensures page.fill == Black
  {
    var shipping := o.shipping;
    page.SetFillColor(Black);
    page.DrawText("Afleveradres:", 320, height - 10);
    page.SetFillColor(Black);
    page.DrawText(Ucfirst(shipping.firstname) + " " + Ucfirst(shipping.lastname), 320, height - 22);
    page.SetFillColor(Black);
    page.DrawText(Implode(" ", shipping.street), 320, height - 34);
    var postCode := shipping.postcode.GetOr("");
    page.SetFillColor(Black);
    page.DrawText(postCode, 320, height - 46);
    page.SetFillColor(Black);
    page.DrawText(shipping.city, 320, height - 58);
    page.SetFillColor(Black);
    page.DrawText(shipping.countryId, 320, height - 70);
  }

  /** The order comment, word-wrapped into lines of at most 100 bytes, 12
      units apart starting 112 below the given height. */
  method InsertBoldOrderComment(page: Page, boldOrderComment: Option<Bytes>, height: int)
    modifies page
    ensures page.log == CommentOnto(old(page.log), boldOrderComment, height)
    ensures page.fill == if Truthy(boldOrderComment) then Black else old(page.fill)
  {
    var top := height - 100;
    var diff := 12;
    if Truthy(boldOrderComment) {
      page.SetFillColor(Black);
      var comment := boldOrderComment.value;
      while |comment| > 0
        invariant WrapOnto(page.log, comment, top, diff) == WrapOnto(old(page.log), boldOrderComment.value, top, 12)
        invariant page.fill == Black
        decreases |comment|
      {
        ghost var whole := comment;
        var line;
        if |comment| > 100 {
          var found := LastIndexOf(comment[..100], ' ');
          var end := if found.Some? && found.value != 0 then found.value else 100;
          line := comment[..end];
          comment := comment[end + 1..];
        } else {
          line := comment;
          comment := [];
        }
        assert (line, comment) == WrapStep(whole);
        page.DrawText(line, 25, top - diff);
        diff := diff + 12;
      }
    }
  }

  /** Everything drawn on one shipment's page, in the order the PDF class
      draws it. */
  method DrawShipmentPage(page: Page, o: Order)
    modifies page
    ensures page.log == PageOnto(old(page.log), o, old(page.fill))
    ensures page.fill == Black
  {
    DrawOrderSummary(page, o);
    DrawHeader(page);
    ghost var rowsBottom := DrawItems(page, o.items);
    var height := 670 - o.itemCount * 20;
    assert height == AddressTop(o.itemCount);
    assert o.itemCount == |o.items| ==> height == rowsBottom;
    DrawAddresses(page, o, height);
    InsertBoldOrderComment(page, o.comment, height);
  }

  /** One new page per shipment, in order, each drawn from its shipment's
      order. */
  method GetPdf(orders: seq<Order>) returns (pages: seq<Page>)
    ensures |pages| == |orders|
    ensures forall j :: 0 <= j < |orders| ==> pages[j].log == PageOnto([], orders[j], Black)
    ensures forall j, k :: 0 <= j < k < |pages| ==> pages[j] != pages[k]
  {
    pages := [];
    var i := 0;
    while i < |orders|
      invariant 0 <= i <= |orders| && |pages| == i
      invariant forall j :: 0 <= j < i ==> pages[j].log == PageOnto([], orders[j], Black)
      invariant forall j, k :: 0 <= j < k < i ==> pages[j] != pages[k]
    {
      var page := new Page();
      DrawShipmentPage(page, orders[i]);
      pages := pages + [page];
      i := i + 1;
    }
  }
}
