# Packing slip for shipments: a verified model

The shipment PDF class of the packing-slip module draws one page per
shipment with the host platform's PDF canvas. Each page has these parts:

- An order summary: order number, shipping method, payment method and order date.
- A grey table header.
- One row per order item.
- Three address columns: billing, contact and shipping.
- The order's free-text comment, word-wrapped.

This project models the text processing and the layout, and proves
properties of both.

- `PhpStrings` (`php_strings.dfy`) holds byte strings and the PHP built-ins
  the class uses: `substr` prefix, `str_contains` and `explode` with the
  leftmost search they perform, `strrpos`, `implode`, `ucfirst`, integer-to-string conversion and string
  truthiness. Each has a contract or a lemma that says what it returns.
- `OrderText` (`order_text.dfy`) holds three pure transforms:
  - the shipping method taken from the shipping description;
  - the payment title with its parenthesised groups removed;
  - the comment word-wrap, as the loop performs it.
- `Canvas` (`canvas.dfy`) is the page. It is a class with a current fill
  colour and an append-only log of drawn rectangles and texts. Each command
  records the fill colour that was current when it was drawn.
- `Layout` (`layout.dfy`) specifies every drawing block as a function from
  the log before the block to the log after it. The lemmas say where every
  command lands: row geometry, alternating greys, indents, truncation,
  address columns, comment lines, and non-overlap of the blocks.
- `Shipment` (`shipment.dfy`) holds the drawing methods of the class, written
  as the same sequence of `setFillColor`/`drawRectangle`/`drawText` calls
  and loops. Each is proved to leave exactly the log `Layout` describes.

On a hard cut the code also skips the byte at index 100 (see Findings).

## Model

| member | source | states |
|---|---|---|
| PhpStrings.Prefix | packing_slip/Shipment.php:346 | `substr(s, 0, n)` is the first n bytes of s, or all of s when it is shorter |
| PhpStrings.IndexOf | packing_slip/Shipment.php:160-162 | the search `str_contains` and `explode` perform: the result is the leftmost occurrence of the needle, or None exactly when the needle occurs nowhere |
| PhpStrings.StrContains | packing_slip/Shipment.php:160 | `str_contains` holds exactly when the needle occurs somewhere |
| PhpStrings.LastIndexOf | packing_slip/Shipment.php:295 | `strrpos` for one byte gives the index of the last occurrence, or None when the byte is absent |
| PhpStrings.Explode | packing_slip/Shipment.php:161-162 | `explode` always yields at least one piece |
| PhpStrings.Implode | packing_slip/Shipment.php:215 | `implode` of no parts is empty; otherwise the first part starts the result and the last part ends it |
| PhpStrings.ExplodeImplode | packing_slip/Shipment.php:161-162 | joining the pieces of `explode` with the separator gives back the original string |
| PhpStrings.ExplodePieces | packing_slip/Shipment.php:161-162 | no piece contains the separator, and there is more than one piece exactly when the separator occurs |
| PhpStrings.Ucfirst | packing_slip/Shipment.php:211 | `ucfirst` keeps the length and every byte after the first; it upper-cases a leading ASCII lower-case letter and leaves any other string unchanged |
| PhpStrings.UcfirstIdempotent | packing_slip/Shipment.php:211 | applying `ucfirst` twice equals applying it once |
| PhpStrings.IntToString | packing_slip/Shipment.php:377 | the text of an integer in a string context is never empty; what it reads back as is in IntToStringRoundTrip |
| PhpStrings.IntToStringRoundTrip | packing_slip/Shipment.php:377 | the decimal text of an integer is an optional minus followed by digits, and it reads back as the same integer |
| PhpStrings.Truthy | packing_slip/Shipment.php:291 | a possibly null comment is true unless it is null, "" or "0", as PHP reads a string in an `if`; CommentLayout shows that a false one draws nothing |
| OrderText.ShippingMethod | packing_slip/Shipment.php:158-163 | the second " - "-separated piece of the description when it contains " - ", else the description; ShippingMethodSpec states what that piece is |
| OrderText.ShippingMethodSpec | packing_slip/Shipment.php:158-163 | without " - " the description is printed unchanged; with one, the method is the text between the first " - " and the next (or the end), and it contains no " - " |
| OrderText.MatchGroup | packing_slip/Shipment.php:170 | finds a `(`, one or more non-`)` bytes and a `)` at the start of the text, or reports that none starts there |
| OrderText.StripGroups | packing_slip/Shipment.php:170 | `preg_replace` of `\([^)]+\)` by "", scanning left to right; GroupRemoved, EmptyParensKept, NoGroupLeft and StripClean state its behaviour |
| OrderText.GroupRemoved | packing_slip/Shipment.php:170 | a parenthesised group with at least one byte inside is deleted, and scanning goes on after it |
| OrderText.EmptyParensKept | packing_slip/Shipment.php:170 | `()` is kept, since the pattern needs at least one byte between the parentheses |
| OrderText.StripKeepsBytes | packing_slip/Shipment.php:170 | the cleaned title holds only bytes of the original title |
| OrderText.NoGroupLeft | packing_slip/Shipment.php:170 | no parenthesised group remains in the cleaned text |
| OrderText.StripClean | packing_slip/Shipment.php:170 | a text without a group is left unchanged |
| OrderText.PaymentTitle | packing_slip/Shipment.php:170 | the cleaned payment title, with a null title read as '' ; PaymentTitleSpec states its properties |
| OrderText.PaymentTitleSpec | packing_slip/Shipment.php:170 | a null title prints as the empty string; the printed title has no group left, and cleaning it again changes nothing |
| OrderText.BreakAt | packing_slip/Shipment.php:295-296 | the cut is at the last space among the first 100 bytes; it is at 100 when there is no space there or the only one is at index 0 |
| OrderText.WrapStep | packing_slip/Shipment.php:294-302 | a pass emits a line of at most 100 bytes and strictly shortens the remaining comment; a rest of at most 100 bytes is emitted whole; otherwise exactly one byte between line and rest is dropped |
| OrderText.WrapLines | packing_slip/Shipment.php:293-305 | the lines the loop draws, one WrapStep per pass, first line first; WrapLinesBounded and the break lemmas state their properties |
| OrderText.WrapLinesBounded | packing_slip/Shipment.php:293-305 | every emitted line is at most 100 bytes, and no line is emitted exactly when the comment is empty |
| OrderText.WrapShortComment | packing_slip/Shipment.php:299-302 | a comment of 1 to 100 bytes is emitted as one whole line |
| OrderText.WrapAtSpace | packing_slip/Shipment.php:295-298 | on a break at a space at index end > 0, the line is the text before the space, and the space is neither drawn nor carried over |
| OrderText.WrapHardCut | packing_slip/Shipment.php:296-298 | with no space among bytes 1 to 99, the line is the first 100 bytes and the byte at index 100 is skipped |
| OrderText.HardCutDropsByte | packing_slip/Shipment.php:296-298 | as written, 101 letters without a space are drawn as one line of 100 letters, so a letter is lost |
| OrderText.KeepingCutStep | packing_slip/Shipment.php:294-302 | one corrected pass drops only the space it breaks at |
| OrderText.KeepingCutLosesNoText | packing_slip/Shipment.php:294-302 | with the corrected cut, the lines together hold every non-space byte of the comment in order, and each line is at most 100 bytes |
| Layout.SummaryOnto | packing_slip/Shipment.php:147-181 | the log after the summary's eight `drawText` calls in source order; SummaryShape states what they draw |
| Layout.SummaryAppends | packing_slip/Shipment.php:147-181 | the summary appends the same commands whatever the page already holds |
| Layout.SummaryShape | packing_slip/Shipment.php:147-181 | the summary is eight texts in the page's fill colour, all above the table header; texts 4 and 6 are the shipping method and the cleaned payment title |
| Layout.HeaderOnto | packing_slip/Shipment.php:88-111 | the log after `_drawHeader`'s rectangle and five titles, in source order; HeaderShape states where they lie |
| Layout.HeaderAppends | packing_slip/Shipment.php:88-111 | the header appends the same commands whatever the page already holds |
| Layout.HeaderShape | packing_slip/Shipment.php:88-111 | the header is a mid-grey band from y 685 to 700 across the page, with five white column titles on baseline 690 inside it |
| Layout.QtyTextSpec | packing_slip/Shipment.php:377 | the quantity text is the integer's decimal text followed by "x", and it reads back as the quantity |
| Layout.RowBaseline | packing_slip/Shipment.php:322 | the offset `$height` while row i is drawn: 670, lowered by 20 per earlier row (:348, :379); RowShape states the row geometry around it |
| Layout.IsComposite | packing_slip/Shipment.php:336 | configurable and bundle items take the short branch; CompositeRow and SimpleRow state the two layouts |
| Layout.Indent | packing_slip/Shipment.php:331-333 | the name's x offset: 40 for an item with a parent item id, else 30; CompositeRow and SimpleRow place the name there |
| Layout.RowShade | packing_slip/Shipment.php:325 | the band's grey `$fillColor[$counter % 2]`: 0.7 for an even row, 0.9 for an odd one; RowsAlternate states that neighbours differ |
| Layout.QtyText | packing_slip/Shipment.php:377 | the quantity column `intval(qty) . 'x'`; QtyTextSpec states that it reads back as the quantity |
| Layout.RowOnto | packing_slip/Shipment.php:336-379 | the log after one pass of the item loop for row i, with both branches and the optional weight; RowShape, CompositeRow, SimpleRow and RowWeight state its contents |
| Layout.RowAppends | packing_slip/Shipment.php:336-379 | a row appends the same commands whatever the page already holds |
| Layout.RowShape | packing_slip/Shipment.php:336-357 | row i starts with a band from 670-20i+15 to 670-20i-5, grey 0.7 or 0.9 by parity; the whole row lies in the band; texts are black on baseline 670-20i+3; the SKU prefix is at x 320; the white checkbox appears exactly for non-composite items |
| Layout.CompositeRow | packing_slip/Shipment.php:336-348 | a configurable or bundle row is the band, the untruncated name at the item's indent, and the 4-byte SKU prefix |
| Layout.SimpleRow | packing_slip/Shipment.php:350-379 | any other row draws the name cut to 35 bytes at the indent, the full SKU at x 420 and the quantity at x 490; it has one command more when there is a weight |
| Layout.RowWeight | packing_slip/Shipment.php:359-365 | a weight text is drawn at x 205 exactly when the item is not composite and has a weight, and it shows that weight |
| Layout.RowsAlternate | packing_slip/Shipment.php:325 | neighbouring rows never share a background grey |
| Layout.ItemsOnto | packing_slip/Shipment.php:328-382 | the log after the item loop, row i for item i; ItemsAppend ties it to the rows laid end to end |
| Layout.ItemsCommandsSnoc | packing_slip/Shipment.php:328-382 | drawing one more item appends its row, numbered by its position |
| Layout.ItemsAppend | packing_slip/Shipment.php:328-382 | drawing the items one by one (`ItemsOnto`) appends the rows laid end to end, whatever the page already holds; the reference form `Rows` gives row i from index i and item i |
| Layout.ItemRowInLog | packing_slip/Shipment.php:328-382 | row i's commands sit in the table's log right after those of the rows before it |
| Layout.ItemsBand | packing_slip/Shipment.php:322-379 | the whole table lies between the header's bottom (685) and 15 above the address offset for the rows drawn |
| Layout.FullName | packing_slip/Shipment.php:211 | `ucfirst(first) . ' ' . ucfirst(last)`, used for both addresses (:248); Ucfirst states what each half becomes |
| Layout.BillingOnto | packing_slip/Shipment.php:201-228 | the log after the billing column's seven `drawText` calls; BillingShape states their positions |
| Layout.ContactOnto | packing_slip/Shipment.php:230-240 | the log after the contact column's three `drawText` calls; ContactShape states their positions |
| Layout.ShippingOnto | packing_slip/Shipment.php:242-265 | the log after the shipping column's six `drawText` calls; ShippingShape states their positions |
| Layout.BillingShape | packing_slip/Shipment.php:201-228 | the billing column is seven black lines at x 25, the first 10 below the offset and each next one 12 lower |
| Layout.ContactShape | packing_slip/Shipment.php:230-240 | the contact column is three black lines at x 205 on the same baselines |
| Layout.ShippingShape | packing_slip/Shipment.php:242-265 | the shipping column is six black lines at x 320 on the same baselines |
| Layout.AddressesOnto | packing_slip/Shipment.php:201-265 | the log after the billing, contact and shipping columns in turn; AddressesAppend splits it into the three columns |
| Layout.AddressesAppend | packing_slip/Shipment.php:201-265 | the address block is the billing, contact and shipping columns in turn, appended whatever the page holds |
| Layout.AddressShape | packing_slip/Shipment.php:201-265 | every address text is black, with its baseline between offset-82 and offset-10 |
| Layout.AddressTop | packing_slip/Shipment.php:188 | the address offset `670 - count * 20` from the number of items the order reports; Shipment.DrawItems proves the item loop ends at `AddressTop(|items|)` |
| Layout.AddressesBelowItems | packing_slip/Shipment.php:188 | with the offset 670 - 20 * (counted items), and at least as many counted items as rows drawn, every address lies below every part of the table |
| Layout.WrapOnto | packing_slip/Shipment.php:293-305 | the log after the comment loop, one line per pass at `$height - $diff` with `$diff` growing by 12; WrapColumn states the column it draws |
| Layout.WrapColumn | packing_slip/Shipment.php:290-305 | the loop's pass-by-pass drawing (`WrapOnto`) appends the wrapped lines as a column, in the reference form `TextColumn`: line k in black at x 25, top - diff - 12k |
| Layout.CommentOnto | packing_slip/Shipment.php:285-307 | the log after `insertBoldOrderComment`: the loop's lines from 100 below the offset when the comment is truthy, else nothing; CommentLayout states the layout |
| Layout.CommentLayout | packing_slip/Shipment.php:285-307 | a null, "" or "0" comment draws nothing; otherwise comment line k is drawn at x 25, y = offset - 100 - 12(k+1); it is at most 100 bytes, and at least one line is drawn |
| Layout.CommentBelowAddresses | packing_slip/Shipment.php:287 | the comment is drawn below the address blocks |
| Layout.PageOnto | packing_slip/Shipment.php:143-269 | the log after one shipment's page: summary, header, items, addresses and comment in source order; PageBlocks splits it into the blocks |
| Layout.PageBlocks | packing_slip/Shipment.php:143-269 | a page is the summary, header, item table, addresses at the counted-items offset and the comment, in that order |
| Shipment.DrawHeader | packing_slip/Shipment.php:88-111 | `_drawHeader` appends exactly the header commands and leaves the fill white |
| Shipment.DrawOrderSummary | packing_slip/Shipment.php:145-181 | appends the eight summary texts in the current fill colour, with the split shipping method and the cleaned payment title |
| Shipment.DrawItems | packing_slip/Shipment.php:318-385 | `drawItems` appends exactly one row per item in order, and its final offset is 670 - 20 * (rows drawn) |
| Shipment.DrawRow | packing_slip/Shipment.php:329-381 | one pass of the item loop appends exactly row `counter`'s commands and leaves the fill black |
| Shipment.DrawAddresses | packing_slip/Shipment.php:201-265 | appends the three address columns in turn |
| Shipment.DrawBillingAddress | packing_slip/Shipment.php:201-228 | appends the billing column |
| Shipment.DrawContact | packing_slip/Shipment.php:230-240 | appends the contact column |
| Shipment.DrawShippingAddress | packing_slip/Shipment.php:242-265 | appends the shipping column |
| Shipment.InsertBoldOrderComment | packing_slip/Shipment.php:285-307 | the wrap loop appends exactly the comment block for the given offset, and draws nothing for a falsy comment |
| Shipment.DrawShipmentPage | packing_slip/Shipment.php:139-269 | one loop pass of `getPdf` appends exactly the page's five blocks and leaves the fill black |
| Shipment.GetPdf | packing_slip/Shipment.php:121-281 | one distinct page per shipment, in order, each holding exactly its order's page |

## Left out

- Fonts, font sizes, line width, the `'UTF-8'` argument and text rendering. These belong to the PDF library; the log records only geometry, text and fill colour.
- Image drawing by `drawLogo`. It loads a file and draws an image. The model assumes it draws nothing that is modelled and leaves the fill colour of a new page, black, unchanged.
- Store emulation and `setCurrentStore`. These switch platform context.
- `_beforeGetPdf`, `_afterGetPdf`, `_initRenderer`, `_setPdf` and the internals of `newPage`. These are host hooks; a new page is modelled as an empty page.
- `getItemsSorted` is a repository query. The items come in as a sequence, assumed already sorted by SKU.
- `count($order->getItems())` is taken as the input `itemCount`. It may differ from the number of rows drawn, so the non-overlap lemma requires it to be at least that number.
- The locale date formatting is a foreign call. The formatted date is an input text.
- The customer group lookup is a repository call. The group code comes in as an Option: None when the order has no truthy group id.
- The weight attribute lookup is a product repository call. The weight comes in as an optional text: None when the item has no product or the attribute is unset.
- Grey levels in the source are floats. They are the enumerated shades 0, 0.5, 0.7, 0.9 and 1.
- `intval` of the float quantity is not modelled. The quantity comes in as an integer.
- A null shipping description is not modelled. PHP raises a type error there; the description is a string input.
- A null item name, a null SKU, or a null first or last name of an address is not modelled. Under `strict_types=1` (packing_slip/Shipment.php:8) `substr` (:346, :368, :371) and `ucfirst` (:211, :248) raise a type error on null; these fields are string inputs.
- Null billing or shipping addresses are not modelled. PHP fails on them; both are inputs.
- The backtracking limit of `preg_replace` is not modelled. The regex has no nested quantifiers, so the match is complete.
- Text is modelled as bytes, and `ucfirst` is modelled for ASCII only. PHP's string functions count bytes.
- Shipment.DrawItems: the final vertical offset is returned as a ghost result, not as the source's `Zend_Pdf_Page` return value, which is the same page object passed in.
- Shipment.DrawRow and the three address-column methods are pieces of the source's inline code, split out as methods. The calls they make are those of the source, in the same order.
- Shipment.InsertBoldOrderComment and the page model keep the as-written wrap. The corrected wrap (Findings) is proved separately and is not drawn.

## Findings

| source | as written | input that shows it | evidently intended | confidence | as-written member | corrected member |
|---|---|---|---|---|---|---|
| packing_slip/Shipment.php:296-298 | on a hard cut (no usable space in the first 100 bytes) the line is the first 100 bytes and the rest starts at `$end + 1`, so the byte at index 100 is never drawn | a comment of 101 letters `a` with no space: one line of 100 letters is drawn and the 101st letter is lost | on a hard cut the rest starts at `$end`, so only a space the line breaks at is consumed | not executed | OrderText.HardCutDropsByte | OrderText.KeepingCutLosesNoText |
