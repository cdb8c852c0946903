/** The page canvas the packing slip draws on, reduced to what the layout
    depends on: the current fill colour and an append-only log of the
    rectangles and texts drawn, each recorded with the fill colour that was
    current when it was drawn. Fonts, line width, images and the rendering
    itself belong to the host platform and are not modelled. */
module Canvas {
  import opened PhpStrings

  /** The grey levels the packing slip uses: 0, 0.5, 0.7, 0.9 and 1. */
  datatype Shade = Black | Gray50 | Gray70 | Gray90 | White

  datatype Command =
    | Rect(x1: int, y1: int, x2: int, y2: int, fill: Shade)
    | Text(text: Bytes, x: int, y: int, fill: Shade)

  /** Appending two pieces in turn appends their concatenation. */
  lemma AppendAssoc(a: seq<Command>, b: seq<Command>, c: seq<Command>)
    ensures (a + b) + c == a + (b + c)
  {
  }

  class Page {
    var fill: Shade
    var log: seq<Command>

    /** A new page draws nothing yet and fills in black, the initial fill
        colour of a PDF page. */
    constructor ()
      ensures fill == Black && log == []
    {
      fill := Black;
      log := [];
    }

    method SetFillColor(shade: Shade)
      modifies this`fill
      ensures fill == shade
    {
      fill := shade;
    }

    method DrawRectangle(x1: int, y1: int, x2: int, y2: int)
      modifies this`log
      ensures log == old(log) + [Rect(x1, y1, x2, y2, fill)]
    {
      log := log + [Rect(x1, y1, x2, y2, fill)];
    }

    method DrawText(text: Bytes, x: int, y: int)
      modifies this`log
      ensures log == old(log) + [Text(text, x, y, fill)]
    {
      log := log + [Text(text, x, y, fill)];
    }
  }
}
