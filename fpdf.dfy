/**
 The drawing engine the QR writer talks to, reduced to a recording canvas.

 The real engine builds a PDF document; here every call the writer makes is
 appended, in call order, to a log of drawing commands. The document the
 engine would serialise is determined by that log.
 */
module Fpdf {

  /** One drawing command issued to the canvas. */
  datatype Op =
    | NewPage(unit: string, width: int, height: int)  // page of the given size, in `unit`
    | SetFill(r: int, g: int, b: int)                 // active fill colour
    | Rect(x: int, y: int, w: int, h: int)            // filled rectangle
    | Image(path: string, left: real, top: real, w: int, h: int)  // embedded raster image

  /** A canvas that records, in order, every command it receives. */
  class Canvas {
    var log: seq<Op>

    constructor ()
      ensures log == []
    {
      log := [];
    }

    /** Creates the page: the engine's constructor with a unit and size, then AddPage. */
    method AddPage(unit: string, width: int, height: int)
      modifies this
      ensures log == old(log) + [NewPage(unit, width, height)]
    {
      log := log + [NewPage(unit, width, height)];
    }

    method SetFillColor(r: int, g: int, b: int)
      modifies this
      ensures log == old(log) + [SetFill(r, g, b)]
    {
      log := log + [SetFill(r, g, b)];
    }

    /** A rectangle drawn in fill mode ('F'). */
    method FillRect(x: int, y: int, w: int, h: int)
      modifies this
      ensures log == old(log) + [Rect(x, y, w, h)]
    {
      log := log + [Rect(x, y, w, h)];
    }

    method DrawImage(path: string, left: real, top: real, w: int, h: int)
      modifies this
      ensures log == old(log) + [Image(path, left, top, w, h)]
    {
      log := log + [Image(path, left, top, w, h)];
    }
  }
}
