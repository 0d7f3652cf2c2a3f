/** The part of the HTML canvas 2D context the gallery's texture builders use. The context
    is modelled by its drawing state and the list of paint operations it has received.
    A clear or a fill replaces the pixels it covers; `drawImage` composites its image over
    them (source-over), so a pixel keeps what lies beneath the image's transparent parts. */
module CanvasModel {
  /** An image handed to `drawImage`: a loaded picture or another canvas, by identity. */
  type ImageId = nat

  datatype TextAlign = Start | Left | Right | Center | End
  datatype TextBaseline = Alphabetic | Top | Middle | Bottom

  datatype PaintOp =
    | ClearRect(x: int, y: int, w: int, h: int)
    | FillRect(x: int, y: int, w: int, h: int, style: string)
    | DrawImage(image: ImageId, x: int, y: int, w: int, h: int)
    | FillText(text: string, x: int, y: int, align: TextAlign, baseline: TextBaseline, font: string, style: string)

  /** A pixel's value: transparent, an opaque fill, or the point at (dx, dy) of an image
      scaled to its destination rectangle, composited over the pixel `below` it. */
  datatype Pixel = Transparent | Solid(style: string) | Over(image: ImageId, dx: int, dy: int, below: Pixel)

  /** Whether a rectangle operation paints a pixel. Glyph coverage of `fillText` depends on
      the font and is not modelled: text never decides a pixel here. */
  predicate Covers(op: PaintOp, px: int, py: int)
  {
    match op
    case ClearRect(x, y, w, h) => x <= px < x + w && y <= py < y + h
    case FillRect(x, y, w, h, _) => x <= px < x + w && y <= py < y + h
    case DrawImage(_, x, y, w, h) => x <= px < x + w && y <= py < y + h
    case FillText(_, _, _, _, _, _, _) => false
  }

  /** What a covering operation leaves in a pixel that held `below`. Fill styles are
      taken to be opaque. */
  function Paint(op: PaintOp, px: int, py: int, below: Pixel): Pixel
  {
    match op
    case ClearRect(_, _, _, _) => Transparent
    case FillRect(_, _, _, _, style) => Solid(style)
    case DrawImage(image, x, y, _, _) => Over(image, px - x, py - y, below)
    case FillText(_, _, _, _, _, _, _) => below
  }

  /** The final value of a pixel after a list of operations on a fresh canvas. */
  function PixelAt(ops: seq<PaintOp>, px: int, py: int): Pixel
    decreases |ops|
  {
    if ops == [] then Transparent
    else
      var below := PixelAt(ops[..|ops| - 1], px, py);
      if Covers(ops[|ops| - 1], px, py) then Paint(ops[|ops| - 1], px, py, below) else below
  }

  /** An operation appended last paints over every pixel it covers and leaves the others
      alone. */
  lemma PixelAtAppend(ops: seq<PaintOp>, op: PaintOp, px: int, py: int)
    ensures Covers(op, px, py) ==> PixelAt(ops + [op], px, py) == Paint(op, px, py, PixelAt(ops, px, py))
    ensures !Covers(op, px, py) ==> PixelAt(ops + [op], px, py) == PixelAt(ops, px, py)
  {
    assert (ops + [op])[..|ops + [op]| - 1] == ops;
  }

  /** Source-over with all-or-nothing alpha: a transparent point of the image shows the
      pixel beneath, any other point covers it. */
  function Composite(src: Pixel, dst: Pixel): Pixel
  {
    if src == Transparent then dst else src
  }

  /** The colour a pixel shows once every image in it is looked up: `texel(i, dx, dy)` is
      the point at (dx, dy) of image i scaled to its destination rectangle. */
  function Resolve(p: Pixel, texel: (ImageId, int, int) -> Pixel): Pixel
    decreases p
  {
    match p
    case Over(image, dx, dy, below) => Composite(texel(image, dx, dy), Resolve(below, texel))
    case _ => p
  }

  /** Drawing an image never hides the pixel beneath a transparent point of it, and
      replaces it at any other point. */
  lemma DrawImageComposites(ops: seq<PaintOp>, image: ImageId, x: int, y: int, w: int, h: int,
                            px: int, py: int, texel: (ImageId, int, int) -> Pixel)
    requires x <= px < x + w && y <= py < y + h
    ensures var after := Resolve(PixelAt(ops + [PaintOp.DrawImage(image, x, y, w, h)], px, py), texel);
            if texel(image, px - x, py - y) == Transparent then after == Resolve(PixelAt(ops, px, py), texel)
            else after == texel(image, px - x, py - y)
  {
    PixelAtAppend(ops, PaintOp.DrawImage(image, x, y, w, h), px, py);
  }

  /** A canvas element with its 2D context: fixed size, the drawing state that paint
      calls read, and the operations painted so far. */
  class Canvas {
    const width: nat
    const height: nat
    var fillStyle: string
    var font: string
    var textAlign: TextAlign
    var textBaseline: TextBaseline
    var ops: seq<PaintOp>

    /** A fresh canvas with the context's default state. */
    constructor(width: nat, height: nat)
      ensures this.width == width && this.height == height && ops == []
      ensures fillStyle == "#000000" && font == "10px sans-serif"
      ensures textAlign == Start && textBaseline == Alphabetic
    {
      this.width := width;
      this.height := height;
      fillStyle := "#000000";
      font := "10px sans-serif";
      textAlign := Start;
      textBaseline := Alphabetic;
      ops := [];
    }

    method SetFillStyle(style: string)
      modifies this`fillStyle
      ensures fillStyle == style
    {
      fillStyle := style;
    }

    method SetFont(f: string)
      modifies this`font
      ensures font == f
    {
      font := f;
    }

    method SetTextAlign(a: TextAlign)
      modifies this`textAlign
      ensures textAlign == a
    {
      textAlign := a;
    }

    method SetTextBaseline(b: TextBaseline)
      modifies this`textBaseline
      ensures textBaseline == b
    {
      textBaseline := b;
    }

    method ClearRect(x: int, y: int, w: int, h: int)
      modifies this`ops
      ensures ops == old(ops) + [PaintOp.ClearRect(x, y, w, h)]
    {
      ops := ops + [PaintOp.ClearRect(x, y, w, h)];
    }

    /** `fillRect` paints with the current fill style. */
    method FillRect(x: int, y: int, w: int, h: int)
      modifies this`ops
      ensures ops == old(ops) + [PaintOp.FillRect(x, y, w, h, fillStyle)]
    {
      ops := ops + [PaintOp.FillRect(x, y, w, h, fillStyle)];
    }

    method DrawImage(image: ImageId, x: int, y: int, w: int, h: int)
      modifies this`ops
      ensures ops == old(ops) + [PaintOp.DrawImage(image, x, y, w, h)]
    {
      ops := ops + [PaintOp.DrawImage(image, x, y, w, h)];
    }

    /** `fillText` paints with the current alignment, baseline, font and fill style. */
    method FillText(text: string, x: int, y: int)
      modifies this`ops
      ensures ops == old(ops) + [PaintOp.FillText(text, x, y, textAlign, textBaseline, font, fillStyle)]
    {
      ops := ops + [PaintOp.FillText(text, x, y, textAlign, textBaseline, font, fillStyle)];
    }
  }
}
