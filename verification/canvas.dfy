/**
 The canvas (src/canvas.rs): a width, a height and a row-major buffer of colours. A pixel
 (x, y) lives at index `y * width + x`; reads and writes check only that flat index against
 the buffer (a Rust slice index), so a column past the right edge silently lands in the
 next row, and an index past the end panics, which the preconditions below stand for.
 */
module Canvases {
  import opened Colors

  datatype Canvas = Canvas(width: nat, height: nat, pixels: seq<Color>)

  /** The buffer holds exactly one colour per pixel. */
  predicate Valid(c: Canvas)
  {
    |c.pixels| == c.width * c.height
  }

  predicate InBounds(c: Canvas, x: nat, y: nat)
  {
    x < c.width && y < c.height
  }

  /** `Canvas::new`: every pixel black. */
  function New(width: nat, height: nat): (c: Canvas)
    ensures c.width == width && c.height == height
    ensures Valid(c)
    ensures forall i :: 0 <= i < |c.pixels| ==> c.pixels[i] == Black
  {
    Canvas(width, height, seq(width * height, _ => Black))
  }

  /** `get_pixel_index`: row-major order. */
  function PixelIndex(c: Canvas, x: nat, y: nat): (i: nat)
    ensures x < c.width ==> i / c.width == y && i % c.width == x
  {
    assert x < c.width ==> (y * c.width + x) / c.width == y && (y * c.width + x) % c.width == x by {
      if x < c.width { RowOfIndex(c.width, y, x); }
    }
    y * c.width + x
  }

  /** `color_at`: the colour stored at the pixel's flat index. */
  function ColorAt(c: Canvas, x: nat, y: nat): (col: Color)
    requires PixelIndex(c, x, y) < |c.pixels|
    ensures col in c.pixels
    ensures (forall i :: 0 <= i < |c.pixels| ==> c.pixels[i] == Black) ==> col == Black
  {
    c.pixels[PixelIndex(c, x, y)]
  }

  /** `write_pixel`: replaces the colour at the pixel's flat index and nothing else. */
  function WritePixel(c: Canvas, x: nat, y: nat, color: Color): (c': Canvas)
    requires PixelIndex(c, x, y) < |c.pixels|
    ensures c'.width == c.width && c'.height == c.height && |c'.pixels| == |c.pixels|
    ensures Valid(c) ==> Valid(c')
    ensures forall i :: 0 <= i < |c.pixels| && i != PixelIndex(c, x, y) ==> c'.pixels[i] == c.pixels[i]
  {
    c.(pixels := c.pixels[PixelIndex(c, x, y) := color])
  }

  /** Every in-bounds pixel has a slot in the buffer of a valid canvas. */
  lemma IndexInBuffer(c: Canvas, x: nat, y: nat)
    requires Valid(c) && InBounds(c, x, y)
    ensures PixelIndex(c, x, y) < |c.pixels|
  {
    assert y * c.width + x < (y + 1) * c.width;
    MulMonotoneNat(y + 1, c.height, c.width);
  }

  lemma MulMonotoneNat(a: nat, b: nat, k: nat)
    requires a <= b
    ensures a * k <= b * k
  {
  }

  /** Distinct in-bounds pixels have distinct slots, and every slot belongs to one pixel. */
  lemma IndexInjective(c: Canvas, x1: nat, y1: nat, x2: nat, y2: nat)
    requires InBounds(c, x1, y1) && InBounds(c, x2, y2)
    ensures PixelIndex(c, x1, y1) == PixelIndex(c, x2, y2) <==> x1 == x2 && y1 == y2
  {
    if PixelIndex(c, x1, y1) == PixelIndex(c, x2, y2) {
      RowOfIndex(c.width, y1, x1);
      RowOfIndex(c.width, y2, x2);
    }
  }

  /** The row and column come back from a flat index by division and remainder. */
  lemma RowOfIndex(width: nat, y: nat, x: nat)
    requires x < width
    ensures (y * width + x) / width == y && (y * width + x) % width == x
  {
    var i := y * width + x;
    var q, r := i / width, i % width;
    assert q * width + r == y * width + x;
    if q < y {
      MulMonotoneNat(q + 1, y, width);
    } else if q > y {
      MulMonotoneNat(y + 1, q, width);
    }
  }

  /** Writing a pixel and reading it back gives the written colour. */
  lemma WriteThenRead(c: Canvas, x: nat, y: nat, color: Color)
    requires PixelIndex(c, x, y) < |c.pixels|
    ensures ColorAt(WritePixel(c, x, y, color), x, y) == color
  {
  }

  /** Writing one in-bounds pixel leaves every other in-bounds pixel as it was. */
  lemma WriteLeavesOthers(c: Canvas, x: nat, y: nat, color: Color, x': nat, y': nat)
    requires Valid(c) && InBounds(c, x, y) && InBounds(c, x', y')
    requires x != x' || y != y'
    ensures PixelIndex(c, x, y) < |c.pixels| && PixelIndex(c, x', y') < |c.pixels|
      && ColorAt(WritePixel(c, x, y, color), x', y') == ColorAt(c, x', y')
  {
    IndexInBuffer(c, x, y);
    IndexInBuffer(c, x', y');
    IndexInjective(c, x, y, x', y');
    var i, j := PixelIndex(c, x, y), PixelIndex(c, x', y');
    assert i != j;
  }

  /**
   Only the flat index is checked: a column one past the right edge is the first pixel of the
   next row, so writing there changes that pixel.
   */
  lemma PastRightEdgeWrapsToNextRow(c: Canvas, y: nat, color: Color)
    requires Valid(c) && c.width > 0 && y + 1 < c.height
    ensures PixelIndex(c, c.width, y) == PixelIndex(c, 0, y + 1)
    ensures PixelIndex(c, 0, y + 1) < |c.pixels| && ColorAt(WritePixel(c, c.width, y, color), 0, y + 1) == color
  {
    IndexInBuffer(c, 0, y + 1);
  }

  /** A new 10 x 20 canvas is 200 black pixels. */
  lemma NewCanvasIsBlack(x: nat, y: nat)
    requires x < 10 && y < 20
    ensures |New(10, 20).pixels| == 200
    ensures PixelIndex(New(10, 20), x, y) < 200 && ColorAt(New(10, 20), x, y) == Black
  {
    IndexInBuffer(New(10, 20), x, y);
  }
}
