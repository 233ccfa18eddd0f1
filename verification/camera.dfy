/**
 The camera (src/camera.rs): the canvas size, the field of view, and what `new` derives from
 them (half width, half height and the size of one pixel on the wall one unit in front of the
 eye), plus the camera-space offsets of a pixel centre used by `ray_for_pixel`.
 */
module Cameras {
  import opened Numerics
  import opened Matrices

  datatype Camera = Camera(
    transform: Matrix,
    hsize: nat,
    vsize: nat,
    fieldOfView: real,
    halfWidth: real,
    halfHeight: real,
    pixelSize: real
  )

  /** `hsize as F / vsize as F`. */
  function Aspect(hsize: nat, vsize: nat): real
    requires vsize > 0
  {
    hsize as real / vsize as real
  }

  /** The half extent of the view on the wall: `tan(field_of_view / 2)`. */
  function HalfSize(m: Math, fieldOfView: real): real
  {
    Tan(m, fieldOfView / 2.0)
  }

  /**
   `Camera::new`: the longer side of the canvas spans the full half size and the shorter one
   is cut down by the aspect ratio; a pixel is the width of the view over the number of
   columns; the transform starts as the identity.
   */
  function New(m: Math, hsize: nat, vsize: nat, fieldOfView: real): (c: Camera)
    requires hsize > 0 && vsize > 0
    ensures c.hsize == hsize && c.vsize == vsize && c.fieldOfView == fieldOfView
    ensures c.transform == Identity
    ensures Aspect(hsize, vsize) >= 1.0 ==>
      c.halfWidth == HalfSize(m, fieldOfView) && c.halfHeight == HalfSize(m, fieldOfView) / Aspect(hsize, vsize)
    ensures Aspect(hsize, vsize) < 1.0 ==>
      c.halfHeight == HalfSize(m, fieldOfView) && c.halfWidth == HalfSize(m, fieldOfView) * Aspect(hsize, vsize)
    ensures c.pixelSize * hsize as real == 2.0 * c.halfWidth
  {
    var halfSize := HalfSize(m, fieldOfView);
    var aspect := Aspect(hsize, vsize);
    var halfWidth := if aspect >= 1.0 then halfSize else halfSize * aspect;
    var halfHeight := if aspect >= 1.0 then halfSize / aspect else halfSize;
    var pixelSize := (halfWidth * 2.0) / hsize as real;
    DivThenMul(halfWidth * 2.0, hsize as real);
    Camera(Identity, hsize, vsize, fieldOfView, halfWidth, halfHeight, pixelSize)
  }

  lemma DivThenMul(a: real, d: real)
    requires d != 0.0
    ensures (a / d) * d == a
  {
  }

  /** `with_transform`: only the transform changes. */
  function WithTransform(c: Camera, transform: Matrix): (c': Camera)
    ensures c'.transform == transform
    ensures c'.hsize == c.hsize && c'.vsize == c.vsize && c'.fieldOfView == c.fieldOfView
    ensures c'.halfWidth == c.halfWidth && c'.halfHeight == c.halfHeight && c'.pixelSize == c.pixelSize
  {
    c.(transform := transform)
  }

  /**
   In both branches the half width and half height keep the canvas's aspect ratio, and the
   larger of the two is the half size.
   */
  lemma HalvesKeepAspect(m: Math, hsize: nat, vsize: nat, fieldOfView: real)
    requires hsize > 0 && vsize > 0
    requires HalfSize(m, fieldOfView) > 0.0
    ensures var c := New(m, hsize, vsize, fieldOfView);
      c.halfWidth == c.halfHeight * Aspect(hsize, vsize)
      && (if c.halfWidth >= c.halfHeight then c.halfWidth else c.halfHeight) == HalfSize(m, fieldOfView)
  {
    var c := New(m, hsize, vsize, fieldOfView);
    var s, a := HalfSize(m, fieldOfView), Aspect(hsize, vsize);
    assert a > 0.0;
    if a >= 1.0 {
      DivThenMul(s, a);
      assert c.halfHeight <= c.halfWidth by { ShrinkByFactor(s, a); }
    } else {
      assert c.halfWidth < c.halfHeight by { MulStrictMonotone(a, 1.0, s); }
    }
  }

  /** Dividing a positive quantity by a factor of at least one does not increase it. */
  lemma ShrinkByFactor(s: real, a: real)
    requires s > 0.0 && a >= 1.0
    ensures s / a <= s
  {
    MulMonotone(1.0, a, s / a);
  }

  /** Pixels are square: the pixel size also divides the view's height into `vsize` rows. */
  lemma SquarePixels(m: Math, hsize: nat, vsize: nat, fieldOfView: real)
    requires hsize > 0 && vsize > 0
    ensures var c := New(m, hsize, vsize, fieldOfView);
      c.pixelSize * vsize as real == 2.0 * c.halfHeight
  {
    var c := New(m, hsize, vsize, fieldOfView);
    var s, h, v := HalfSize(m, fieldOfView), hsize as real, vsize as real;
    var a := Aspect(hsize, vsize);
    assert a * v == h by { DivThenMul(h, v); }
    if a >= 1.0 {
      assert c.halfWidth == s && c.halfHeight == s / a;
      ScaleByRatio(s, h, v, a);
    } else {
      assert c.halfWidth == s * a && c.halfHeight == s;
      ScaleByRatio'(s, h, v, a);
    }
  }

  /** `(2s / h) * v == 2 (s / a)` when `a * v == h`. */
  lemma ScaleByRatio(s: real, h: real, v: real, a: real)
    requires h > 0.0 && v > 0.0 && a > 0.0 && a * v == h
    ensures (s * 2.0) / h * v == 2.0 * (s / a)
  {
    assert (s * 2.0) / h * v == (s * 2.0) * v / h;
    assert (s * 2.0) * v / (a * v) == (s * 2.0) / a;
  }

  /** `(2 s a / h) * v == 2 s` when `a * v == h`. */
  lemma ScaleByRatio'(s: real, h: real, v: real, a: real)
    requires h > 0.0 && v > 0.0 && a * v == h
    ensures (s * a * 2.0) / h * v == 2.0 * s
  {
    assert (s * a * 2.0) / h * v == (s * 2.0) * (a * v) / h;
  }

  /** The camera-space offsets of the centre of pixel (x, y) on the wall at z = -1. */
  function WorldX(c: Camera, x: nat): (r: real)
    ensures c.pixelSize > 0.0 ==> r < c.halfWidth
  {
    c.halfWidth - (0.5 + x as real) * c.pixelSize
  }

  function WorldY(c: Camera, y: nat): (r: real)
    ensures c.pixelSize > 0.0 ==> r < c.halfHeight
  {
    c.halfHeight - (0.5 + y as real) * c.pixelSize
  }

  /**
   Every pixel centre of the canvas lies strictly inside the view: within the half width
   horizontally and the half height vertically (for a positive half size).
   */
  lemma PixelCentresInsideView(m: Math, hsize: nat, vsize: nat, fieldOfView: real, x: nat, y: nat)
    requires hsize > 0 && vsize > 0
    requires HalfSize(m, fieldOfView) > 0.0
    requires x < hsize && y < vsize
    ensures var c := New(m, hsize, vsize, fieldOfView);
      -c.halfWidth < WorldX(c, x) < c.halfWidth && -c.halfHeight < WorldY(c, y) < c.halfHeight
  {
    var c := New(m, hsize, vsize, fieldOfView);
    SquarePixels(m, hsize, vsize, fieldOfView);
    PixelSizePositive(m, hsize, vsize, fieldOfView);
    CentreWithin(c.halfWidth, c.pixelSize, x, hsize);
    CentreWithin(c.halfHeight, c.pixelSize, y, vsize);
  }

  /** With a positive half size, the view has a positive half width and positive pixels. */
  lemma PixelSizePositive(m: Math, hsize: nat, vsize: nat, fieldOfView: real)
    requires hsize > 0 && vsize > 0
    requires HalfSize(m, fieldOfView) > 0.0
    ensures New(m, hsize, vsize, fieldOfView).halfWidth > 0.0
    ensures New(m, hsize, vsize, fieldOfView).pixelSize > 0.0
  {
    var c := New(m, hsize, vsize, fieldOfView);
    var s, a := HalfSize(m, fieldOfView), Aspect(hsize, vsize);
    assert a > 0.0;
    if a < 1.0 {
      assert c.halfWidth == s * a;
      MulStrictMonotone(0.0, a, s);
    } else {
      assert c.halfWidth == s;
    }
    assert c.halfWidth > 0.0;
    PositiveOfProduct(c.pixelSize, hsize as real, 2.0 * c.halfWidth);
  }

  lemma PositiveOfProduct(p: real, n: real, q: real)
    requires n > 0.0 && q > 0.0 && p * n == q
    ensures p > 0.0
  {
    if p <= 0.0 {
      MulMonotone(p, 0.0, n);
    }
  }

  /** With `n` cells of size `p` spanning `2 h`, the centre of cell `i < n` is within (-h, h) of the middle. */
  lemma CentreWithin(h: real, p: real, i: nat, n: nat)
    requires p > 0.0 && i < n && p * n as real == 2.0 * h
    ensures -h < h - (0.5 + i as real) * p < h
  {
    MulStrictMonotone(0.0, 0.5 + i as real, p);
    MulStrictMonotone(0.5 + i as real, n as real, p);
  }

  /** On a canvas with an odd number of columns the middle column looks straight ahead. */
  lemma MiddleColumnIsCentred(m: Math, hsize: nat, vsize: nat, fieldOfView: real)
    requires hsize > 0 && vsize > 0 && hsize % 2 == 1
    ensures WorldX(New(m, hsize, vsize, fieldOfView), (hsize - 1) / 2) == 0.0
  {
    var c := New(m, hsize, vsize, fieldOfView);
    var x := (hsize - 1) / 2;
    assert 0.5 + x as real == hsize as real / 2.0;
    assert (hsize as real / 2.0) * c.pixelSize == (c.pixelSize * hsize as real) / 2.0;
  }

  /** The source's pixel sizes: a 90 degree view (tan 45 degrees = 1) over 200 x 125 and 125 x 200 is 0.01. */
  lemma PixelSizeExamples(m: Math, fieldOfView: real)
    requires HalfSize(m, fieldOfView) == 1.0
    ensures New(m, 200, 125, fieldOfView).pixelSize == 0.01
    ensures New(m, 125, 200, fieldOfView).pixelSize == 0.01
  {
    assert Aspect(200, 125) == 1.6;
    assert Aspect(125, 200) == 0.625;
  }
}
