/** Grayscale ('L' mode) rasters and the darker-of compositing that models
    ink overstrike: a glyph is laid over a page by keeping, per pixel, the
    darker of the two samples. */
module Raster {

  /** One 8-bit grayscale sample: 0 is full ink, 255 is bare paper. */
  type Gray = v: int | 0 <= v <= 255

  /** The background value of a fresh page. */
  const White: Gray := 255

  /** A raster of `width` x `height` samples stored row by row, `px[y][x]`. */
  datatype Image = Image(width: nat, height: nat, px: seq<seq<Gray>>)
  {
    predicate Valid() {
      |px| == height && forall y :: 0 <= y < |px| ==> |px[y]| == width
    }
  }

  /** An image whose sample rows agree with its declared size. */
  type Bitmap = i: Image | i.Valid() witness Image(0, 0, [])

  predicate InBounds(img: Bitmap, x: int, y: int) {
    0 <= x < img.width && 0 <= y < img.height
  }

  /** The sample at column `x`, row `y`. */
  function At(img: Bitmap, x: int, y: int): Gray
    requires InBounds(img, x, y)
  {
    img.px[y][x]
  }

  /** The per-sample darker-of operation (the minimum value). */
  function Darker(a: Gray, b: Gray): (r: Gray)
    ensures r <= a && r <= b
    ensures r == a || r == b
  {
    if a <= b then a else b
  }

  /** Does pixel (x, y) fall in the rectangle of `glyph`'s size whose top-left
      corner is (ox, oy)? */
  predicate InCell(x: int, y: int, ox: int, oy: int, glyph: Bitmap) {
    ox <= x < ox + glyph.width && oy <= y < oy + glyph.height
  }

  /** Same size, and every sample of `a` is at least as dark as in `b`. */
  ghost predicate NoLighter(a: Bitmap, b: Bitmap) {
    && a.width == b.width
    && a.height == b.height
    && forall x, y :: InBounds(a, x, y) ==> At(a, x, y) <= At(b, x, y)
  }

  /** A blank raster of the given size with every sample set to `White`. */
  function Blank(width: nat, height: nat): (r: Bitmap)
    ensures r.width == width && r.height == height
    ensures forall x, y :: InBounds(r, x, y) ==> At(r, x, y) == White
  {
    Image(width, height, seq(height, _ => seq(width, _ => White)))
  }

  /** Lays `glyph` over `dst` with its top-left corner at (ox, oy), keeping the
      darker sample where they overlap. Parts of the glyph that fall outside
      `dst` are dropped, as a clipped paste drops them. */
  function Composite(dst: Bitmap, glyph: Bitmap, ox: nat, oy: nat): (r: Bitmap)
    ensures r.width == dst.width && r.height == dst.height
    ensures forall x, y :: InBounds(r, x, y) && InCell(x, y, ox, oy, glyph) ==>
              && At(r, x, y) <= At(dst, x, y)
              && At(r, x, y) <= At(glyph, x - ox, y - oy)
              && (At(r, x, y) == At(dst, x, y) || At(r, x, y) == At(glyph, x - ox, y - oy))
    ensures forall x, y :: InBounds(r, x, y) && !InCell(x, y, ox, oy, glyph) ==>
              At(r, x, y) == At(dst, x, y)
    ensures NoLighter(r, dst)
  {
    Image(dst.width, dst.height,
      seq(dst.height, y requires 0 <= y < dst.height =>
        seq(dst.width, x requires 0 <= x < dst.width =>
          if InCell(x, y, ox, oy, glyph)
          then Darker(dst.px[y][x], glyph.px[y - oy][x - ox])
          else dst.px[y][x])))
  }

  /** Two rasters of the same size with the same samples are the same raster. */
  lemma SamePixels(a: Bitmap, b: Bitmap)
    requires a.width == b.width && a.height == b.height
    requires forall x, y :: InBounds(a, x, y) ==> At(a, x, y) == At(b, x, y)
    ensures a == b
  {
    forall y | 0 <= y < a.height
      ensures a.px[y] == b.px[y]
    {
      forall x | 0 <= x < a.width
        ensures a.px[y][x] == b.px[y][x]
      {
        assert At(a, x, y) == At(b, x, y);
      }
    }
  }

  /** The sample left by `Composite` is exactly the darker of the two. */
  lemma CompositeAt(dst: Bitmap, glyph: Bitmap, ox: nat, oy: nat, x: int, y: int)
    requires InBounds(dst, x, y)
    ensures At(Composite(dst, glyph, ox, oy), x, y)
         == if InCell(x, y, ox, oy, glyph)
            then Darker(At(dst, x, y), At(glyph, x - ox, y - oy))
            else At(dst, x, y)
  {
  }

  /** Striking the same glyph twice in the same place darkens nothing further. */
  lemma CompositeIdempotent(dst: Bitmap, glyph: Bitmap, ox: nat, oy: nat)
    ensures Composite(Composite(dst, glyph, ox, oy), glyph, ox, oy) == Composite(dst, glyph, ox, oy)
  {
    var once := Composite(dst, glyph, ox, oy);
    var twice := Composite(once, glyph, ox, oy);
    forall x, y | InBounds(twice, x, y)
      ensures At(twice, x, y) == At(once, x, y)
    {
      CompositeAt(once, glyph, ox, oy, x, y);
      CompositeAt(dst, glyph, ox, oy, x, y);
    }
    SamePixels(twice, once);
  }

  /** The order of two overstrikes does not matter: each sample ends as the
      darkest of the page and of every glyph covering it. */
  lemma CompositeCommutes(dst: Bitmap, g1: Bitmap, x1: nat, y1: nat, g2: Bitmap, x2: nat, y2: nat)
    ensures Composite(Composite(dst, g1, x1, y1), g2, x2, y2)
         == Composite(Composite(dst, g2, x2, y2), g1, x1, y1)
  {
    var a1 := Composite(dst, g1, x1, y1);
    var a := Composite(a1, g2, x2, y2);
    var b1 := Composite(dst, g2, x2, y2);
    var b := Composite(b1, g1, x1, y1);
    forall x, y | InBounds(a, x, y)
      ensures At(a, x, y) == At(b, x, y)
    {
      CompositeAt(dst, g1, x1, y1, x, y);
      CompositeAt(a1, g2, x2, y2, x, y);
      CompositeAt(dst, g2, x2, y2, x, y);
      CompositeAt(b1, g1, x1, y1, x, y);
    }
    SamePixels(a, b);
  }

  /** A glyph with no ink leaves the raster as it was. */
  lemma CompositeBlankGlyph(dst: Bitmap, glyph: Bitmap, ox: nat, oy: nat)
    requires forall x, y :: InBounds(glyph, x, y) ==> At(glyph, x, y) == White
    ensures Composite(dst, glyph, ox, oy) == dst
  {
    var r := Composite(dst, glyph, ox, oy);
    forall x, y | InBounds(r, x, y)
      ensures At(r, x, y) == At(dst, x, y)
    {
      CompositeAt(dst, glyph, ox, oy, x, y);
    }
    SamePixels(r, dst);
  }
}
