/**
 * Raster images as values: a width, a height and a grid of rows of pixels,
 * with the three value-level image primitives the pipeline relies on:
 * cropping a box, stacking two images vertically, and masked compositing.
 */
module Raster {

  /** An 8-bit channel value, also the pixel of a one-channel ("L") mask. */
  type Byte = x: int | 0 <= x < 256

  /** A pixel of an "RGB" image. */
  datatype Rgb = Rgb(r: Byte, g: Byte, b: Byte)

  const White: Rgb := Rgb(255, 255, 255)

  /** The colour a fresh "RGB" image gets when no colour is named. */
  const Black: Rgb := Rgb(0, 0, 0)

  datatype Image<P> = Image(width: nat, height: nat, rows: seq<seq<P>>) {
    /** `rows` holds exactly `height` rows of exactly `width` pixels each. */
    predicate Valid() {
      |rows| == height && forall y :: 0 <= y < |rows| ==> |rows[y]| == width
    }
  }

  /** Two valid images of the same size with the same pixels are the same image. */
  lemma Equal<P>(a: Image<P>, b: Image<P>)
    requires a.Valid() && b.Valid()
    requires a.width == b.width && a.height == b.height
    requires forall y, x :: 0 <= y < a.height && 0 <= x < a.width ==> a.rows[y][x] == b.rows[y][x]
    ensures a == b
  {
    forall y | 0 <= y < a.height
      ensures a.rows[y] == b.rows[y]
    {
      assert forall x :: 0 <= x < a.width ==> a.rows[y][x] == b.rows[y][x];
    }
  }

  /** An image of the given size with every pixel set to `fill`. */
  function Blank<P>(width: nat, height: nat, fill: P): (r: Image<P>)
    ensures r.Valid() && r.width == width && r.height == height
    ensures forall y, x :: 0 <= y < height && 0 <= x < width ==> r.rows[y][x] == fill
  {
    Image(width, height, seq(height, _ => seq(width, _ => fill)))
  }

  /** The box (x0, y0, x1, y1) of `img`, as a new image whose origin is (x0, y0). */
  function Crop<P>(img: Image<P>, x0: nat, y0: nat, x1: nat, y1: nat): (r: Image<P>)
    requires img.Valid() && x0 <= x1 <= img.width && y0 <= y1 <= img.height
    ensures r.Valid() && r.width == x1 - x0 && r.height == y1 - y0
    ensures forall y, x :: 0 <= y < r.height && 0 <= x < r.width ==> r.rows[y][x] == img.rows[y0 + y][x0 + x]
  {
    Image(x1 - x0, y1 - y0, seq(y1 - y0, y requires 0 <= y < y1 - y0 => img.rows[y0 + y][x0..x1]))
  }

  /** `top` with `bottom` placed directly below it. */
  function Above<P>(top: Image<P>, bottom: Image<P>): (r: Image<P>)
    requires top.Valid() && bottom.Valid() && top.width == bottom.width
    ensures r.Valid() && r.width == top.width && r.height == top.height + bottom.height
    ensures forall y, x :: 0 <= y < top.height && 0 <= x < r.width ==> r.rows[y][x] == top.rows[y][x]
    ensures forall y, x :: top.height <= y < r.height && 0 <= x < r.width ==> r.rows[y][x] == bottom.rows[y - top.height][x]
  {
    Image(top.width, top.height + bottom.height, top.rows + bottom.rows)
  }

  /** A per-pixel blend that yields its first pixel under a 255 mask value and its second under 0. */
  ghost predicate IsMaskBlend<P(!new)>(blend: (P, P, Byte) -> P) {
    forall p, q :: blend(p, q, 255) == p && blend(p, q, 0) == q
  }

  /**
   * Masked composite of two same-sized images: every pixel is `blend` of the
   * pixels of `a` and `b` at that place under the mask value there.
   */
  function Composite<P(!new)>(a: Image<P>, b: Image<P>, mask: Image<Byte>, blend: (P, P, Byte) -> P): (r: Image<P>)
    requires a.Valid() && b.Valid() && mask.Valid()
    requires a.width == b.width == mask.width && a.height == b.height == mask.height
    ensures r.Valid() && r.width == a.width && r.height == a.height
    ensures IsMaskBlend(blend) ==> forall y, x :: 0 <= y < r.height && 0 <= x < r.width && mask.rows[y][x] == 255 ==> r.rows[y][x] == a.rows[y][x]
    ensures IsMaskBlend(blend) ==> forall y, x :: 0 <= y < r.height && 0 <= x < r.width && mask.rows[y][x] == 0 ==> r.rows[y][x] == b.rows[y][x]
  {
    Image(a.width, a.height,
      seq(a.height, y requires 0 <= y < a.height =>
        seq(a.width, x requires 0 <= x < a.width => blend(a.rows[y][x], b.rows[y][x], mask.rows[y][x]))))
  }

  /** Cropping a crop is one crop of the original, with the boxes composed. */
  lemma CropOfCrop<P>(img: Image<P>, x0: nat, y0: nat, x1: nat, y1: nat, u0: nat, v0: nat, u1: nat, v1: nat)
    requires img.Valid() && x0 <= x1 <= img.width && y0 <= y1 <= img.height
    requires u0 <= u1 <= x1 - x0 && v0 <= v1 <= y1 - y0
    ensures Crop(Crop(img, x0, y0, x1, y1), u0, v0, u1, v1) == Crop(img, x0 + u0, y0 + v0, x0 + u1, y0 + v1)
  {
    Equal(Crop(Crop(img, x0, y0, x1, y1), u0, v0, u1, v1), Crop(img, x0 + u0, y0 + v0, x0 + u1, y0 + v1));
  }
}
