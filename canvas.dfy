/**
 * Mutable canvases: a freshly allocated two-dimensional pixel array (indexed
 * [row, column]) that pastes write into, and the image value it holds.
 */
module Canvas {
  import opened Raster

  /** The image a canvas currently holds. */
  function Snapshot<P>(a: array2<P>): (img: Image<P>)
    reads a
    ensures img.Valid() && img.width == a.Length1 && img.height == a.Length0
    ensures forall y, x :: 0 <= y < a.Length0 && 0 <= x < a.Length1 ==> img.rows[y][x] == a[y, x]
  {
    Image(a.Length1, a.Length0,
      seq(a.Length0, y requires 0 <= y < a.Length0 reads a =>
        seq(a.Length1, x requires 0 <= x < a.Length1 reads a => a[y, x])))
  }

  /**
   * `dst` after `src` is pasted with its top-left corner at (x0, y0): the
   * pixels inside that rectangle are `src`'s, every other pixel is `dst`'s.
   */
  function Pasted<P>(dst: Image<P>, src: Image<P>, x0: nat, y0: nat): (r: Image<P>)
    requires dst.Valid() && src.Valid()
    requires x0 + src.width <= dst.width && y0 + src.height <= dst.height
    ensures r.Valid() && r.width == dst.width && r.height == dst.height
    ensures forall y, x :: 0 <= y < r.height && 0 <= x < r.width ==>
      r.rows[y][x] == if y0 <= y < y0 + src.height && x0 <= x < x0 + src.width then src.rows[y - y0][x - x0] else dst.rows[y][x]
  {
    Image(dst.width, dst.height,
      seq(dst.height, y requires 0 <= y < dst.height =>
        seq(dst.width, x requires 0 <= x < dst.width =>
          if y0 <= y < y0 + src.height && x0 <= x < x0 + src.width then src.rows[y - y0][x - x0] else dst.rows[y][x])))
  }

  /** Allocates a new canvas holding `img`. */
  method NewCanvas<P>(img: Image<P>) returns (a: array2<P>)
    requires img.Valid()
    ensures fresh(a) && Snapshot(a) == img
  {
    a := new P[img.height, img.width]((y, x) requires 0 <= y < img.height && 0 <= x < img.width => img.rows[y][x]);
    Equal(Snapshot(a), img);
  }

  /** Writes `src` into the canvas with its top-left corner at (x0, y0), one pixel at a time. */
  method Paste<P>(a: array2<P>, src: Image<P>, x0: nat, y0: nat)
    requires src.Valid() && x0 + src.width <= a.Length1 && y0 + src.height <= a.Length0
    modifies a
    ensures Snapshot(a) == Pasted(old(Snapshot(a)), src, x0, y0)
  {
    ghost var before := Snapshot(a);
    var y := 0;
    while y < src.height
      invariant 0 <= y <= src.height
      invariant forall i, j :: 0 <= i < a.Length0 && 0 <= j < a.Length1 ==>
        a[i, j] == if y0 <= i < y0 + y && x0 <= j < x0 + src.width then src.rows[i - y0][j - x0] else before.rows[i][j]
    {
      var x := 0;
      while x < src.width
        invariant 0 <= x <= src.width
        invariant forall i, j :: 0 <= i < a.Length0 && 0 <= j < a.Length1 ==>
          a[i, j] == if (y0 <= i < y0 + y && x0 <= j < x0 + src.width) || (i == y0 + y && x0 <= j < x0 + x)
                     then src.rows[i - y0][j - x0] else before.rows[i][j]
      {
        a[y0 + y, x0 + x] := src.rows[y][x];
        x := x + 1;
      }
      y := y + 1;
    }
    Equal(Snapshot(a), Pasted(before, src, x0, y0));
  }

  /** Draws a horizontal line across the whole width of row `y` in colour `fill`. */
  method DrawRow<P>(a: array2<P>, y: nat, fill: P)
    requires y < a.Length0
    modifies a
    ensures forall i, j :: 0 <= i < a.Length0 && 0 <= j < a.Length1 ==> a[i, j] == if i == y then fill else old(a[i, j])
  {
    var x := 0;
    while x < a.Length1
      invariant 0 <= x <= a.Length1
      invariant forall i, j :: 0 <= i < a.Length0 && 0 <= j < a.Length1 ==>
        a[i, j] == if i == y && j < x then fill else old(a[i, j])
    {
      a[y, x] := fill;
      x := x + 1;
    }
  }
}
