/**
 * The seam-stitching pipeline of the out-painter: the guide image handed to
 * the generator, the strip crops, the gradient mask, the smooth overlap band,
 * the concatenation of a previous tile with a new one, the print image, and
 * the choice of the ControlNet model from the backend's catalog.
 */
module OutPainter {
  import opened Wrappers
  import opened Raster
  import opened Canvas

  /** The errors the pipeline raises. */
  datatype PainterError =
      /** No catalog entry contains the requested name (or the first that does is empty). */
    | ControlNetModelNotFound(requested: string, catalog: seq<string>)
      /** The mask's first ramp row lies above height * 0.8, so the fall-off base is negative and `** 1.5` is complex. */
    | ComplexFallOff(height: nat, row: nat)

  // ---------------------------------------------------------------- crops

  /** The new image without its top `k` rows. */
  function RemoveTopOverlap<P>(img: Image<P>, k: nat): (r: Image<P>)
    requires img.Valid() && k <= img.height
    ensures r.Valid() && r.width == img.width && r.height == img.height - k
    ensures forall y, x :: 0 <= y < r.height && 0 <= x < r.width ==> r.rows[y][x] == img.rows[y + k][x]
  {
    Crop(img, 0, k, img.width, img.height)
  }

  /** The new image without its bottom `k` rows. */
  function RemoveBottomOverlap<P>(img: Image<P>, k: nat): (r: Image<P>)
    requires img.Valid() && k <= img.height
    ensures r.Valid() && r.width == img.width && r.height == img.height - k
    ensures forall y, x :: 0 <= y < r.height && 0 <= x < r.width ==> r.rows[y][x] == img.rows[y][x]
  {
    Crop(img, 0, 0, img.width, img.height - k)
  }

  /** The new image without its top `k` rows and its bottom `k` rows. */
  function RemoveTopBottomOverlap<P>(img: Image<P>, k: nat): (r: Image<P>)
    requires img.Valid() && 2 * k <= img.height
    ensures r.Valid() && r.width == img.width && r.height == img.height - 2 * k
    ensures forall y, x :: 0 <= y < r.height && 0 <= x < r.width ==> r.rows[y][x] == img.rows[y + k][x]
  {
    Crop(img, 0, k, img.width, img.height - k)
  }

  /** The overlap zone of the previous tile: its bottom `k` rows. */
  function PrevOverlapZone<P>(prev: Image<P>, k: nat): (r: Image<P>)
    requires prev.Valid() && k <= prev.height
    ensures r.Valid() && r.width == prev.width && r.height == k
    ensures forall y, x :: 0 <= y < k && 0 <= x < r.width ==> r.rows[y][x] == prev.rows[prev.height - k + y][x]
  {
    Crop(prev, 0, prev.height - k, prev.width, prev.height)
  }

  /** The overlap zone of the new tile: its top `k` rows, `width` pixels wide. */
  function NewOverlapZone<P>(img: Image<P>, width: nat, k: nat): (r: Image<P>)
    requires img.Valid() && width <= img.width && k <= img.height
    ensures r.Valid() && r.width == width && r.height == k
    ensures forall y, x :: 0 <= y < k && 0 <= x < width ==> r.rows[y][x] == img.rows[y][x]
  {
    Crop(img, 0, 0, width, k)
  }

  /** Removing both overlaps is removing the bottom one and then the top one, in either order. */
  lemma CropComposition<P>(img: Image<P>, k: nat)
    requires img.Valid() && 2 * k <= img.height
    ensures RemoveTopBottomOverlap(img, k) == RemoveTopOverlap(RemoveBottomOverlap(img, k), k)
    ensures RemoveTopBottomOverlap(img, k) == RemoveBottomOverlap(RemoveTopOverlap(img, k), k)
  {
    CropOfCrop(img, 0, 0, img.width, img.height - k, 0, k, img.width, img.height - k);
    CropOfCrop(img, 0, k, img.width, img.height, 0, 0, img.width, img.height - 2 * k);
  }

  /** Taking the top `k` rows of the bottom `k`-row strip gives that strip back. */
  lemma OverlapZoneIdempotent<P>(img: Image<P>, k: nat)
    requires img.Valid() && k <= img.height
    ensures NewOverlapZone(PrevOverlapZone(img, k), img.width, k) == PrevOverlapZone(img, k)
  {
    CropOfCrop(img, 0, img.height - k, img.width, img.height, 0, 0, img.width, k);
  }

  // ---------------------------------------------------------------- guide image

  /**
   * A white canvas `prev.width` wide and `k + height` tall whose top `k` rows
   * are the bottom `k` rows of the previous tile.
   */
  method GenerateGuideImage(prev: Image<Rgb>, k: nat, height: nat) returns (guide: Image<Rgb>)
    requires prev.Valid() && k <= prev.height
    ensures guide.Valid() && guide.width == prev.width && guide.height == k + height
    ensures guide == Above(PrevOverlapZone(prev, k), Blank(prev.width, height, White))
  {
    var canvas := NewCanvas(Blank(prev.width, k + height, White));
    Paste(canvas, PrevOverlapZone(prev, k), 0, 0);
    guide := Snapshot(canvas);
    Equal(guide, Above(PrevOverlapZone(prev, k), Blank(prev.width, height, White)));
  }

  // ---------------------------------------------------------------- gradient mask

  /** The first row the mask loop draws: int(height * 0.8). */
  function RampStart(height: nat): (s: nat)
    ensures 5 * s <= 4 * height < 5 * s + 5
    ensures height > 0 ==> s < height
  {
    4 * height / 5
  }

  /** The integer square root: the largest `r` with `r * r <= n`. */
  function ISqrt(n: nat): (r: nat)
    ensures r * r <= n < (r + 1) * (r + 1)
  {
    if n < 4 then (if n == 0 then 0 else 1)
    else
      var q := ISqrt(n / 4);
      ISqrtDoubling(n, q);
      var h := 2 * q;
      if (h + 1) * (h + 1) <= n then h + 1 else h
  }

  /** Doubling the root of n / 4 brackets the root of n. */
  lemma ISqrtDoubling(n: nat, q: nat)
    requires q * q <= n / 4 < (q + 1) * (q + 1)
    ensures (2 * q) * (2 * q) <= n < (2 * q + 2) * (2 * q + 2)
  {
    var m := n / 4;
    assert 4 * m <= n < 4 * m + 4;
    assert (2 * q) * (2 * q) == 4 * (q * q);
    assert (2 * q + 2) * (2 * q + 2) == 4 * ((q + 1) * (q + 1));
    assert (q + 1) * (q + 1) >= m + 1;
  }

  /**
   * The darkening of a ramp row `d` rows below the ramp's start, before the
   * clamp: floor(d ** 1.5 / height * 255), computed exactly as
   * floor(sqrt(255 * 255 * d * d * d) / height). The ensures says that
   * `drop * height <= 255 * d ** 1.5 < (drop + 1) * height`, squared.
   */
  function FallOff(d: nat, height: nat): (drop: nat)
    requires height > 0
    ensures (drop * height) * (drop * height) <= 65025 * d * d * d < ((drop + 1) * height) * ((drop + 1) * height)
  {
    var r := ISqrt(65025 * d * d * d);
    FloorDivBracket(r, height, 65025 * d * d * d);
    r / height
  }

  /** If `r` is the integer square root of `n`, then `r / h` is the integer part of sqrt(n) / h. */
  lemma FloorDivBracket(r: nat, h: nat, n: nat)
    requires h > 0 && r * r <= n < (r + 1) * (r + 1)
    ensures ((r / h) * h) * ((r / h) * h) <= n < ((r / h + 1) * h) * ((r / h + 1) * h)
  {
    var q := r / h;
    assert q * h <= r < q * h + h;
    assert (q + 1) * h == q * h + h;
    SquareMonotone(q * h, r);
    SquareMonotone(r + 1, (q + 1) * h);
  }

  /**
   * The fill of mask row `y`: white above the ramp, then 255 minus the
   * fall-off clamped to 255. On a ramp row `d` rows below its start, the fill
   * is 0 exactly when d ** 1.5 >= height, and otherwise `255 - fill` is the
   * integer part of 255 * d ** 1.5 / height, stated squared.
   */
  function MaskRow(height: nat, y: nat): (fill: Byte)
    requires y < height
    ensures y < RampStart(height) ==> fill == 255
    ensures RampStart(height) <= y ==>
      var d := y - RampStart(height);
      (fill == 0 <==> height * height <= d * d * d) &&
      (fill > 0 ==> ((255 - fill) * height) * ((255 - fill) * height) <= 65025 * d * d * d
                      < ((256 - fill) * height) * ((256 - fill) * height))
  {
    if y < RampStart(height) then 255
    else
      var drop := FallOff(y - RampStart(height), height);
      FallOffClamp(y - RampStart(height), height);
      255 - (if drop < 255 then drop else 255)
  }

  /** The clamp at 255 is reached exactly when d ** 1.5 >= height. */
  lemma FallOffClamp(d: nat, height: nat)
    requires height > 0
    ensures FallOff(d, height) >= 255 <==> height * height <= d * d * d
  {
    ClampBracket(FallOff(d, height), height, 65025 * d * d * d, d * d * d);
  }

  /** If `f * h <= sqrt(255 * 255 * cube) < (f + 1) * h`, then `f >= 255` exactly when `h * h <= cube`. */
  lemma ClampBracket(f: nat, h: nat, n: nat, cube: nat)
    requires h > 0 && n == 65025 * cube
    requires (f * h) * (f * h) <= n < ((f + 1) * h) * ((f + 1) * h)
    ensures f >= 255 <==> h * h <= cube
  {
    assert (255 * h) * (255 * h) == 65025 * (h * h);
    if f >= 255 {
      MulMonotone(255, f, h);
      SquareMonotone(255 * h, f * h);
    } else {
      MulMonotone(f + 1, 255, h);
      SquareMonotone((f + 1) * h, 255 * h);
    }
  }

  /**
   * Builds the `width` x `height` mask row by row: a white image whose rows
   * from int(height * 0.8) on are redrawn with the fall-off. When height * 0.8
   * is not whole, the first redrawn row lies above it and the source fails.
   */
  method GenerateCompositeMask(width: nat, height: nat) returns (r: Result<Image<Byte>, PainterError>)
    ensures r.Failure? <==> height % 5 != 0
    ensures r.Failure? ==> r.error == ComplexFallOff(height, RampStart(height))
    ensures r.Success? ==> r.value.Valid() && r.value.width == width && r.value.height == height
    ensures r.Success? ==> forall y, x :: 0 <= y < height && 0 <= x < width ==> r.value.rows[y][x] == MaskRow(height, y)
  {
    var mask := NewCanvas(Blank<Byte>(width, height, 255));
    var y := RampStart(height);
    while y < height
      invariant RampStart(height) <= y <= height
      invariant y > RampStart(height) ==> height % 5 == 0
      invariant mask.Length0 == height && mask.Length1 == width
      invariant forall i, j :: 0 <= i < height && 0 <= j < width ==> mask[i, j] == if i < y then MaskRow(height, i) else 255
    {
      if 5 * y < 4 * height {
        // y - height * 0.8 < 0: the power is complex and int() raises
        return Failure(ComplexFallOff(height, y));
      }
      // fill = 255 - min(int((y - height * 0.8) ** 1.5 / height * 255), 255)
      var fill := MaskRow(height, y);
      DrawRow(mask, y, fill);
      y := y + 1;
    }
    r := Success(Snapshot(mask));
  }

  /** Squaring is monotone on naturals. */
  lemma SquareMonotone(a: nat, b: nat)
    requires a <= b
    ensures a * a <= b * b
  {
    assert a * a <= a * b <= b * b;
  }

  /** Cubing is monotone on naturals. */
  lemma CubeMonotone(a: nat, b: nat)
    requires a <= b
    ensures a * a * a <= b * b * b
  {
    SquareMonotone(a, b);
    assert a * a * a <= b * b * a <= b * b * b;
  }

  /** The integer square root is monotone. */
  lemma ISqrtMonotone(m: nat, n: nat)
    requires m <= n
    ensures ISqrt(m) <= ISqrt(n)
  {
    if ISqrt(m) > ISqrt(n) {
      SquareMonotone(ISqrt(n) + 1, ISqrt(m));
      assert false;
    }
  }

  /** Multiplying by a natural is monotone. */
  lemma MulMonotone(a: nat, b: nat, d: nat)
    requires a <= b
    ensures a * d <= b * d
  {
  }

  /** Integer division by a positive natural is monotone. */
  lemma DivMonotone(a: nat, b: nat, d: nat)
    requires a <= b && d > 0
    ensures a / d <= b / d
  {
    var qa, qb := a / d, b / d;
    assert qa * d <= a && b < qb * d + d;
    assert (qb + 1) * d == qb * d + d;
  }

  /** The fall-off grows with the distance below the ramp's start. */
  lemma FallOffMonotone(d1: nat, d2: nat, height: nat)
    requires d1 <= d2 && height > 0
    ensures FallOff(d1, height) <= FallOff(d2, height)
  {
    CubeMonotone(d1, d2);
    assert 65025 * d1 * d1 * d1 <= 65025 * d2 * d2 * d2;
    ISqrtMonotone(65025 * d1 * d1 * d1, 65025 * d2 * d2 * d2);
    DivMonotone(ISqrt(65025 * d1 * d1 * d1), ISqrt(65025 * d2 * d2 * d2), height);
  }

  /** Every row above the ramp, and the ramp's first row, is white. */
  lemma MaskWhiteUntilRamp(height: nat, y: nat)
    requires y < height && y <= RampStart(height)
    ensures MaskRow(height, y) == 255
  {
  }

  /** Going down the mask, the fill never increases. */
  lemma MaskNonIncreasing(height: nat, y1: nat, y2: nat)
    requires y1 <= y2 < height
    ensures MaskRow(height, y2) <= MaskRow(height, y1)
  {
    if RampStart(height) <= y1 {
      FallOffMonotone(y1 - RampStart(height), y2 - RampStart(height), height);
    }
  }

  // ---------------------------------------------------------------- smooth overlap

  /**
   * `band` is the composite of the previous tile's bottom `k` rows over the
   * new tile's top `k` rows under the gradient mask.
   */
  ghost predicate IsSmoothOverlap(band: Image<Rgb>, prev: Image<Rgb>, img: Image<Rgb>, k: nat, blend: (Rgb, Rgb, Byte) -> Rgb)
    requires prev.Valid() && img.Valid() && k <= prev.height && k <= img.height && prev.width <= img.width
  {
    band.Valid() && band.width == prev.width && band.height == k &&
    forall y, x :: 0 <= y < k && 0 <= x < prev.width ==>
      band.rows[y][x] == blend(prev.rows[prev.height - k + y][x], img.rows[y][x], MaskRow(k, y))
  }

  /**
   * Where the mask is white the band shows the previous tile (so its top
   * int(0.8 k) + 1 rows do), where it is black the band shows the new tile.
   */
  lemma SmoothOverlapEdges(band: Image<Rgb>, prev: Image<Rgb>, img: Image<Rgb>, k: nat, blend: (Rgb, Rgb, Byte) -> Rgb)
    requires prev.Valid() && img.Valid() && k <= prev.height && k <= img.height && prev.width <= img.width
    requires IsSmoothOverlap(band, prev, img, k, blend) && IsMaskBlend(blend)
    ensures forall y, x :: 0 <= y < k && y <= RampStart(k) && 0 <= x < prev.width ==> band.rows[y][x] == prev.rows[prev.height - k + y][x]
    ensures forall y, x :: 0 <= y < k && MaskRow(k, y) == 0 && 0 <= x < prev.width ==> band.rows[y][x] == img.rows[y][x]
  {
    forall y | 0 <= y < k && y <= RampStart(k) {
      MaskWhiteUntilRamp(k, y);
    }
  }

  /** Composites the previous tile's bottom `k` rows over the new tile's top `k` rows with the gradient mask. */
  method GenerateSmoothOverlapImage(prev: Image<Rgb>, img: Image<Rgb>, k: nat, blend: (Rgb, Rgb, Byte) -> Rgb)
    returns (r: Result<Image<Rgb>, PainterError>)
    requires prev.Valid() && img.Valid() && k <= prev.height && k <= img.height && prev.width <= img.width
    ensures r.Failure? <==> k % 5 != 0
    ensures r.Failure? ==> r.error == ComplexFallOff(k, RampStart(k))
    ensures r.Success? ==> IsSmoothOverlap(r.value, prev, img, k, blend)
    ensures r.Success? && IsMaskBlend(blend) ==>
      forall y, x :: 0 <= y < k && y <= RampStart(k) && 0 <= x < prev.width ==> r.value.rows[y][x] == prev.rows[prev.height - k + y][x]
  {
    var mask := GenerateCompositeMask(prev.width, k);
    if mask.Failure? {
      return Failure(mask.error);
    }
    var band := Composite(PrevOverlapZone(prev, k), NewOverlapZone(img, prev.width, k), mask.value, blend);
    r := Success(band);
    if IsMaskBlend(blend) {
      SmoothOverlapEdges(band, prev, img, k, blend);
    }
  }

  // ---------------------------------------------------------------- concatenation

  /** The canvas after the three pastes, in the order the source makes them. */
  lemma PasteOrder(prev: Image<Rgb>, img: Image<Rgb>, band: Image<Rgb>, k: nat)
    requires prev.Valid() && img.Valid() && band.Valid()
    requires prev.width == img.width == band.width && band.height == k && k <= prev.height && k <= img.height
    ensures
      var s := prev.height - k;
      var blank := Blank(prev.width, prev.height + img.height - k, Black);
      Pasted(Pasted(Pasted(blank, prev, 0, 0), img, 0, s), band, 0, s)
        == Above(Above(RemoveBottomOverlap(prev, k), band), RemoveTopOverlap(img, k))
  {
    var s := prev.height - k;
    var blank := Blank(prev.width, prev.height + img.height - k, Black);
    Equal(Pasted(Pasted(Pasted(blank, prev, 0, 0), img, 0, s), band, 0, s),
          Above(Above(RemoveBottomOverlap(prev, k), band), RemoveTopOverlap(img, k)));
  }

  /** With the last two pastes swapped the band would be lost under the new tile's top rows. */
  lemma SwappedPasteOrder(prev: Image<Rgb>, img: Image<Rgb>, band: Image<Rgb>, k: nat)
    requires prev.Valid() && img.Valid() && band.Valid()
    requires prev.width == img.width == band.width && band.height == k && k <= prev.height && k <= img.height
    ensures
      var s := prev.height - k;
      var blank := Blank(prev.width, prev.height + img.height - k, Black);
      Pasted(Pasted(Pasted(blank, prev, 0, 0), band, 0, s), img, 0, s)
        == Above(RemoveBottomOverlap(prev, k), img)
  {
    var s := prev.height - k;
    var blank := Blank(prev.width, prev.height + img.height - k, Black);
    Equal(Pasted(Pasted(Pasted(blank, prev, 0, 0), band, 0, s), img, 0, s),
          Above(RemoveBottomOverlap(prev, k), img));
  }

  /**
   * Joins the previous tile and the new tile, whose top `k` rows overlap the
   * previous tile's bottom `k` rows, through the smooth overlap band; returns
   * the joined image and the band.
   */
  method ConcatImagesSmoothly(prev: Image<Rgb>, img: Image<Rgb>, k: nat, blend: (Rgb, Rgb, Byte) -> Rgb)
    returns (r: Result<(Image<Rgb>, Image<Rgb>), PainterError>)
    requires prev.Valid() && img.Valid() && prev.width == img.width && k <= prev.height && k <= img.height
    ensures r.Failure? <==> k % 5 != 0
    ensures r.Failure? ==> r.error == ComplexFallOff(k, RampStart(k))
    ensures r.Success? ==> IsSmoothOverlap(r.value.1, prev, img, k, blend)
    ensures r.Success? ==> r.value.0.Valid() && r.value.0.width == prev.width && r.value.0.height == prev.height + img.height - k
    ensures r.Success? ==> r.value.0 == Above(Above(RemoveBottomOverlap(prev, k), r.value.1), RemoveTopOverlap(img, k))
    ensures r.Success? && IsMaskBlend(blend) ==>
      forall y, x :: 0 <= y < prev.height && y <= prev.height - k + RampStart(k) && 0 <= x < prev.width ==> r.value.0.rows[y][x] == prev.rows[y][x]
  {
    var smooth := GenerateSmoothOverlapImage(prev, img, k, blend);
    if smooth.Failure? {
      return Failure(smooth.error);
    }
    var band := smooth.value;
    var s := prev.height - k;
    var canvas := NewCanvas(Blank(prev.width, prev.height + img.height - k, Black));
    Paste(canvas, prev, 0, 0);
    Paste(canvas, img, 0, s);
    Paste(canvas, band, 0, s);
    PasteOrder(prev, img, band, k);
    r := Success((Snapshot(canvas), band));
    if IsMaskBlend(blend) {
      JoinedKeepsPrevUntilRamp(prev, img, band, k, blend);
    }
  }

  /** The joined image shows the previous tile unchanged down to the first ramp row of the band. */
  lemma JoinedKeepsPrevUntilRamp(prev: Image<Rgb>, img: Image<Rgb>, band: Image<Rgb>, k: nat, blend: (Rgb, Rgb, Byte) -> Rgb)
    requires prev.Valid() && img.Valid() && prev.width == img.width && k <= prev.height && k <= img.height
    requires IsSmoothOverlap(band, prev, img, k, blend) && IsMaskBlend(blend)
    ensures
      var joined := Above(Above(RemoveBottomOverlap(prev, k), band), RemoveTopOverlap(img, k));
      forall y, x :: 0 <= y < prev.height && y <= prev.height - k + RampStart(k) && 0 <= x < prev.width ==> joined.rows[y][x] == prev.rows[y][x]
  {
    var joined := Above(Above(RemoveBottomOverlap(prev, k), band), RemoveTopOverlap(img, k));
    SmoothOverlapEdges(band, prev, img, k, blend);
    forall y, x | 0 <= y < prev.height && y <= prev.height - k + RampStart(k) && 0 <= x < prev.width
      ensures joined.rows[y][x] == prev.rows[y][x]
    {
      if y >= prev.height - k {
        assert joined.rows[y][x] == band.rows[y - (prev.height - k)][x];
      }
    }
  }

  // ---------------------------------------------------------------- print image

  /**
   * The new tile without its bottom `k` rows, with the smooth band, when
   * there is one, pasted over its top `k` rows.
   */
  method GeneratePrintImage(img: Image<Rgb>, k: nat, band: Option<Image<Rgb>>) returns (p: Image<Rgb>)
    requires img.Valid() && k <= img.height
    requires band.Some? ==> band.value.Valid() && band.value.width == img.width && band.value.height == k && 2 * k <= img.height
    ensures p.Valid() && p.width == img.width && p.height == img.height - k
    ensures band.None? ==> p == RemoveBottomOverlap(img, k)
    ensures band.Some? ==> p == Above(band.value, RemoveTopBottomOverlap(img, k))
  {
    var canvas := NewCanvas(RemoveBottomOverlap(img, k));
    if band.Some? {
      Paste(canvas, band.value, 0, 0);
      Equal(Snapshot(canvas), Above(band.value, RemoveTopBottomOverlap(img, k)));
    }
    p := Snapshot(canvas);
  }

  /**
   * Print images stack edge to edge into the joined scroll: the previous
   * print (the previous tile without its bottom overlap) above the new print
   * is the joined image without its own bottom overlap, which the next seam owns.
   */
  lemma PrintImagesTileScroll(prev: Image<Rgb>, img: Image<Rgb>, band: Image<Rgb>, k: nat)
    requires prev.Valid() && img.Valid() && band.Valid()
    requires prev.width == img.width == band.width && band.height == k && k <= prev.height && 2 * k <= img.height
    ensures
      var joined := Above(Above(RemoveBottomOverlap(prev, k), band), RemoveTopOverlap(img, k));
      Above(RemoveBottomOverlap(prev, k), Above(band, RemoveTopBottomOverlap(img, k))) == RemoveBottomOverlap(joined, k)
  {
    var joined := Above(Above(RemoveBottomOverlap(prev, k), band), RemoveTopOverlap(img, k));
    Equal(Above(RemoveBottomOverlap(prev, k), Above(band, RemoveTopBottomOverlap(img, k))), RemoveBottomOverlap(joined, k));
  }

  // ---------------------------------------------------------------- model selection

  /** Python's `needle in hay` on strings: `needle` occurs in `hay` as a contiguous substring. */
  predicate Contains(hay: string, needle: string)
    ensures Contains(hay, needle) ==> |needle| <= |hay|
  {
    needle <= hay || (hay != [] && Contains(hay[1..], needle))
  }

  /** `needle` occurs in `hay` starting at position `i`. */
  ghost predicate OccursAt(hay: string, needle: string, i: int) {
    0 <= i && i + |needle| <= |hay| && hay[i..i + |needle|] == needle
  }

  /** `Contains` agrees with the definition by an occurrence position. */
  lemma {:induction false} ContainsIffOccurs(hay: string, needle: string)
    ensures Contains(hay, needle) <==> exists i :: OccursAt(hay, needle, i)
  {
    if needle <= hay {
      assert OccursAt(hay, needle, 0);
    } else if hay == [] {
      assert forall i :: !OccursAt(hay, needle, i);
    } else {
      ContainsIffOccurs(hay[1..], needle);
      assert !OccursAt(hay, needle, 0);
      forall i | OccursAt(hay, needle, i)
        ensures OccursAt(hay[1..], needle, i - 1)
      {
        OccursShift(hay, needle, i);
      }
      forall j | OccursAt(hay[1..], needle, j)
        ensures OccursAt(hay, needle, j + 1)
      {
        OccursShift(hay, needle, j + 1);
      }
    }
  }

  /** An occurrence at a positive position is an occurrence one earlier in the tail. */
  lemma OccursShift(hay: string, needle: string, i: int)
    requires hay != [] && i > 0
    ensures OccursAt(hay, needle, i) <==> OccursAt(hay[1..], needle, i - 1)
  {
    if i + |needle| <= |hay| {
      assert hay[1..][i - 1..i - 1 + |needle|] == hay[i..i + |needle|];
    }
  }

  /** The index of the first catalog entry containing `wanted`, if any. */
  function FirstContaining(catalog: seq<string>, wanted: string): (r: Option<nat>)
    ensures r.Some? ==> r.value < |catalog| && Contains(catalog[r.value], wanted)
    ensures r.Some? ==> forall j :: 0 <= j < r.value ==> !Contains(catalog[j], wanted)
    ensures r.None? ==> forall j :: 0 <= j < |catalog| ==> !Contains(catalog[j], wanted)
  {
    if catalog == [] then None
    else if Contains(catalog[0], wanted) then Some(0)
    else match FirstContaining(catalog[1..], wanted)
      case None => None
      case Some(i) => Some(i + 1)
  }

  /**
   * The ControlNet model used with a guide image: the first catalog entry
   * that contains the requested name; an error when there is none or when
   * that entry is the empty string, which Python treats as false.
   */
  function SelectControlNetModel(catalog: seq<string>, wanted: string): (r: Result<string, PainterError>)
    ensures r.Success? ==> exists i :: 0 <= i < |catalog| && catalog[i] == r.value && r.value != [] && Contains(r.value, wanted)
                              && forall j :: 0 <= j < i ==> !Contains(catalog[j], wanted)
    ensures r.Failure? ==> r.error == ControlNetModelNotFound(wanted, catalog)
    ensures r.Failure? <==> (forall i :: 0 <= i < |catalog| ==> !Contains(catalog[i], wanted))
                            || (wanted == [] && catalog[0] == [])
  {
    match FirstContaining(catalog, wanted)
    case None => Failure(ControlNetModelNotFound(wanted, catalog))
    case Some(i) => if catalog[i] == [] then Failure(ControlNetModelNotFound(wanted, catalog)) else Success(catalog[i])
  }
}
