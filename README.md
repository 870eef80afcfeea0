# Seam stitching of the infinite scroll

A Dafny model of the image-composition core of `OutPainter`. The out-painter grows a long
vertical illustration one tile at a time. Each new tile is generated from a guide image that
carries the bottom strip of the previous tile. The new tile's top `k` rows ("the overlap") are
then blended with the previous tile's bottom `k` rows through a gradient mask. The previous tile,
this smooth band and the rest of the new tile are pasted into one canvas. A second "print" image
lets consecutive prints be stacked edge to edge.

Modules:

- `Wrappers` (`wrappers.dfy`): `Option` and `Result`. A raised exception is a `Failure`.
- `Raster` (`raster.dfy`): images as values `Image<P>(width, height, rows)` with `Valid()`.
  Tile pixels are `Rgb` and mask pixels are `Byte`. It also defines the value-level PIL
  primitives the core uses: `Crop`, `Blank`, `Above` (vertical stacking, used only in
  specifications) and `Composite` (`Image.composite`). It holds the crop-composition lemma.
- `Canvas` (`canvas.dfy`): a canvas is a freshly allocated `array2` indexed `[row, column]`.
  `Paste` writes an image into it pixel by pixel, and its postcondition is the pure `Pasted`.
  `Snapshot` reads the canvas back as an image.
- `OutPainter` (`out_painter.dfy`): the pipeline. The strip crops and the model selection are
  functions. The guide image, the mask, the concatenation and the print image are methods that
  allocate a canvas and paste or draw into it in the source's order. The smooth band is a method
  that calls the mask builder and then takes the pure `Composite` of two crops.

Geometry is integer and exact. The mask's offset 0.8 is the rational 4/5. The ramp starts at row
`RampStart(h) = int(h * 0.8) = 4h / 5`. The darkening of ramp row `y`, with `d = y - 4h/5`, is
`int(d ** 1.5 / h * 255)`. The model computes it exactly, in real arithmetic, as
`ISqrt(255² · d³) / h`. If `h * 0.8` is not whole (h not a multiple of 5), the first loop row
lies above `h * 0.8`. The base of `** 1.5` is then negative, Python produces a complex number,
and `int()` raises. The model returns `Failure(ComplexFallOff(h, 4h/5))` in exactly that case,
and the smooth band and the concatenation pass the failure on.

## Model

| member | source | states |
|---|---|---|
| `OutPainter.RemoveTopOverlap` | src/infinite_mucha_esque_scroll/out_painter.py:116-119 | result is `img.width` wide and `img.height - k` tall, and row `y` is row `y + k` of `img` |
| `OutPainter.RemoveBottomOverlap` | src/infinite_mucha_esque_scroll/out_painter.py:121-131 | result is `img.height - k` tall and equals `img`'s first `img.height - k` rows |
| `OutPainter.RemoveTopBottomOverlap` | src/infinite_mucha_esque_scroll/out_painter.py:133-143 | result is `img.height - 2k` tall, and row `y` is row `y + k` of `img` |
| `OutPainter.PrevOverlapZone` | src/infinite_mucha_esque_scroll/out_painter.py:39-45 | the crop box `(0, h-k, w, h)` is a `w`×`k` image whose row `y` is the previous tile's row `h - k + y` |
| `OutPainter.NewOverlapZone` | src/infinite_mucha_esque_scroll/out_painter.py:181 | the crop box `(0, 0, prev.width, k)` of the new tile is `prev.width`×`k` and shows the new tile's top rows |
| `OutPainter.CropComposition` | src/infinite_mucha_esque_scroll/out_painter.py:116-143 | removing both overlaps equals removing the bottom one and then the top one, in either order |
| `OutPainter.OverlapZoneIdempotent` | src/infinite_mucha_esque_scroll/out_painter.py:175-181 | the top `k` rows of the bottom `k`-row strip are that strip |
| `Raster.Crop` | src/infinite_mucha_esque_scroll/out_painter.py:119 | a crop box gives an image of the box's size whose pixel `(y, x)` is the original's pixel `(y0 + y, x0 + x)` |
| `Raster.CropOfCrop` | src/infinite_mucha_esque_scroll/out_painter.py:116-143 | a crop of a crop is one crop of the original with the boxes composed |
| `Raster.Blank` | src/infinite_mucha_esque_scroll/out_painter.py:35-37 | `Image.new(mode, size, color)`: an image of the given size with every pixel the given colour (also the white mask at :149 and the black canvas at :206-212) |
| `Raster.Composite` | src/infinite_mucha_esque_scroll/out_painter.py:184-188 | output has the inputs' size; where the mask is 255 it is the first image's pixel, where it is 0 the second's |
| `Canvas.NewCanvas` | src/infinite_mucha_esque_scroll/out_painter.py:206-212 | allocates a fresh canvas holding the given image |
| `Canvas.Paste` | src/infinite_mucha_esque_scroll/out_painter.py:213-215 | after the paste the canvas is `Pasted(old canvas, src, x0, y0)`: `src`'s pixels in its rectangle, the old pixels elsewhere |
| `Canvas.DrawRow` | src/infinite_mucha_esque_scroll/out_painter.py:157 | `draw.line(((0, y), (width, y)), fill)`: row `y` is set to `fill` across the whole width, and every other row is unchanged |
| `OutPainter.GenerateGuideImage` | src/infinite_mucha_esque_scroll/out_painter.py:27-50 | the guide is `prev.width` wide and `k + height` tall; its top `k` rows are the previous tile's bottom `k` rows and the other `height` rows are white |
| `OutPainter.RampStart` | src/infinite_mucha_esque_scroll/out_painter.py:152 | the first drawn row `s = int(0.8 h)` satisfies `5s <= 4h < 5s + 5`, and `s < h` when `h > 0` |
| `OutPainter.ISqrt` | src/infinite_mucha_esque_scroll/out_painter.py:154 | the exact integer square root (`r² <= n < (r+1)²`) that evaluates `255 · d ** 1.5` without floating point |
| `OutPainter.FallOff` | src/infinite_mucha_esque_scroll/out_painter.py:154 | the darkening `drop = int(d ** 1.5 / h * 255)`, characterised by `(drop·h)² <= 255²·d³ < ((drop+1)·h)²`, i.e. `drop·h <= 255·d^1.5 < (drop+1)·h` |
| `OutPainter.FallOffClamp` | src/infinite_mucha_esque_scroll/out_painter.py:153-156 | the `min(..., 255)` clamp is reached exactly when `h² <= d³`, i.e. `d ** 1.5 >= h` |
| `OutPainter.MaskRow` | src/infinite_mucha_esque_scroll/out_painter.py:149-156 | the fill of row `y`: 255 above `int(0.8 h)`; on a ramp row `d` rows down, 0 exactly when `h² <= d³`, otherwise `255 - fill` is the integer part of `255·d^1.5/h` (stated squared); every value is a byte in [0,255] |
| `OutPainter.GenerateCompositeMask` | src/infinite_mucha_esque_scroll/out_painter.py:145-162 | fails with `ComplexFallOff` exactly when `h` is not a multiple of 5; otherwise a `width`×`h` mask whose every pixel of row `y` is `MaskRow(h, y)` (each row uniform, values in [0,255] by the clamp) |
| `OutPainter.FallOffMonotone` | src/infinite_mucha_esque_scroll/out_painter.py:153-156 | the darkening `int(d ** 1.5 / h * 255)` does not decrease as `d` grows |
| `OutPainter.MaskWhiteUntilRamp` | src/infinite_mucha_esque_scroll/out_painter.py:149-156 | every row above `int(0.8 h)` is 255, and so is the ramp's first row |
| `OutPainter.MaskNonIncreasing` | src/infinite_mucha_esque_scroll/out_painter.py:152-156 | for `y1 <= y2 < h` the fill of row `y2` is at most the fill of row `y1` |
| `OutPainter.SmoothOverlapEdges` | src/infinite_mucha_esque_scroll/out_painter.py:170-188 | where the mask is 255 the band equals the previous tile's bottom band, so its rows `0..int(0.8k)` do; where the mask is 0 it equals the new tile's top band |
| `OutPainter.GenerateSmoothOverlapImage` | src/infinite_mucha_esque_scroll/out_painter.py:164-193 | fails exactly when the mask fails; otherwise a `prev.width`×`k` band whose pixel is the blend of the previous tile's pixel `(h-k+y, x)` and the new tile's pixel `(y, x)` under `MaskRow(k, y)`; the rows down to the ramp start are the previous tile's |
| `OutPainter.PasteOrder` | src/infinite_mucha_esque_scroll/out_painter.py:205-215 | the three pastes in the source's order on the blank canvas give the previous tile without its bottom `k` rows, then the band, then the new tile without its top `k` rows |
| `OutPainter.SwappedPasteOrder` | src/infinite_mucha_esque_scroll/out_painter.py:213-215 | with the last two pastes swapped the band is lost: the result is the previous tile's top part above the whole new tile |
| `OutPainter.ConcatImagesSmoothly` | src/infinite_mucha_esque_scroll/out_painter.py:195-220 | fails exactly when the mask fails; otherwise returns the band and the joined image, which is `prev.width` wide and `prev.height + new.height - k` tall, with rows `[0, prev.height-k)` from `prev`, then the band, then `new`'s rows `[k, new.height)`; it equals `prev` down to the ramp start |
| `OutPainter.JoinedKeepsPrevUntilRamp` | src/infinite_mucha_esque_scroll/out_painter.py:201-215 | the joined image is pixel-for-pixel the previous tile on rows `y < prev.height` with `y <= prev.height - k + int(0.8k)` |
| `OutPainter.GeneratePrintImage` | src/infinite_mucha_esque_scroll/out_painter.py:222-233 | the print image is `new.height - k` tall; without a band it is the new tile minus its bottom `k` rows; with one it is the band above the new tile's rows `[k, new.height-k)` |
| `OutPainter.PrintImagesTileScroll` | src/infinite_mucha_esque_scroll/cli.py:82-91 | the previous print stacked above the new print equals the joined image without its bottom `k` rows, so prints tile the scroll |
| `OutPainter.Contains` | src/infinite_mucha_esque_scroll/out_painter.py:66 | Python's `controlnet_model in x` on strings, as a recursive prefix test; a name longer than the entry is never contained (the full characterisation is `ContainsIffOccurs`) |
| `OutPainter.ContainsIffOccurs` | src/infinite_mucha_esque_scroll/out_painter.py:66 | the recursive substring test behind `controlnet_model in x` holds exactly when the name occurs at some position |
| `OutPainter.FirstContaining` | src/infinite_mucha_esque_scroll/out_painter.py:66 | `next(...)` finds the first catalog index whose entry contains the name, or reports that no entry does |
| `OutPainter.SelectControlNetModel` | src/infinite_mucha_esque_scroll/out_painter.py:64-70 | succeeds with the first entry that contains the name and is non-empty; fails with `ControlNetModelNotFound` exactly when no entry contains the name or the first one that does is empty |

## Left out

- The backend client, its URL parsing and the `txt2img`/ControlNet calls are network calls into library code. Only the model-selection rule is modelled, and it runs only when a guide image is given.
- The desaturation and contrast post-processing is floating-point colour maths inside PIL.
- Debug dumps (`if self.debug: ... save(...)`) are file I/O. The CLI and the logger are also left out.
- Raster.Composite: the blend for intermediate mask values is the parameter `blend`. The model states only what `IsMaskBlend` requires, namely mask 255 gives the first image and 0 gives the second. PIL's rounding between those is not modelled.
- OutPainter.GenerateCompositeMask: the fall-off is the exact real value `floor(255 · d^1.5 / h)`. Python's floating-point result may differ from it by one where the real value is within rounding of an integer.
- The `offset` parameter of the mask builder is fixed at its default 0.8, the only value the source passes.
- Out-of-range geometry: PIL pads out-of-range crops, or raises for a crop box whose lower edge is above its upper edge, and clips oversized pastes. The model states preconditions instead: `k` at most each tile's height, equal tile widths for the concatenation, `2k <= height` for the top-and-bottom crop and for a print image with a band, and a band of size `width`×`k`.
- Image modes: tiles are modelled as RGB images and masks as one-channel images; other PIL modes are not modelled.
