# draw_twisted_text, modelled in Dafny

The script renders a text onto a square canvas. It crops a thin horizontal band
around the text line and stretches that band vertically into a "twisted" image.
The refiner keeps only the pixels of the text colour. It places the result on a
fixed 45 × 100 font-size canvas and crops to the bounding box of everything that
is not pure white, with a margin of two font sizes. The concatenator resizes
images to a common width and stacks them top to bottom.

The model follows the source function by function:

- `pictures.dfy` (module `Pictures`): RGB pixels, pictures as `array2<Rgb>`
  indexed `[x, y]`, crop boxes. It also holds the three imaging-library
  primitives whose effect the script depends on: a filled new canvas, paste
  (clipped to the destination) and crop (padded where the box leaves the
  picture).
- `extremes.dfy` (module `Extremes`): `min` and `max` of a non-empty list.
- `refine.dfy` (modules `Refine`, `RefineFacts`): the colour-key pass in place,
  the paste onto the intermediate canvas, the scan that records non-white
  pixels, the crop box and the crop. Then what these imply for the error case
  and for the size of the result.
- `concatenate.dfy` (module `Concatenate`): the width strategy, the resized
  heights, the canvas height, and the paste loop with its running y offset.
  Lemmas cover placement, clipping and strategy independence.
- `draw_text.dfy` (modules `DrawText`, `RenderThenRefine`): the renderer's
  size arithmetic, and the twisted image fed to the refiner.
- `wrappers.dfy` (module `Wrappers`): `Option` and `Result`.

Errors that the script raises at run time become explicit results:

- `NoForegroundPixels`: `min` of an empty coordinate list.
- `EmptyImageSet`: `max` of no widths.
- `ZeroWidthImage`: an input of width zero, which makes the rescaling divide by zero (see "## Left out" for which error the script meets first).

Behaviour of the script worth knowing:

- The concatenated canvas is as tall as the sum of the ORIGINAL heights plus 50
  (draw_twisted_text.py:107), not the sum of the resized heights plus 50.
  `Concatenate.MaxStrategyCanOverflow` shows the "MAX" strategy can then push the
  stack 40 rows past the bottom, where it is clipped.
  `Concatenate.MinStrategyFitsCanvas` shows any other strategy always fits.
- The refiner fails only when no pixel of the intermediate canvas is non-white.
  For a positive font size, when the text colour equals the background colour,
  it fails only if that colour is white.
  `RefineFacts.NonWhiteBackgroundAlwaysFindsForeground` shows a non-white
  background never fails for a positive font size.
  At font size 0 the canvas is 0 × 0, and `RefineFacts.ZeroFontSizeHasNoForeground`
  shows the refiner then fails for every colour.
- A strategy string other than "MAX" silently means "MIN". It is not rejected.
- The refiner changes its input image in place. The caller sees the keyed
  pixels afterwards.

## Model

| member | source | states |
|---|---|---|
| `Pictures.NewPicture` | draw_twisted_text.py:64 | a fresh canvas of the requested width and height, every pixel the fill colour |
| `Pictures.Paste` | draw_twisted_text.py:65 | a destination pixel covered by the pasted picture at the offset takes the source pixel; every other pixel is unchanged; nothing outside the destination is written |
| `Pictures.Crop` | draw_twisted_text.py:87 | a fresh picture of size (right − left) × (bottom − top); pixel (x, y) is source pixel (left + x, top + y), or the fill colour where that lies off the source |
| `Extremes.Min` | draw_twisted_text.py:76 | the result occurs in the list and is no larger than any element |
| `Extremes.Max` | draw_twisted_text.py:77 | the result occurs in the list and is no smaller than any element |
| `Refine.KeyPixel` | draw_twisted_text.py:58-61 | a keyed pixel is either the text colour or the background colour; a text-coloured pixel is left as it is, and any other pixel becomes the background colour |
| `Refine.KeyPixelIdempotent` | draw_twisted_text.py:56-61 | keying twice gives the same pixel as keying once, so a second pass changes nothing |
| `Refine.ColorKey` | draw_twisted_text.py:56-61 | in place, with the dimensions unchanged: every pixel becomes its keyed value, so only the text and background colours remain |
| `Refine.IntermediateCanvas` | draw_twisted_text.py:64-65 | a fresh canvas of 45 × font size by 100 × font size whose every pixel is the image pixel pasted at (18 × font size, 0) where the image covers it, and the background colour elsewhere |
| `Refine.ScanColumn` | draw_twisted_text.py:70-74 | one column of the scan keeps what was recorded before, appends exactly the rows of that column whose pixel is not white, top to bottom, each paired with the column's x |
| `Refine.ScanStep` | draw_twisted_text.py:69-74 | after one more column the record is still only non-white pixels, holds every non-white pixel left of the next column, and is still in scan order |
| `Refine.ScanNonWhite` | draw_twisted_text.py:68-74 | the recorded (x, y) pairs are exactly the positions whose pixel is not (255, 255, 255), each once, in column-then-row scan order |
| `Refine.CropBox` | draw_twisted_text.py:76-84 | fails exactly when nothing was recorded; otherwise left ≤ right, top ≤ bottom, every recorded x and y lies inside the box shrunk by 2 × font size, and each of the four shrunk edges is a recorded value |
| `Refine.FindCropBox` | draw_twisted_text.py:67-84 | fails exactly when the canvas has no non-white pixel; otherwise returns the tight bounding box of the non-white pixels widened by 2 × font size |
| `Refine.RecordedAreNonWhite` | draw_twisted_text.py:68-79 | since every recorded position is non-white, a non-empty record means foreground exists, and each side of the crop box touches a non-white pixel |
| `Refine.NonWhiteAreRecorded` | draw_twisted_text.py:68-79 | since every non-white position is recorded, an empty record means no foreground, and the crop box encloses every non-white pixel |
| `Refine.CanvasIsForeground` | draw_twisted_text.py:64-72 | the intermediate canvas, 45 × font size by 100 × font size with the image at (18 × font size, 0), has the foreground and bounding boxes that `CanvasPixel` describes |
| `Refine.CropOfCanvasIsCrop` | draw_twisted_text.py:87 | cropping the intermediate canvas with black padding gives, at each pixel, the canvas pixel at the box offset, or black off the canvas |
| `Refine.RefineDrewTextImage` | draw_twisted_text.py:41-88 | the input is keyed in place; the result fails exactly when no canvas pixel is non-white; otherwise its box is the tight bounding box widened by 2 × font size, and the picture is that box cut from the canvas (black off the canvas) |
| `RefineFacts.NonWhiteBackgroundAlwaysFindsForeground` | draw_twisted_text.py:64-79 | with a positive font size and a background that is not white, foreground always exists, so the refiner never fails, even when the text colour equals the background |
| `RefineFacts.ZeroFontSizeHasNoForeground` | draw_twisted_text.py:64-79 | at font size 0 the canvas has no pixel, so there is no foreground and the refiner fails whatever the colours |
| `RefineFacts.WhiteBackgroundForegroundIsText` | draw_twisted_text.py:56-79 | with a white background, foreground exists if and only if the text colour is not white and some text-coloured image pixel lands on the canvas |
| `RefineFacts.RefinedSmallerThanCanvas` | draw_twisted_text.py:64-87 | with a white background and an image at most 96 font sizes tall, the crop box is strictly narrower and shorter than the intermediate canvas |
| `Concatenate.TargetWidth` | draw_twisted_text.py:105-108 | the common width is one of the input widths; it is the largest when the strategy is "MAX" and the smallest for any other string |
| `Concatenate.ScaledHeight` | draw_twisted_text.py:110 | the resized height h is the floor of W·h₀/w₀: h·w₀ ≤ W·h₀ < (h + 1)·w₀ |
| `Concatenate.ResizedSizes` | draw_twisted_text.py:110 | one size per input, each of the target width and of the floor-scaled height h·w₀ ≤ W·h₀ < (h + 1)·w₀ |
| `Concatenate.PlanConcatenation` | draw_twisted_text.py:101-113 | no images fails as an empty set; a zero width fails as division by zero; otherwise the canvas is the target width by the sum of the original heights plus 50, and each image is resized to the target width and its floor-scaled height |
| `Concatenate.StackImages` | draw_twisted_text.py:113-118 | a fresh background-filled canvas of the given size, on which the parts are pasted in order at x = 0 and at the running y offset |
| `Concatenate.ConcatenateImages` | draw_twisted_text.py:91-120 | fails exactly as the plan does; otherwise returns a fresh canvas of the planned size holding the resized images stacked in order |
| `Concatenate.StackedPixelAt` | draw_twisted_text.py:115-118 | pixel (x, y) of part k lands at (x, y + the sum of the heights of parts 0..k−1), and no later part covers it |
| `Concatenate.PixelKept` | draw_twisted_text.py:115-118 | on a canvas at least as wide as every part and as tall as all parts together, pixel (x, y) of part k is in bounds and visible at (x, y + the heights of the parts before it) |
| `Concatenate.ScaledNotTaller` | draw_twisted_text.py:110 | resizing to a width no larger than the original never makes an image taller |
| `Concatenate.ScaledToOwnWidth` | draw_twisted_text.py:110 | resizing an image to its own width keeps its height |
| `Concatenate.ResizedToOwnWidth` | draw_twisted_text.py:110 | resizing inputs that all have width W to width W leaves every size unchanged |
| `Concatenate.MinStrategyFitsCanvas` | draw_twisted_text.py:107-110 | under any strategy other than "MAX", the resized heights plus 50 fit within the canvas height |
| `Concatenate.MinStrategyKeepsEveryPixel` | draw_twisted_text.py:107-118 | under any strategy other than "MAX", every pixel of every resized image appears in the output at its stacked position |
| `Concatenate.MaxStrategyCanOverflow` | draw_twisted_text.py:107-118 | under "MAX", images of 100×10 and 10×10 become 100×10 and 100×100 on a 70-row canvas, so the stack overruns the canvas by 40 rows |
| `Concatenate.EqualWidthsKeepSizes` | draw_twisted_text.py:105-110 | when all inputs have one width, the plan keeps that width and every size |
| `Concatenate.EqualWidthsStrategyIrrelevant` | draw_twisted_text.py:105-110 | when all inputs have one width, every strategy string gives the same plan and no image is resized |
| `DrawText.RenderGeometry` | draw_twisted_text.py:28-35 | the canvas is square with side len(text) × font size; the location defaults to (0, 2 × font size); the band spans the canvas width between ⌊1.8 × font size⌋ and ⌊3.2 × font size⌋; the twisted size is the band width by 50 × font size |
| `DrawText.BandHoldsDefaultLine` | draw_twisted_text.py:31-34 | the default drawing line lies within the cropped band, and the band is at least one row for any positive font size |
| `DrawText.BandInsideCanvas` | draw_twisted_text.py:28-34 | for a text of four or more characters the band lies within the canvas |
| `DrawText.OneLetterAtSizeTen` | draw_twisted_text.py:28-35 | "A" at font size 10 gives a 10×10 canvas, a 10×14 band and a 10×500 twisted image |
| `RenderThenRefine.TwistedRefinesSmaller` | draw_twisted_text.py:35-87 | refining a twisted image over a white background yields a box strictly smaller than the 45 × 100 font-size canvas |

## Left out

- Default arguments are not modelled: font size 50, text colour (0, 0, 0), background white and strategy "MAX" (draw_twisted_text.py:12-14, 41-43, 91-92). Every member takes these as explicit parameters.
- Font loading and glyph drawing (`ImageFont.truetype`, `ImageDraw.text`) are library calls. The model does not give the pixels of a rendered text; only the renderer's geometry is modelled.
- Resampling in `Image.resize` is left out. `Concatenate.ConcatenateImages` takes the resized pictures as a parameter, required to have the planned sizes. The twisted image of the renderer is modelled by its size only.
- Named colours such as "white" are left out. Colours are RGB triples, and the refiner's four-component comparison is plain RGB equality.
- `show()`, `save()`, the timestamped file name, the progress printing and the demo driver are I/O and are left out.
- `DrawText.RenderGeometry`: the float expressions `int(1.8 * font_size)` and `int(3.2 * font_size)` are modelled as the exact floors `18 * font_size / 10` and `32 * font_size / 10`. Float rounding of 1.8 and 3.2 is not modelled.
- `Concatenate.ScaledHeight`: the float division `floor(W * h / w)` is modelled as exact integer floor division. The two agree while the products stay within a float's 53-bit mantissa.
- The font size is a natural number. The library's rejection of negative canvas sizes is not modelled.
- The library's own checks on zero-sized pictures are not modelled, for example resizing to a zero height. Such a request succeeds in the model. Under any strategy other than "MAX", an input of width zero makes the common width zero. The script then first fails when the library refuses to resize an earlier image to width zero, unless the zero-width image comes first. The model reports `ZeroWidthImage` in both cases: both fail, only the kind of error differs.
- `Pictures.Crop` takes the fill for off-picture areas as a parameter. The refiner passes black, the zero pixel the library uses.
- `Pictures.Crop` requires left ≤ right and top ≤ bottom, which the library otherwise rejects. The refiner's box always satisfies it.
- `Pictures.Paste` requires the destination to be a different picture from the source. The script never pastes a picture onto itself.
