# PhotoEditor `Image` in Dafny

This project models the `Image` class of the PhotoEditor desktop application (image.cpp). An `Image` is the pixmap shown in an editor window together with `unModifiedImage`, the baseline snapshot. Every transform works the same way:

- it copies the baseline;
- it rewrites the copy in nested loops over `(x, y)`, with `x` below the width;
- it installs the copy as the shown image.

`commit` moves the shown image into the baseline. `revert` shows the baseline again.

The model has three modules:

- `Rgb` (rgb.dfy): pixels and the per-pixel arithmetic.
  - A pixel is three 8-bit channels.
  - `qRgb`'s `& 0xff` mask is `Byte`.
  - Also here: the rounded grayscale terms, the 30/59/11 luminance, the brightness and threshold table entries, the sharpen kernel, the emboss difference and the contrast stretch.
- `Raster` (raster.dfy): whole-image specifications as grids of columns (`g[x][y]` is `pixel(x, y)`), and lemmas about them.
- `ImageEditor` (image.dfy): the imperative model.
  - Class `Image` has the `array2<Pixel>` fields `current` and `baseline`.
  - Each transform is a method that keeps the source's loops.
    - Grayscale, brightness, threshold and contrast run the loop over `x` in the `Image` method and the loop over `y` in a column method; the lookup tables are filled by loops.
    - Sharpen, soften and emboss delegate their loops to `SharpenInto`, `SoftenInto` and `EmbossInPlace`, which loop over `x` and call a column method for `y`.
    - Negative has no loop: `InvertPixels` stands for the library call `invertPixels`.
  - Each transform is proved to leave `baseline` alone and to set `current` to the `Raster` specification of the baseline. If the baseline is null, `current` is left as it was.

Double-precision arithmetic is modelled as exact rational arithmetic:

- `c * 0.3 + 0.5` truncated becomes `(30 * c + 50) / 100`.
- The luminance `(int)(r * 0.3 + g * 0.59 + b * 0.11)` becomes `(30r + 59g + 11b) / 100`.
- The contrast expression `(c - lower) * 256.0 / (upper - lower) + 0.5`, truncated toward zero, becomes `TruncDiv(512 (c - lower) + d, 2d)` with `d = upper - lower`.

## Model

| member | source | states |
|---|---|---|
| Rgb.Byte | image.cpp:61 | the `& 0xff` that `qRgb` applies to each component: the value modulo 256 |
| Rgb.QRgb | image.cpp:61 | `qRgb(r, g, b)`: a pixel of the three components, each masked by `Byte` |
| Rgb.RoundedTerm | image.cpp:57-59 | one grayscale term `(int)(c * w + 0.5)` for a weight of `percent` hundredths: `(percent * c + 50) / 100` |
| Rgb.GrayLevel | image.cpp:57-60 | the sum of the rounded 30 % red, 59 % green and 11 % blue terms |
| Rgb.GrayscalePixel | image.cpp:57-61 | `qRgb(gray, gray, gray)` at the gray level of the pixel |
| Rgb.Luma | image.cpp:274 | `(int)(r * 0.3 + g * 0.59 + b * 0.11)` taken exactly: `(30 r + 59 g + 11 b) / 100` |
| Rgb.PixelLuma | image.cpp:401-403 | the luminance of a pixel's three channels, the index into the threshold table |
| Rgb.InvertPixel | image.cpp:188 | `invertPixels` in its default RGB mode: each channel c becomes 255 - c |
| Rgb.BrightnessEntry | image.cpp:343-348 | table entry i: 255 when i + level > 255, 0 when i + level < 0, else i + level |
| Rgb.BrightenPixel | image.cpp:355-359 | `qRgb` of the table entries at the three channels |
| Rgb.ThresholdEntry | image.cpp:389-393 | table entry i: 255 when threshold <= i, else the initial 0 |
| Rgb.ThresholdPixel | image.cpp:400-404 | the gray of the table entry at the pixel's luminance |
| Rgb.SharpenChannel | image.cpp:93-121 | 5 x centre minus the four edge neighbours, clamped to [0, 255] |
| Rgb.EmbossPixel | image.cpp:268-275 | the gray at the luminance of the absolute channel differences to the lower-right pixel |
| Rgb.TruncDiv | image.cpp:443-445 | division truncated toward zero, the double-to-int conversion of the contrast quotient |
| Rgb.ContrastChannel | image.cpp:443-450 | trunc((c - lower) * 256 / (upper - lower) + 0.5), then 0 below lower and 255 above upper |
| Rgb.ContrastPixel | image.cpp:440-452 | `qRgb` of the three contrasted channels |
| Raster.Grayscale | image.cpp:51-63 | the grid with every pixel replaced by its grayscale pixel |
| Raster.Negative | image.cpp:188 | the grid with every pixel inverted |
| Raster.Brighten | image.cpp:352-360 | the grid with every pixel sent through the brightness table |
| Raster.BinaryThreshold | image.cpp:397-405 | the grid with every pixel replaced by its thresholded gray |
| Raster.Contrast | image.cpp:436-453 | the grid with every pixel contrasted |
| Raster.SharpenAt | image.cpp:93-123 | the sharpened pixel at an interior position, read from the unedited grid |
| Raster.Sharpen | image.cpp:90-124 | interior pixels sharpened, border pixels as in the input |
| Raster.WindowSum | image.cpp:154-164 | the per-channel sums over the 3x3 window around an interior position |
| Raster.SoftenAt | image.cpp:165 | `qRgb` of the window sums divided by 9 |
| Raster.Soften | image.cpp:150-167 | interior pixels softened, border pixels as in the input |
| Raster.EmbossAt | image.cpp:268-275 | the embossed pixel at (x, y), from (x, y) and (x + 1, y + 1) of the unedited grid |
| Raster.Emboss | image.cpp:264-277 | every pixel outside the last column and last row embossed, the rest as in the input |
| Rgb.GrayLevelRange | image.cpp:57-60 | the three separately rounded terms add up to a level in [0, 255] (at most 77 + 150 + 28) |
| Rgb.GrayLevelOfGray | image.cpp:57-60 | a gray input keeps its level within one step; black and white are kept exactly |
| Rgb.GrayscalePixelIsGray | image.cpp:57-62 | the written pixel has R = G = B, equal to the unmasked gray level |
| Rgb.LumaRange | image.cpp:401-403 | the truncated luminance of three channels is in [0, 255], so the table lookup is in bounds |
| Rgb.BrightnessEntryFacts | image.cpp:341-349 | every table entry is in [0, 255]; level 0 gives the identity; the table is nondecreasing; a level of -255 or less gives 0 and 255 or more gives 255 |
| Rgb.ThresholdPixelIsBlackOrWhite | image.cpp:389-404 | the pixel becomes white if and only if its luminance reaches the threshold, and black if and only if it is below it |
| Rgb.EmbossPixelIsGray | image.cpp:268-275 | the embossed pixel is a gray whose level is the luminance of the absolute channel differences, unmasked |
| Rgb.ContrastChannelNonNegative | image.cpp:443-450 | a contrasted component is never negative, whatever the bounds |
| Rgb.ContrastChannelMonotone | image.cpp:443-450 | with 0 <= lower < upper <= 255, a larger input component never gives a smaller output |
| Rgb.ContrastPixelInRange | image.cpp:443-452 | with 0 <= lower < upper <= 255, every component is the stretched value itself, with no wrap-around from qRgb |
| Rgb.ContrastWrapsOutsideRange | image.cpp:443-452 | with bounds outside [0, 255] a component can reach 256, which qRgb wraps to 0, so white becomes black |
| Raster.GrayscaleIsGray | image.cpp:51-62 | every pixel of the grayscaled image is a gray at the rounded weighted level of the input pixel |
| Raster.NegativeInvolution | image.cpp:188 | inverting twice gives back the image |
| Raster.BrightenChannels | image.cpp:341-359 | each output channel is the input channel plus the level, clamped to [0, 255] |
| Raster.BrightenZeroIsIdentity | image.cpp:341-359 | brightness 0 leaves the image unchanged |
| Raster.BrightenSaturates | image.cpp:341-359 | a level of -255 or less makes every pixel black; 255 or more makes every pixel white |
| Raster.BinaryThresholdIsBlackOrWhite | image.cpp:389-404 | every output pixel is white when its luminance reaches the threshold and black otherwise |
| Raster.BinaryThresholdAboveRangeIsBlack | image.cpp:384-393 | a threshold above 255 is only logged and turns the whole image black |
| Raster.ColumnPart | image.cpp:157-163 | the inner loop's running sums, in its order, over the n + 1 samples of a window column at offsets -1 to n - 1; a loop-accumulator bound keeps them in [0, 255 (n + 1)] |
| Raster.WindowPart | image.cpp:155-164 | the outer loop's running sums, in its order, over the m + 1 window columns at offsets -1 to m - 1; a loop-accumulator bound keeps them in [0, 765 (m + 1)] |
| Raster.WindowPartIsWindowSum | image.cpp:154-164 | adding the window in the order of the m/n loops gives the 3x3 window sum |
| Raster.SharpenPixel | image.cpp:90-123 | border pixels are kept; each channel of an interior pixel is 5 x centre minus its four edge neighbours, clamped |
| Raster.SharpenKeepsFlatPixel | image.cpp:93-123 | an interior pixel whose four edge neighbours share its colour is kept |
| Raster.SoftenPixel | image.cpp:150-166 | border pixels are kept; each channel of an interior pixel is the truncated mean (sum / 9) of its 3x3 window |
| Raster.SoftenKeepsFlatPixel | image.cpp:150-166 | an interior pixel whose whole window has its colour is kept |
| Raster.EmbossPixelAt | image.cpp:264-276 | the last column and last row are kept; every other pixel is a gray built from the differences to its lower-right neighbour in the unedited image |
| Raster.EmbossFlatIsBlack | image.cpp:268-275 | a pixel equal to its lower-right neighbour becomes black |
| Raster.ContrastChannels | image.cpp:436-452 | with 0 <= lower < upper <= 255, each output channel is the stretched and clamped input channel |
| ImageEditor.CopyOf | image.cpp:40 | the copy is a new buffer of the same size holding the same pixels |
| ImageEditor.InvertPixels | image.cpp:188 | the buffer becomes the negative of its old contents |
| ImageEditor.BrightnessTable | image.cpp:341-349 | entry i of the 256-entry table is i + level clamped to [0, 255] |
| ImageEditor.ThresholdTable | image.cpp:389-393 | entry i of the 256-entry table is 255 when i >= threshold and 0 otherwise |
| ImageEditor.WindowTotals | image.cpp:154-164 | the three running sums are the 3x3 window sums of the unedited copy around (x, y) |
| ImageEditor.GrayscaleColumn | image.cpp:52-63 | every pixel of column x becomes its grayscale; the other columns are untouched |
| ImageEditor.BrightenColumn | image.cpp:353-360 | every pixel of column x goes through the brightness table; the other columns are untouched |
| ImageEditor.ThresholdColumn | image.cpp:398-405 | every pixel of column x becomes the table entry at its luminance; the other columns are untouched |
| ImageEditor.ContrastColumn | image.cpp:437-453 | every pixel of column x is contrasted; the other columns are untouched |
| ImageEditor.SharpenColumn | image.cpp:91-124 | the interior pixels of column x get the kernel over the unedited copy; every other pixel is untouched |
| ImageEditor.SharpenInto | image.cpp:90-124 | the working copy becomes the sharpened image of the unedited copy |
| ImageEditor.SoftenColumn | image.cpp:152-166 | the interior pixels of column x get the window mean over the unedited copy; every other pixel is untouched |
| ImageEditor.SoftenInto | image.cpp:150-167 | the working copy becomes the softened image of the unedited copy |
| ImageEditor.EmbossColumn | image.cpp:266-276 | although it writes the buffer it reads, column x gets the emboss of the unedited pixels, except in the last row; every other pixel is untouched |
| ImageEditor.EmbossInPlace | image.cpp:264-277 | the in-place rewrite of the buffer equals the emboss of its old contents |
| ImageEditor.Image.Load | image.cpp:28-29 | the decoded pixels are shown and held as a separate baseline buffer |
| ImageEditor.Image.Commit | image.cpp:495-499 | the shown image is unchanged and the baseline becomes equal to it |
| ImageEditor.Image.Revert | image.cpp:505-508 | the baseline is unchanged and the shown image becomes equal to it |
| ImageEditor.Image.Grayscale | image.cpp:38-67 | the baseline is untouched; a null baseline leaves the shown image as it was; otherwise the shown image is the grayscale of the baseline |
| ImageEditor.Image.Sharpen | image.cpp:73-128 | the baseline is untouched; a null baseline changes nothing; otherwise the shown image is the sharpened baseline |
| ImageEditor.Image.Soften | image.cpp:136-171 | the baseline is untouched; a null baseline changes nothing; otherwise the shown image is the softened baseline |
| ImageEditor.Image.Negative | image.cpp:177-192 | the baseline is untouched; a null baseline changes nothing; otherwise the shown image is the negative of the baseline |
| ImageEditor.Image.Despeckle | image.cpp:197-200 | the object is unchanged (the source only logs) |
| ImageEditor.Image.Posterize | image.cpp:205-208 | the object is unchanged (the source only logs) |
| ImageEditor.Image.Emboss | image.cpp:249-281 | the baseline is untouched; a null baseline changes nothing; otherwise the shown image is the embossed baseline |
| ImageEditor.Image.Brightness | image.cpp:327-364 | the baseline is untouched; a null baseline changes nothing; otherwise the shown image is the baseline brightened by the level |
| ImageEditor.Image.BinaryThreshold | image.cpp:373-409 | the baseline is untouched; a null baseline changes nothing; otherwise the shown image is the baseline thresholded at the threshold |
| ImageEditor.Image.Contrast | image.cpp:420-457 | the baseline is untouched; a null baseline or lower >= upper changes nothing; otherwise the shown image is the contrasted baseline |
| ImageEditor.Image.Balance | image.cpp:463-466 | the object is unchanged (the source only logs) |
| ImageEditor.PreviewThenCancel | image.cpp:505-508 | previewing a chain of all eight transforms and then reverting shows the original baseline again |
| ImageEditor.CommitThenRevert | image.cpp:495-508 | commit followed by revert leaves the shown image unchanged |
| ImageEditor.NegativeTwiceWithoutCommit | image.cpp:177-192 | since transforms read the baseline, negative applied twice still shows the negative |
| ImageEditor.NegativeCommitNegative | image.cpp:495-499 | negative, commit, negative shows the original image again |

## Left out

- `Image::gamma`: out of the model because it computes `pow` on doubles.
- `Image::edge`: out of the model because it uses `sqrt` and Qt's `qGray`.
- `Image::imgResize`: out of the model because it wraps `QImage::scaled`, which is not part of this model.
  - After a resize the shown image and the baseline differ in size.
  - So no transform requires `Image.Valid()` (equal sizes). Each only promises that `Valid()` holds afterwards if it held before.
- The file loading in `Image::load` (the pixmap cache, decoding, the returned flag) is I/O. The constructor takes the decoded pixels as a grid.
- The delete guarded by the inverted null check in `load`, and the `QImage` copies that are never freed, have no effect on pixels.
- Pixels have no alpha channel. QImage formats and the conversion done by `convertFromImage` are not modelled.
- The `qDebug` logging on null images, on bad parameters and in the stubs is not modelled. A null image is a grid of width 0 or height 0.
- Undo/redo is not part of this model: mdichild.h:111-114 and mdichild.h:165-166 only declare `undo`, `redo` and their two deques, and no implementation of them exists in the source.
- The editor windows, the dialogs and the menus are UI and are not part of this model.
- Rgb.Luma: the model takes the exact rational value. In double arithmetic, a sum that is exactly an integer can come out just below it and truncate one lower. For example, the pixel (0, 55, 5) gives 32 in the source and 33 here. This can move an `ImageEditor.Image.BinaryThreshold` pixel across the threshold and change an `ImageEditor.Image.Emboss` level by one.
- Rgb.RoundedTerm and Rgb.ContrastChannel use the exact rational form of the double expression. Integer overflow of the source's `int` arithmetic is not modelled, for example `i + brightnessLevel` in `Rgb.BrightnessEntry` when the level is near the `int` limit.
- ImageEditor.Image.BinaryThreshold: requires threshold >= 0. The source only logs a negative threshold and then writes before the start of its table, which has no defined result.
- ImageEditor.Image.Despeckle, ImageEditor.Image.Posterize, ImageEditor.Image.Balance: stubs in the source, modelled as doing nothing.

Behaviour of the code a reader may not expect:

- An out-of-range threshold is only logged (image.cpp:384-387), not rejected. A threshold above 255 gives an all-black image.
- The comment at image.cpp:447 says the contrast clamp handles values below 0 or above 255. The code at image.cpp:448-450 compares the stretched value with `lower` and `upper` instead.
- The grayscale of pure red is 77: `255 * 0.3 + 0.5` is exactly 77.0 in double arithmetic, and so is the model's rational form.
