/**
 * Whole-image specifications of the Image transforms.
 *
 * An image is a grid of columns: g[x][y] is the pixel that QImage::pixel(x, y)
 * returns, with x below the width and y below the height.  Every transform
 * reads its input grid only; the neighbourhood transforms (sharpen, soften,
 * emboss) read neighbours of the input and leave their border pixels as they were.
 */
module Raster {
  import opened Rgb

  type Grid = seq<seq<Pixel>>

  function Width(g: Grid): nat
  {
    |g|
  }

  function Height(g: Grid): nat
  {
    if |g| == 0 then 0 else |g[0]|
  }

  /** Every column has the same height. */
  predicate IsGrid(g: Grid)
  {
    forall x :: 0 <= x < |g| ==> |g[x]| == Height(g)
  }

  /** QImage::isNull: an image without pixels. */
  predicate IsNull(g: Grid)
  {
    Width(g) == 0 || Height(g) == 0
  }

  predicate SameShape(a: Grid, b: Grid)
  {
    |a| == |b| && forall x :: 0 <= x < |a| ==> |a[x]| == |b[x]|
  }

  predicate InGrid(g: Grid, x: int, y: int)
  {
    0 <= x < |g| && 0 <= y < |g[x]|
  }

  /** Two grids of one shape that agree at every position are the same grid. */
  lemma GridExtensionality(a: Grid, b: Grid)
    requires SameShape(a, b)
    requires forall x, y :: InGrid(a, x, y) ==> a[x][y] == b[x][y]
    ensures a == b
  {
    forall x | 0 <= x < |a|
      ensures a[x] == b[x]
    {
      assert forall y :: 0 <= y < |a[x]| ==> InGrid(a, x, y);
    }
  }

  /** A point transform: `f` applied to every pixel, as the nested loops over (r, c) do. */
  function MapPixels(g: Grid, f: Pixel -> Pixel): (r: Grid)
    ensures SameShape(r, g)
    ensures forall x, y :: InGrid(g, x, y) ==> r[x][y] == f(g[x][y])
  {
    seq(|g|, x requires 0 <= x < |g| => seq(|g[x]|, y requires 0 <= y < |g[x]| => f(g[x][y])))
  }

  // ---------------------------------------------------------------- point transforms

  function Grayscale(g: Grid): (r: Grid)
    ensures SameShape(r, g)
  {
    MapPixels(g, GrayscalePixel)
  }

  function Negative(g: Grid): (r: Grid)
    ensures SameShape(r, g)
  {
    MapPixels(g, InvertPixel)
  }

  function Brighten(g: Grid, level: int): (r: Grid)
    ensures SameShape(r, g)
  {
    MapPixels(g, p => BrightenPixel(p, level))
  }

  function BinaryThreshold(g: Grid, threshold: int): (r: Grid)
    ensures SameShape(r, g)
  {
    MapPixels(g, p => ThresholdPixel(p, threshold))
  }

  function Contrast(g: Grid, lower: int, upper: int): (r: Grid)
    requires lower < upper
    ensures SameShape(r, g)
  {
    MapPixels(g, p => ContrastPixel(p, lower, upper))
  }

  /** Every grayscaled pixel is a gray, and its level is the rounded weighted sum of the input pixel. */
  lemma GrayscaleIsGray(g: Grid)
    ensures forall x, y :: InGrid(g, x, y) ==>
      IsGray(Grayscale(g)[x][y]) && Grayscale(g)[x][y].red == GrayLevel(g[x][y])
  {
    forall x, y | InGrid(g, x, y)
      ensures IsGray(Grayscale(g)[x][y]) && Grayscale(g)[x][y].red == GrayLevel(g[x][y])
    {
      GrayscalePixelIsGray(g[x][y]);
    }
  }

  /** Negating twice gives back the image. */
  lemma NegativeInvolution(g: Grid)
    ensures Negative(Negative(g)) == g
  {
    GridExtensionality(Negative(Negative(g)), g);
  }

  /** Each brightened channel is the input channel plus the level, clamped to [0, 255]. */
  lemma BrightenChannels(g: Grid, level: int)
    ensures forall x, y :: InGrid(g, x, y) ==>
      var p, q := g[x][y], Brighten(g, level)[x][y];
      q.red == Clamp(p.red + level) && q.green == Clamp(p.green + level) && q.blue == Clamp(p.blue + level)
  {
    forall x, y | InGrid(g, x, y)
      ensures var p, q := g[x][y], Brighten(g, level)[x][y];
        q.red == Clamp(p.red + level) && q.green == Clamp(p.green + level) && q.blue == Clamp(p.blue + level)
    {
      var p := g[x][y];
      BrightnessEntryFacts(p.red, p.red, level);
      BrightnessEntryFacts(p.green, p.green, level);
      BrightnessEntryFacts(p.blue, p.blue, level);
      ByteKeepsChannel(BrightnessEntry(p.red, level));
      ByteKeepsChannel(BrightnessEntry(p.green, level));
      ByteKeepsChannel(BrightnessEntry(p.blue, level));
    }
  }

  /** Level 0 leaves every pixel unchanged. */
  lemma BrightenZeroIsIdentity(g: Grid)
    ensures Brighten(g, 0) == g
  {
    BrightenChannels(g, 0);
    GridExtensionality(Brighten(g, 0), g);
  }

  /** A level of -255 or below makes every pixel black; 255 or above makes every pixel white. */
  lemma BrightenSaturates(g: Grid, level: int)
    ensures level <= -255 ==> forall x, y :: InGrid(g, x, y) ==> Brighten(g, level)[x][y] == Black
    ensures level >= 255 ==> forall x, y :: InGrid(g, x, y) ==> Brighten(g, level)[x][y] == White
  {
    BrightenChannels(g, level);
  }

  /** Every output pixel is pure white when its luminance reaches the threshold and pure black otherwise. */
  lemma BinaryThresholdIsBlackOrWhite(g: Grid, threshold: int)
    ensures forall x, y :: InGrid(g, x, y) ==>
      BinaryThreshold(g, threshold)[x][y] == (if PixelLuma(g[x][y]) >= threshold then White else Black)
  {
    forall x, y | InGrid(g, x, y)
      ensures BinaryThreshold(g, threshold)[x][y] == (if PixelLuma(g[x][y]) >= threshold then White else Black)
    {
      ThresholdPixelIsBlackOrWhite(g[x][y], threshold);
    }
  }

  /** A threshold above 255 (only logged by the source) turns the whole image black. */
  lemma BinaryThresholdAboveRangeIsBlack(g: Grid, threshold: int)
    requires threshold > 255
    ensures forall x, y :: InGrid(g, x, y) ==> BinaryThreshold(g, threshold)[x][y] == Black
  {
    BinaryThresholdIsBlackOrWhite(g, threshold);
    forall x, y | InGrid(g, x, y)
      ensures PixelLuma(g[x][y]) < threshold
    {
      LumaRange(g[x][y].red, g[x][y].green, g[x][y].blue);
    }
  }

  // ---------------------------------------------------------------- neighbourhood transforms

  /** The pixels sharpen and soften rewrite: 1 <= x <= width - 2 and 1 <= y <= height - 2. */
  predicate Interior(g: Grid, x: int, y: int)
  {
    1 <= x < Width(g) - 1 && 1 <= y < Height(g) - 1
  }

  /** The sharpened interior pixel: 5 * centre minus the neighbours above, left, right and below, per channel. */
  function SharpenAt(g: Grid, x: int, y: int): Pixel
    requires IsGrid(g) && Interior(g, x, y)
  {
    var p, above, left, right, below := g[x][y], g[x][y - 1], g[x - 1][y], g[x + 1][y], g[x][y + 1];
    QRgb(SharpenChannel(p.red, above.red, left.red, right.red, below.red),
         SharpenChannel(p.green, above.green, left.green, right.green, below.green),
         SharpenChannel(p.blue, above.blue, left.blue, right.blue, below.blue))
  }

  function Sharpen(g: Grid): (r: Grid)
    requires IsGrid(g)
    ensures SameShape(r, g)
  {
    seq(|g|, x requires 0 <= x < |g| =>
      seq(|g[x]|, y requires 0 <= y < |g[x]| =>
        if Interior(g, x, y) then SharpenAt(g, x, y) else g[x][y]))
  }

  /** The three running sums the soften loops keep, one per colour component. */
  datatype Totals = Totals(red: int, green: int, blue: int)

  predicate Bounded(s: Totals, bound: int)
  {
    0 <= s.red <= bound && 0 <= s.green <= bound && 0 <= s.blue <= bound
  }

  function AddPixel(s: Totals, p: Pixel): Totals
  {
    Totals(s.red + p.red, s.green + p.green, s.blue + p.blue)
  }

  function AddTotals(s: Totals, t: Totals): Totals
  {
    Totals(s.red + t.red, s.green + t.green, s.blue + t.blue)
  }

  /** The sums over window column x + m for the offsets -1 <= k < n, in the order the inner loop adds them. */
  function ColumnPart(g: Grid, x: int, y: int, m: int, n: int): (s: Totals)
    requires IsGrid(g) && Interior(g, x, y) && -1 <= m <= 1 && -1 <= n <= 2
    ensures Bounded(s, 255 * (n + 1))
    decreases n
  {
    if n == -1 then Totals(0, 0, 0) else AddPixel(ColumnPart(g, x, y, m, n - 1), g[x + m][y + n - 1])
  }

  /** The sums over the window columns -1 <= k < m, in the order the outer loop visits them. */
  function WindowPart(g: Grid, x: int, y: int, m: int): (s: Totals)
    requires IsGrid(g) && Interior(g, x, y) && -1 <= m <= 2
    ensures Bounded(s, 765 * (m + 1))
    decreases m
  {
    if m == -1 then Totals(0, 0, 0) else AddTotals(WindowPart(g, x, y, m - 1), ColumnPart(g, x, y, m - 1, 2))
  }

  /** The sums over the 3x3 window centred on (x, y); each lies in [0, 9 * 255]. */
  function ColumnSum(g: Grid, x: int, y: int): Totals
    requires IsGrid(g) && 0 <= x < Width(g) && 1 <= y < Height(g) - 1
  {
    AddPixel(AddPixel(AddPixel(Totals(0, 0, 0), g[x][y - 1]), g[x][y]), g[x][y + 1])
  }

  function WindowSum(g: Grid, x: int, y: int): Totals
    requires IsGrid(g) && Interior(g, x, y)
  {
    AddTotals(AddTotals(AddTotals(Totals(0, 0, 0), ColumnSum(g, x - 1, y)), ColumnSum(g, x, y)), ColumnSum(g, x + 1, y))
  }

  lemma WindowPartIsWindowSum(g: Grid, x: int, y: int)
    requires IsGrid(g) && Interior(g, x, y)
    ensures WindowPart(g, x, y, 2) == WindowSum(g, x, y)
  {
  }

  /** The softened interior pixel: the truncated mean of the 3x3 window, per channel. */
  function SoftenAt(g: Grid, x: int, y: int): Pixel
    requires IsGrid(g) && Interior(g, x, y)
  {
    var s := WindowSum(g, x, y);
    QRgb(s.red / 9, s.green / 9, s.blue / 9)
  }

  function Soften(g: Grid): (r: Grid)
    requires IsGrid(g)
    ensures SameShape(r, g)
  {
    seq(|g|, x requires 0 <= x < |g| =>
      seq(|g[x]|, y requires 0 <= y < |g[x]| =>
        if Interior(g, x, y) then SoftenAt(g, x, y) else g[x][y]))
  }

  /** The pixels emboss rewrites: every pixel except those of the last column and the last row. */
  predicate EmbossRewrites(g: Grid, x: int, y: int)
  {
    0 <= x < Width(g) - 1 && 0 <= y < Height(g) - 1
  }

  function EmbossAt(g: Grid, x: int, y: int): Pixel
    requires IsGrid(g) && EmbossRewrites(g, x, y)
  {
    EmbossPixel(g[x][y], g[x + 1][y + 1])
  }

  function Emboss(g: Grid): (r: Grid)
    requires IsGrid(g)
    ensures SameShape(r, g)
  {
    seq(|g|, x requires 0 <= x < |g| =>
      seq(|g[x]|, y requires 0 <= y < |g[x]| =>
        if EmbossRewrites(g, x, y) then EmbossAt(g, x, y) else g[x][y]))
  }

  /**
   * Sharpen leaves a border pixel as it was; an interior pixel gets, per channel, the clamped kernel sum
   * itself (qRgb's mask changes nothing).
   */
  lemma SharpenPixel(g: Grid, x: int, y: int)
    requires IsGrid(g) && InGrid(g, x, y)
    ensures !Interior(g, x, y) ==> Sharpen(g)[x][y] == g[x][y]
    ensures Interior(g, x, y) ==>
      var p, above, left, right, below := g[x][y], g[x][y - 1], g[x - 1][y], g[x + 1][y], g[x][y + 1];
      Sharpen(g)[x][y].red == SharpenChannel(p.red, above.red, left.red, right.red, below.red) &&
      Sharpen(g)[x][y].green == SharpenChannel(p.green, above.green, left.green, right.green, below.green) &&
      Sharpen(g)[x][y].blue == SharpenChannel(p.blue, above.blue, left.blue, right.blue, below.blue)
  {
    if Interior(g, x, y) {
      var p, above, left, right, below := g[x][y], g[x][y - 1], g[x - 1][y], g[x + 1][y], g[x][y + 1];
      ByteKeepsChannel(SharpenChannel(p.red, above.red, left.red, right.red, below.red));
      ByteKeepsChannel(SharpenChannel(p.green, above.green, left.green, right.green, below.green));
      ByteKeepsChannel(SharpenChannel(p.blue, above.blue, left.blue, right.blue, below.blue));
    }
  }

  /** A pixel whose four edge neighbours share its colour is kept by sharpen. */
  lemma SharpenKeepsFlatPixel(g: Grid, x: int, y: int)
    requires IsGrid(g) && Interior(g, x, y)
    requires g[x][y - 1] == g[x - 1][y] == g[x + 1][y] == g[x][y + 1] == g[x][y]
    ensures Sharpen(g)[x][y] == g[x][y]
  {
    SharpenPixel(g, x, y);
  }

  /** Soften leaves a border pixel as it was; an interior pixel gets, per channel, the truncated window mean. */
  lemma SoftenPixel(g: Grid, x: int, y: int)
    requires IsGrid(g) && InGrid(g, x, y)
    ensures !Interior(g, x, y) ==> Soften(g)[x][y] == g[x][y]
    ensures Interior(g, x, y) ==>
      var s := WindowSum(g, x, y);
      Soften(g)[x][y] == Pixel(s.red / 9, s.green / 9, s.blue / 9)
  {
    if Interior(g, x, y) {
      var s := WindowSum(g, x, y);
      ByteKeepsChannel(s.red / 9);
      ByteKeepsChannel(s.green / 9);
      ByteKeepsChannel(s.blue / 9);
    }
  }

  /** A pixel whose whole 3x3 window has its colour is kept by soften. */
  lemma SoftenKeepsFlatPixel(g: Grid, x: int, y: int)
    requires IsGrid(g) && Interior(g, x, y)
    requires g[x - 1][y - 1] == g[x - 1][y] == g[x - 1][y + 1] == g[x][y]
    requires g[x][y - 1] == g[x][y + 1] == g[x][y]
    requires g[x + 1][y - 1] == g[x + 1][y] == g[x + 1][y + 1] == g[x][y]
    ensures Soften(g)[x][y] == g[x][y]
  {
    var p := g[x][y];
    assert WindowSum(g, x, y) == Totals(9 * p.red, 9 * p.green, 9 * p.blue);
    SoftenPixel(g, x, y);
  }

  /**
   * Emboss leaves the last column and the last row as they were; every other pixel becomes the gray
   * whose level is the luminance of the absolute channel differences to the lower-right neighbour.
   */
  lemma EmbossPixelAt(g: Grid, x: int, y: int)
    requires IsGrid(g) && InGrid(g, x, y)
    ensures !EmbossRewrites(g, x, y) ==> Emboss(g)[x][y] == g[x][y]
    ensures EmbossRewrites(g, x, y) ==>
      var p, q := g[x][y], g[x + 1][y + 1];
      IsGray(Emboss(g)[x][y]) &&
      Emboss(g)[x][y].red == Luma(Abs(p.red - q.red), Abs(p.green - q.green), Abs(p.blue - q.blue))
  {
    if EmbossRewrites(g, x, y) {
      EmbossPixelIsGray(g[x][y], g[x + 1][y + 1]);
    }
  }

  /** Where a pixel equals its lower-right neighbour there is no relief: emboss makes it black. */
  lemma EmbossFlatIsBlack(g: Grid, x: int, y: int)
    requires IsGrid(g) && EmbossRewrites(g, x, y) && g[x][y] == g[x + 1][y + 1]
    ensures Emboss(g)[x][y] == Black
  {
    EmbossPixelAt(g, x, y);
  }

  /** With bounds inside [0, 255] each contrasted channel is ContrastChannel itself, without wrap-around. */
  lemma ContrastChannels(g: Grid, lower: int, upper: int)
    requires 0 <= lower < upper <= 255
    ensures forall x, y :: InGrid(g, x, y) ==>
      var p, q := g[x][y], Contrast(g, lower, upper)[x][y];
      q.red == ContrastChannel(p.red, lower, upper) && q.green == ContrastChannel(p.green, lower, upper) &&
      q.blue == ContrastChannel(p.blue, lower, upper)
  {
    forall x, y | InGrid(g, x, y)
      ensures var p, q := g[x][y], Contrast(g, lower, upper)[x][y];
        q.red == ContrastChannel(p.red, lower, upper) && q.green == ContrastChannel(p.green, lower, upper) &&
        q.blue == ContrastChannel(p.blue, lower, upper)
    {
      ContrastPixelInRange(g[x][y], lower, upper);
    }
  }
}
