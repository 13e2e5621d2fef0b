/**
 * The editable Image of the photo editor: the pixmap on screen (`current`) and the
 * unmodified image every transform starts from (`baseline`).
 *
 * Each transform copies the baseline, rewrites the copy in nested loops and installs
 * the copy as the current image; the baseline only moves on load and on commit.
 */
module ImageEditor {
  import opened Rgb
  import Raster

  /** The pixels of a buffer as a grid: a[x, y] is column x, row y. */
  ghost function Pixels(a: array2<Pixel>): (g: Raster.Grid)
    reads a
    ensures Raster.IsGrid(g) && |g| == a.Length0
    ensures forall x :: 0 <= x < |g| ==> |g[x]| == a.Length1
    ensures Raster.IsNull(g) <==> a.Length0 == 0 || a.Length1 == 0
    ensures forall x, y :: 0 <= x < a.Length0 && 0 <= y < a.Length1 ==> g[x][y] == a[x, y]
  {
    seq(a.Length0, x requires 0 <= x < a.Length0 reads a =>
      seq(a.Length1, y requires 0 <= y < a.Length1 reads a => a[x, y]))
  }

  /** The buffer holds the grid: same shape, same pixel at every position. */
  ghost predicate Holds(a: array2<Pixel>, g: Raster.Grid)
    reads a
  {
    Raster.IsGrid(g) && |g| == a.Length0 && (a.Length0 > 0 ==> Raster.Height(g) == a.Length1) &&
    forall x, y :: 0 <= x < a.Length0 && 0 <= y < a.Length1 ==> a[x, y] == g[x][y]
  }

  /** QImage's copy constructor: a new buffer with the same pixels. */
  method CopyOf(a: array2<Pixel>) returns (b: array2<Pixel>)
    ensures fresh(b) && b.Length0 == a.Length0 && b.Length1 == a.Length1
    ensures Pixels(b) == Pixels(a)
  {
    b := new Pixel[a.Length0, a.Length1]((x, y) reads a =>
      if 0 <= x < a.Length0 && 0 <= y < a.Length1 then a[x, y] else Black);
    Raster.GridExtensionality(Pixels(b), Pixels(a));
  }

  /** QImage::invertPixels (default InvertRgb mode), a library call: every pixel of the buffer at once. */
  method InvertPixels(image: array2<Pixel>)
    modifies image
    ensures Pixels(image) == Raster.Negative(old(Pixels(image)))
  {
    ghost var base := Pixels(image);
    forall x, y | 0 <= x < image.Length0 && 0 <= y < image.Length1 {
      image[x, y] := InvertPixel(image[x, y]);
    }
    Raster.GridExtensionality(Pixels(image), Raster.Negative(base));
  }

  /** The brightness lookup table: entry i is i + level clamped to [0, 255]. */
  method BrightnessTable(level: int) returns (lut: array<int>)
    ensures lut.Length == 256
    ensures forall i :: 0 <= i < 256 ==> lut[i] == BrightnessEntry(i, level)
  {
    lut := new int[256];
    for i := 0 to 256
      invariant forall k :: 0 <= k < i ==> lut[k] == BrightnessEntry(k, level)
    {
      if i + level > 255 {
        lut[i] := 255;
      } else if i + level < 0 {
        lut[i] := 0;
      } else {
        lut[i] := i + level;
      }
    }
  }

  /**
   * The binary-threshold lookup table: zero everywhere, then 255 from index `threshold` on.
   * A negative threshold would write before the table, so callers must not pass one.
   */
  method ThresholdTable(threshold: int) returns (lut: array<int>)
    requires threshold >= 0
    ensures lut.Length == 256
    ensures forall i :: 0 <= i < 256 ==> lut[i] == (if i >= threshold then 255 else 0)
  {
    lut := new int[256](_ => 0);
    var i := threshold;
    while i < 256
      invariant threshold <= i && (i <= 256 || i == threshold)
      invariant forall k :: 0 <= k < 256 ==> lut[k] == (if threshold <= k < i then 255 else 0)
      decreases 256 - i
    {
      lut[i] := 255;
      i := i + 1;
    }
  }

  /**
   * The soften window sums around (x, y): the m/n loops over the 3x3 window, adding each
   * sample's red, green and blue (kept here per window column, then added up).
   */
  method WindowTotals(temp: array2<Pixel>, x: int, y: int, ghost t: Raster.Grid) returns (r: int, g: int, b: int)
    requires Holds(temp, t) && 1 <= x < temp.Length0 - 1 && 1 <= y < temp.Length1 - 1
    ensures Raster.Interior(t, x, y) && Raster.Totals(r, g, b) == Raster.WindowSum(t, x, y)
  {
    assert Raster.Interior(t, x, y);
    var sums := Raster.Totals(0, 0, 0);
    var m := -1;
    while m <= 1
      invariant -1 <= m <= 2
      invariant sums == Raster.WindowPart(t, x, y, m)
    {
      var column := Raster.Totals(0, 0, 0);
      var n := -1;
      while n <= 1
        invariant -1 <= n <= 2
        invariant column == Raster.ColumnPart(t, x, y, m, n)
      {
        var p := temp[x + m, y + n];
        column := Raster.AddPixel(column, p);
        n := n + 1;
      }
      sums := Raster.AddTotals(sums, column);
      m := m + 1;
    }
    assert m == 2;
    Raster.WindowPartIsWindowSum(t, x, y);
    r, g, b := sums.red, sums.green, sums.blue;
  }

  /** The inner grayscale loop: every pixel of column x is replaced by its gray level. */
  method GrayscaleColumn(image: array2<Pixel>, x: int)
    requires 0 <= x < image.Length0
    modifies image
    ensures forall y :: 0 <= y < image.Length1 ==> image[x, y] == GrayscalePixel(old(image[x, y]))
    ensures forall i, y :: 0 <= i < image.Length0 && i != x && 0 <= y < image.Length1 ==> image[i, y] == old(image[i, y])
  {
    var c := 0;
    while c < image.Length1
      invariant 0 <= c <= image.Length1
      invariant forall y :: 0 <= y < c ==> image[x, y] == GrayscalePixel(old(image[x, y]))
      invariant forall i, y :: 0 <= i < image.Length0 && 0 <= y < image.Length1 && !(i == x && y < c) ==>
        image[i, y] == old(image[i, y])
    {
      image[x, c] := Gray(GrayLevel(image[x, c]));
      c := c + 1;
    }
  }

  /** The inner brightness loop: each component of every pixel of column x goes through the table. */
  method BrightenColumn(image: array2<Pixel>, x: int, lut: array<int>, ghost level: int)
    requires 0 <= x < image.Length0
    requires lut.Length == 256 && forall i :: 0 <= i < 256 ==> lut[i] == BrightnessEntry(i, level)
    modifies image
    ensures forall y :: 0 <= y < image.Length1 ==> image[x, y] == BrightenPixel(old(image[x, y]), level)
    ensures forall i, y :: 0 <= i < image.Length0 && i != x && 0 <= y < image.Length1 ==> image[i, y] == old(image[i, y])
  {
    var c := 0;
    while c < image.Length1
      invariant 0 <= c <= image.Length1
      invariant forall y :: 0 <= y < c ==> image[x, y] == BrightenPixel(old(image[x, y]), level)
      invariant forall i, y :: 0 <= i < image.Length0 && 0 <= y < image.Length1 && !(i == x && y < c) ==>
        image[i, y] == old(image[i, y])
    {
      var pixel := image[x, c];
      image[x, c] := QRgb(lut[pixel.red], lut[pixel.green], lut[pixel.blue]);
      c := c + 1;
    }
  }

  /** The inner threshold loop: every pixel of column x becomes the table entry at its luminance. */
  method ThresholdColumn(image: array2<Pixel>, x: int, lut: array<int>, ghost threshold: int)
    requires 0 <= x < image.Length0
    requires lut.Length == 256 && forall i :: 0 <= i < 256 ==> lut[i] == ThresholdEntry(i, threshold)
    modifies image
    ensures forall y :: 0 <= y < image.Length1 ==> image[x, y] == ThresholdPixel(old(image[x, y]), threshold)
    ensures forall i, y :: 0 <= i < image.Length0 && i != x && 0 <= y < image.Length1 ==> image[i, y] == old(image[i, y])
  {
    var c := 0;
    while c < image.Length1
      invariant 0 <= c <= image.Length1
      invariant forall y :: 0 <= y < c ==> image[x, y] == ThresholdPixel(old(image[x, y]), threshold)
      invariant forall i, y :: 0 <= i < image.Length0 && 0 <= y < image.Length1 && !(i == x && y < c) ==>
        image[i, y] == old(image[i, y])
    {
      var pixel := image[x, c];
      LumaRange(pixel.red, pixel.green, pixel.blue);
      var pixelValue := lut[Luma(pixel.red, pixel.green, pixel.blue)];
      image[x, c] := QRgb(pixelValue, pixelValue, pixelValue);
      c := c + 1;
    }
  }

  /** The inner contrast loop: every component of every pixel of column x is stretched. */
  method ContrastColumn(image: array2<Pixel>, x: int, lower: int, upper: int)
    requires 0 <= x < image.Length0 && lower < upper
    modifies image
    ensures forall y :: 0 <= y < image.Length1 ==> image[x, y] == ContrastPixel(old(image[x, y]), lower, upper)
    ensures forall i, y :: 0 <= i < image.Length0 && i != x && 0 <= y < image.Length1 ==> image[i, y] == old(image[i, y])
  {
    var c := 0;
    while c < image.Length1
      invariant 0 <= c <= image.Length1
      invariant forall y :: 0 <= y < c ==> image[x, y] == ContrastPixel(old(image[x, y]), lower, upper)
      invariant forall i, y :: 0 <= i < image.Length0 && 0 <= y < image.Length1 && !(i == x && y < c) ==>
        image[i, y] == old(image[i, y])
    {
      var pixel := image[x, c];
      var red := ContrastChannel(pixel.red, lower, upper);
      var green := ContrastChannel(pixel.green, lower, upper);
      var blue := ContrastChannel(pixel.blue, lower, upper);
      image[x, c] := QRgb(red, green, blue);
      c := c + 1;
    }
  }

  /**
   * The inner sharpen loop: column x of `image` gets, at every interior row y, the kernel over
   * `temp` (`want` is that column of the sharpened grid).
   */
  method SharpenColumn(temp: array2<Pixel>, image: array2<Pixel>, x: int, ghost base: Raster.Grid, ghost want: seq<Pixel>)
    requires temp != image && temp.Length0 == image.Length0 && temp.Length1 == image.Length1
    requires 1 <= x < image.Length0 - 1
    requires Holds(temp, base)
    requires |want| == image.Length1
    requires forall y :: 1 <= y < image.Length1 - 1 ==> want[y] == Raster.SharpenAt(base, x, y)
    modifies image
    ensures forall y :: 1 <= y < image.Length1 - 1 ==> image[x, y] == want[y]
    ensures forall i, y :: 0 <= i < image.Length0 && 0 <= y < image.Length1 && !(i == x && 1 <= y < image.Length1 - 1) ==>
      image[i, y] == old(image[i, y])
  {
    var h := image.Length1;
    var c := 1;
    while c < h - 1
      invariant 1 <= c && (c <= h - 1 || c == 1)
      invariant forall y :: 1 <= y < c ==> image[x, y] == want[y]
      invariant forall i, y :: 0 <= i < image.Length0 && 0 <= y < h && !(i == x && 1 <= y < c) ==>
        image[i, y] == old(image[i, y])
    {
      var p, above, left, right, below := temp[x, c], temp[x, c - 1], temp[x - 1, c], temp[x + 1, c], temp[x, c + 1];
      var red := SharpenChannel(p.red, above.red, left.red, right.red, below.red);
      var green := SharpenChannel(p.green, above.green, left.green, right.green, below.green);
      var blue := SharpenChannel(p.blue, above.blue, left.blue, right.blue, below.blue);
      assert QRgb(red, green, blue) == want[c];
      image[x, c] := QRgb(red, green, blue);
      c := c + 1;
    }
  }

  /** The sharpen loops: every interior pixel of `image` gets the kernel over `temp`. */
  method SharpenInto(temp: array2<Pixel>, image: array2<Pixel>)
    requires temp != image && temp.Length0 == image.Length0 && temp.Length1 == image.Length1
    requires Pixels(image) == Pixels(temp)
    modifies image
    ensures Pixels(image) == Raster.Sharpen(Pixels(temp))
  {
    ghost var base := Pixels(temp);
    ghost var want := Raster.Sharpen(base);
    var w, h := image.Length0, image.Length1;
    assert Raster.Width(base) == w && (w > 0 ==> Raster.Height(base) == h);
    var x := 1;
    while x < w - 1
      invariant 1 <= x && (x <= w - 1 || x == 1)
      invariant forall i, j :: 0 <= i < w && 0 <= j < h ==>
        image[i, j] == if 1 <= i < x && 1 <= j < h - 1 then want[i][j] else base[i][j]
    {
      SharpenColumn(temp, image, x, base, want[x]);
      x := x + 1;
    }
    forall i, j | 0 <= i < w && 0 <= j < h && !Raster.Interior(base, i, j) {
      Raster.SharpenPixel(base, i, j);
    }
    Raster.GridExtensionality(Pixels(image), want);
  }

  /**
   * The inner soften loop: column x of `image` gets, at every interior row y, the 3x3 window
   * sums over `temp` divided by 9 (`want` is that column of the softened grid).
   */
  method SoftenColumn(temp: array2<Pixel>, image: array2<Pixel>, x: int, ghost base: Raster.Grid, ghost want: seq<Pixel>)
    requires temp != image && temp.Length0 == image.Length0 && temp.Length1 == image.Length1
    requires 1 <= x < image.Length0 - 1
    requires Holds(temp, base)
    requires |want| == image.Length1
    requires forall y :: 1 <= y < image.Length1 - 1 ==> want[y] == Raster.SoftenAt(base, x, y)
    modifies image
    ensures forall y :: 1 <= y < image.Length1 - 1 ==> image[x, y] == want[y]
    ensures forall i, y :: 0 <= i < image.Length0 && 0 <= y < image.Length1 && !(i == x && 1 <= y < image.Length1 - 1) ==>
      image[i, y] == old(image[i, y])
  {
    var h := image.Length1;
    var c := 1;
    while c < h - 1
      invariant 1 <= c && (c <= h - 1 || c == 1)
      invariant forall y :: 1 <= y < c ==> image[x, y] == want[y]
      invariant forall i, y :: 0 <= i < image.Length0 && 0 <= y < h && !(i == x && 1 <= y < c) ==>
        image[i, y] == old(image[i, y])
    {
      var r, g, b := WindowTotals(temp, x, c, base);
      assert QRgb(r / 9, g / 9, b / 9) == want[c];
      image[x, c] := QRgb(r / 9, g / 9, b / 9);
      c := c + 1;
    }
  }

  /** The soften loops: every interior pixel of `image` gets the window mean over `temp`. */
  method SoftenInto(temp: array2<Pixel>, image: array2<Pixel>)
    requires temp != image && temp.Length0 == image.Length0 && temp.Length1 == image.Length1
    requires Pixels(image) == Pixels(temp)
    modifies image
    ensures Pixels(image) == Raster.Soften(Pixels(temp))
  {
    ghost var base := Pixels(temp);
    ghost var want := Raster.Soften(base);
    var w, h := image.Length0, image.Length1;
    assert Raster.Width(base) == w && (w > 0 ==> Raster.Height(base) == h);
    var x := 1;
    while x < w - 1
      invariant 1 <= x && (x <= w - 1 || x == 1)
      invariant forall i, j :: 0 <= i < w && 0 <= j < h ==>
        image[i, j] == if 1 <= i < x && 1 <= j < h - 1 then want[i][j] else base[i][j]
    {
      SoftenColumn(temp, image, x, base, want[x]);
      x := x + 1;
    }
    forall i, j | 0 <= i < w && 0 <= j < h && !Raster.Interior(base, i, j) {
      Raster.SoftenPixel(base, i, j);
    }
    Raster.GridExtensionality(Pixels(image), want);
  }

  /**
   * The inner emboss loop on column x: at (x, y) it reads (x, y) and (x + 1, y + 1), which
   * this loop has not written yet, so each written pixel is the emboss of the unedited pixels.
   */
  method EmbossColumn(image: array2<Pixel>, x: int, ghost base: Raster.Grid)
    requires Raster.IsGrid(base) && |base| == image.Length0 && Raster.Height(base) == image.Length1
    requires 0 <= x < image.Length0 - 1
    requires forall y :: 0 <= y < image.Length1 ==> image[x, y] == base[x][y]
    requires forall i, y :: i == x + 1 && 0 <= y < image.Length1 ==> image[i, y] == base[i][y]
    modifies image
    ensures forall y :: 0 <= y < image.Length1 - 1 ==> image[x, y] == Raster.EmbossAt(base, x, y)
    ensures forall i, y :: 0 <= i < image.Length0 && 0 <= y < image.Length1 && !(i == x && y < image.Length1 - 1) ==>
      image[i, y] == old(image[i, y])
  {
    var h := image.Length1;
    var y := 0;
    while y < h - 1
      invariant 0 <= y && (y <= h - 1 || y == 0)
      invariant forall j :: 0 <= j < y ==> image[x, j] == Raster.EmbossAt(base, x, j)
      invariant forall j :: y <= j < h ==> image[x, j] == base[x][j]
      invariant forall i, j :: i == x + 1 && 0 <= j < h ==> image[i, j] == base[i][j]
      invariant forall i, j :: 0 <= i < image.Length0 && 0 <= j < h && !(i == x && j < y) ==>
        image[i, j] == old(image[i, j])
    {
      var pixel := image[x, y];
      var lowerPixel := image[x + 1, y + 1];
      var r := Abs(pixel.red - lowerPixel.red);
      var g := Abs(pixel.green - lowerPixel.green);
      var b := Abs(pixel.blue - lowerPixel.blue);
      var avg := Luma(r, g, b);
      assert QRgb(avg, avg, avg) == Raster.EmbossAt(base, x, y);
      image[x, y] := QRgb(avg, avg, avg);
      y := y + 1;
    }
  }

  /** The emboss loops, in place: every pixel off the last column and the last row is rewritten. */
  method EmbossInPlace(image: array2<Pixel>)
    modifies image
    ensures Pixels(image) == Raster.Emboss(old(Pixels(image)))
  {
    ghost var base := Pixels(image);
    ghost var want := Raster.Emboss(base);
    var w, h := image.Length0, image.Length1;
    if w == 0 {
      Raster.GridExtensionality(Pixels(image), want);
      return;
    }
    assert Raster.Width(base) == w && Raster.Height(base) == h;
    var x := 0;
    while x < w - 1
      invariant 0 <= x < w
      invariant forall i, j :: 0 <= i < w && 0 <= j < h ==>
        image[i, j] == if i < x && j < h - 1 then want[i][j] else base[i][j]
    {
      EmbossColumn(image, x, base);
      x := x + 1;
    }
    forall i, j | 0 <= i < w && 0 <= j < h && !Raster.EmbossRewrites(base, i, j) {
      Raster.EmbossPixelAt(base, i, j);
    }
    Raster.GridExtensionality(Pixels(image), want);
  }

  class Image {
    /** The pixmap itself: the image on screen, possibly an uncommitted preview. */
    var current: array2<Pixel>
    /** unModifiedImage: the last loaded or committed image. */
    var baseline: array2<Pixel>

    /**
     * The preview has the baseline's size.  Every operation here keeps this, but none
     * relies on it: the transforms read only the baseline, so none requires it.
     */
    ghost predicate Valid()
      reads this
    {
      current.Length0 == baseline.Length0 && current.Length1 == baseline.Length1
    }

    /** The part of Image::load after decoding: the decoded pixels are shown and become the baseline. */
    constructor Load(decoded: Raster.Grid)
      requires Raster.IsGrid(decoded)
      ensures Valid()
      ensures Pixels(current) == decoded && Pixels(baseline) == decoded
      ensures fresh(current) && fresh(baseline) && current != baseline
    {
      var w, h := |decoded|, Raster.Height(decoded);
      var shown := new Pixel[w, h]((x, y) =>
        if 0 <= x < w && 0 <= y < h && y < |decoded[x]| then decoded[x][y] else Black);
      Raster.GridExtensionality(Pixels(shown), decoded);
      var unmodified := CopyOf(shown);
      current, baseline := shown, unmodified;
    }

    /** Accept the preview: the shown image becomes the new baseline. */
    method Commit()
      modifies this
      ensures Valid()
      ensures current == old(current) && Pixels(current) == old(Pixels(current))
      ensures Pixels(baseline) == Pixels(current)
    {
      baseline := CopyOf(current);
    }

    /** Cancel the preview: the baseline is shown again. */
    method Revert()
      modifies this
      ensures Valid()
      ensures baseline == old(baseline) && Pixels(baseline) == old(Pixels(baseline))
      ensures Pixels(current) == Pixels(baseline)
    {
      current := CopyOf(baseline);
    }

    /** The baseline with every pixel replaced by its rounded 30/59/11 gray; the baseline is kept. */
    method Grayscale()
      modifies this
      ensures old(Valid()) ==> Valid()
      ensures baseline == old(baseline) && Pixels(baseline) == old(Pixels(baseline))
      ensures Pixels(current) ==
        if Raster.IsNull(Pixels(baseline)) then old(Pixels(current)) else Raster.Grayscale(Pixels(baseline))
    {
      var image := CopyOf(baseline);
      if image.Length0 == 0 || image.Length1 == 0 {
        return;  // null image: logged, nothing changes
      }
      ghost var base := Pixels(baseline);
      var nrows, ncols := image.Length0, image.Length1;
      var r := 0;
      while r < nrows
        modifies image
        invariant 0 <= r <= nrows
        invariant forall i, j :: 0 <= i < nrows && 0 <= j < ncols ==>
          image[i, j] == if i < r then GrayscalePixel(base[i][j]) else base[i][j]
      {
        GrayscaleColumn(image, r);
        r := r + 1;
      }
      current := image;
      Raster.GridExtensionality(Pixels(current), Raster.Grayscale(base));
    }

    /** The 5-point sharpen kernel over an unedited copy of the baseline; border pixels are kept. */
    method Sharpen()
      modifies this
      ensures old(Valid()) ==> Valid()
      ensures baseline == old(baseline) && Pixels(baseline) == old(Pixels(baseline))
      ensures Pixels(current) ==
        if Raster.IsNull(Pixels(baseline)) then old(Pixels(current)) else Raster.Sharpen(Pixels(baseline))
    {
      var temp := CopyOf(baseline);   // the unedited copy the kernel reads
      var image := CopyOf(baseline);
      if image.Length0 == 0 || image.Length1 == 0 {
        return;
      }
      SharpenInto(temp, image);
      current := image;
    }

    /** The 3x3 mean over an unedited copy of the baseline; border pixels are kept. */
    method Soften()
      modifies this
      ensures old(Valid()) ==> Valid()
      ensures baseline == old(baseline) && Pixels(baseline) == old(Pixels(baseline))
      ensures Pixels(current) ==
        if Raster.IsNull(Pixels(baseline)) then old(Pixels(current)) else Raster.Soften(Pixels(baseline))
    {
      var temp := CopyOf(baseline);
      var image := CopyOf(baseline);
      if image.Length0 == 0 || image.Length1 == 0 {
        return;
      }
      SoftenInto(temp, image);
      current := image;
    }

    /** The baseline with every colour component inverted. */
    method Negative()
      modifies this
      ensures old(Valid()) ==> Valid()
      ensures baseline == old(baseline) && Pixels(baseline) == old(Pixels(baseline))
      ensures Pixels(current) ==
        if Raster.IsNull(Pixels(baseline)) then old(Pixels(current)) else Raster.Negative(Pixels(baseline))
    {
      var image := CopyOf(baseline);
      if image.Length0 == 0 || image.Length1 == 0 {
        return;
      }
      InvertPixels(image);
      current := image;
    }

    /** Not implemented by the source: only logs. */
    method Despeckle(threshold: int)
      ensures unchanged(this)
    {
    }

    /** Not implemented by the source: only logs. */
    method Posterize()
      ensures unchanged(this)
    {
    }

    /** Rewrites a copy of the baseline in place, column by column; see EmbossInPlace. */
    method Emboss()
      modifies this
      ensures old(Valid()) ==> Valid()
      ensures baseline == old(baseline) && Pixels(baseline) == old(Pixels(baseline))
      ensures Pixels(current) ==
        if Raster.IsNull(Pixels(baseline)) then old(Pixels(current)) else Raster.Emboss(Pixels(baseline))
    {
      var image := CopyOf(baseline);
      if image.Length0 == 0 || image.Length1 == 0 {
        return;
      }
      EmbossInPlace(image);
      current := image;
    }

    /** The baseline with `brightnessLevel` added to every component through a clamping table. */
    method Brightness(brightnessLevel: int)
      modifies this
      ensures old(Valid()) ==> Valid()
      ensures baseline == old(baseline) && Pixels(baseline) == old(Pixels(baseline))
      ensures Pixels(current) ==
        if Raster.IsNull(Pixels(baseline)) then old(Pixels(current))
        else Raster.Brighten(Pixels(baseline), brightnessLevel)
    {
      var image := CopyOf(baseline);
      if image.Length0 == 0 || image.Length1 == 0 {
        return;
      }
      ghost var base := Pixels(baseline);
      var nrows, ncols := image.Length0, image.Length1;
      var lut := BrightnessTable(brightnessLevel);
      var r := 0;
      while r < nrows
        modifies image
        invariant 0 <= r <= nrows
        invariant forall i, j :: 0 <= i < nrows && 0 <= j < ncols ==>
          image[i, j] == if i < r then BrightenPixel(base[i][j], brightnessLevel) else base[i][j]
      {
        BrightenColumn(image, r, lut, brightnessLevel);
        r := r + 1;
      }
      current := image;
      Raster.GridExtensionality(Pixels(current), Raster.Brighten(base, brightnessLevel));
    }

    /** A threshold above 255 is only logged; a negative one would index before the table. */
    method BinaryThreshold(threshold: int)
      requires threshold >= 0
      modifies this
      ensures old(Valid()) ==> Valid()
      ensures baseline == old(baseline) && Pixels(baseline) == old(Pixels(baseline))
      ensures Pixels(current) ==
        if Raster.IsNull(Pixels(baseline)) then old(Pixels(current))
        else Raster.BinaryThreshold(Pixels(baseline), threshold)
    {
      var image := CopyOf(baseline);
      if image.Length0 == 0 || image.Length1 == 0 {
        return;
      }
      ghost var base := Pixels(baseline);
      var lut := ThresholdTable(threshold);
      var w, h := image.Length0, image.Length1;
      var r := 0;
      while r < w
        modifies image
        invariant 0 <= r <= w
        invariant forall i, j :: 0 <= i < w && 0 <= j < h ==>
          image[i, j] == if i < r then ThresholdPixel(base[i][j], threshold) else base[i][j]
      {
        ThresholdColumn(image, r, lut, threshold);
        r := r + 1;
      }
      current := image;
      Raster.GridExtensionality(Pixels(current), Raster.BinaryThreshold(base, threshold));
    }

    /** With lower >= upper the call returns before any pixel is touched (the division would be by zero). */
    method Contrast(lower: int, upper: int)
      modifies this
      ensures old(Valid()) ==> Valid()
      ensures baseline == old(baseline) && Pixels(baseline) == old(Pixels(baseline))
      ensures Pixels(current) ==
        if Raster.IsNull(Pixels(baseline)) || lower >= upper then old(Pixels(current))
        else Raster.Contrast(Pixels(baseline), lower, upper)
    {
      var image := CopyOf(baseline);
      if image.Length0 == 0 || image.Length1 == 0 {
        return;
      }
      if lower >= upper {
        return;  // logged: aborting to prevent a division by zero
      }
      ghost var base := Pixels(baseline);
      var w, h := image.Length0, image.Length1;
      var r := 0;
      while r < w
        modifies image
        invariant 0 <= r <= w
        invariant forall i, j :: 0 <= i < w && 0 <= j < h ==>
          image[i, j] == if i < r then ContrastPixel(base[i][j], lower, upper) else base[i][j]
      {
        ContrastColumn(image, r, lower, upper);
        r := r + 1;
      }
      current := image;
      Raster.GridExtensionality(Pixels(current), Raster.Contrast(base, lower, upper));
    }

    /** Not implemented by the source: only logs. */
    method Balance(brightness: int, contrastLower: int, contrastUpper: int, gamma: real)
      ensures unchanged(this)
    {
    }
  }

  // ---------------------------------------------------------------- the preview / commit / cancel workflow

  /** Cancelling shows the baseline again, however many transforms were previewed before it. */
  method PreviewThenCancel(img: Image, level: int, threshold: int, lower: int, upper: int)
    requires threshold >= 0
    modifies img
    ensures img.Valid() && Pixels(img.baseline) == old(Pixels(img.baseline))
    ensures Pixels(img.current) == old(Pixels(img.baseline))
  {
    img.Grayscale();
    img.Sharpen();
    img.Soften();
    img.Negative();
    img.Emboss();
    img.Brightness(level);
    img.BinaryThreshold(threshold);
    img.Contrast(lower, upper);
    img.Revert();
  }

  /** Accepting and then cancelling leaves the shown image as it was. */
  method CommitThenRevert(img: Image)
    modifies img
    ensures img.Valid() && Pixels(img.current) == old(Pixels(img.current))
  {
    img.Commit();
    img.Revert();
  }

  /** Every transform starts from the baseline: a second negative without a commit does not undo the first. */
  method NegativeTwiceWithoutCommit(img: Image)
    requires !Raster.IsNull(Pixels(img.baseline))
    modifies img
    ensures Pixels(img.current) == Raster.Negative(old(Pixels(img.baseline)))
  {
    img.Negative();
    img.Negative();
  }

  /** Once committed, the negative is the new baseline, so a second negative restores the original. */
  method NegativeCommitNegative(img: Image)
    requires !Raster.IsNull(Pixels(img.baseline))
    modifies img
    ensures Pixels(img.current) == old(Pixels(img.baseline))
  {
    ghost var original := Pixels(img.baseline);
    img.Negative();
    img.Commit();
    img.Negative();
    Raster.NegativeInvolution(original);
  }
}
