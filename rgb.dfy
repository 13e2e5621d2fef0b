/**
 * Pixels and the per-pixel arithmetic of the photo editor's Image transforms.
 *
 * A pixel is read through Qt's qRed/qGreen/qBlue (each 0..255) and written
 * back through qRgb, which keeps only the low eight bits of every component.
 * The source multiplies by the decimal weights 0.3, 0.59 and 0.11 in double
 * precision and truncates to int; here the weights are the exact rationals
 * 30/100, 59/100 and 11/100 and the truncation is integer division.
 */
module Rgb {

  /** One 8-bit colour component. */
  type Channel = c: int | 0 <= c <= 255

  /** An RGB pixel (the alpha component is not part of this model). */
  datatype Pixel = Pixel(red: Channel, green: Channel, blue: Channel)

  const Black := Pixel(0, 0, 0)
  const White := Pixel(255, 255, 255)

  /** qRgb keeps `v & 0xff`; Dafny's `%` is Euclidean, which is that mask for negative v too. */
  function Byte(v: int): Channel
  {
    v % 256
  }

  /** qRgb(r, g, b): the pixel that setPixel stores. */
  function QRgb(r: int, g: int, b: int): Pixel
  {
    Pixel(Byte(r), Byte(g), Byte(b))
  }

  /** qRgb(v, v, v). */
  function Gray(v: int): Pixel
  {
    QRgb(v, v, v)
  }

  predicate IsGray(p: Pixel)
  {
    p.red == p.green == p.blue
  }

  /** The masking of qRgb changes nothing for a value that already is a channel. */
  lemma ByteKeepsChannel(v: int)
    requires 0 <= v <= 255
    ensures Byte(v) == v
  {
  }

  /** `(v < 0) ? 0 : (v > 255) ? 255 : v`. */
  function Clamp(v: int): int
  {
    if v < 0 then 0 else if v > 255 then 255 else v
  }

  function Abs(v: int): int
  {
    if v < 0 then -v else v
  }

  /**
   * Division truncated toward zero (Dafny's `/` is Euclidean): the conversion of the
   * contrast quotient `(c - lower) * 256.0 / (upper - lower) + 0.5` from double to int.
   */
  function TruncDiv(n: int, d: int): int
    requires d > 0
  {
    if n >= 0 then n / d else -((-n) / d)
  }

  // ---------------------------------------------------------------- grayscale

  /** `int t = c * 0.pp + 0.5;` for a non-negative component: one term rounded on its own. */
  function RoundedTerm(c: Channel, percent: nat): int
  {
    (percent * c + 50) / 100
  }

  /** The grayscale level: each weighted term is rounded separately, then the three are added. */
  function GrayLevel(p: Pixel): int
  {
    RoundedTerm(p.red, 30) + RoundedTerm(p.green, 59) + RoundedTerm(p.blue, 11)
  }

  lemma RoundedTermMonotone(c: Channel, percent: nat)
    requires percent <= 100
    ensures 0 <= RoundedTerm(c, percent) <= RoundedTerm(255, percent)
  {
    assert percent * c <= percent * 255 by {
      assert percent * (255 - c) >= 0;
    }
  }

  /** The three rounded terms never add up beyond 255 (77 + 150 + 28 at full white). */
  lemma GrayLevelRange(p: Pixel)
    ensures 0 <= GrayLevel(p) <= 255
  {
    RoundedTermMonotone(p.red, 30);
    RoundedTermMonotone(p.green, 59);
    RoundedTermMonotone(p.blue, 11);
  }

  /** A gray input keeps its level up to one step of rounding; black and white are kept exactly. */
  lemma GrayLevelOfGray(v: Channel)
    ensures v - 1 <= GrayLevel(Pixel(v, v, v)) <= v + 1
    ensures v == 0 || v == 255 ==> GrayLevel(Pixel(v, v, v)) == v
  {
  }

  function GrayscalePixel(p: Pixel): Pixel
  {
    Gray(GrayLevel(p))
  }

  /** A grayscaled pixel is a gray whose level is the rounded weighted sum, unmasked. */
  lemma GrayscalePixelIsGray(p: Pixel)
    ensures IsGray(GrayscalePixel(p))
    ensures GrayscalePixel(p).red == GrayLevel(p)
  {
    GrayLevelRange(p);
  }

  // ---------------------------------------------------------------- luminance

  /** `(int)(r * 0.3 + g * 0.59 + b * 0.11)` for non-negative components. */
  function Luma(r: int, g: int, b: int): int
  {
    (30 * r + 59 * g + 11 * b) / 100
  }

  lemma LumaRange(r: int, g: int, b: int)
    requires 0 <= r <= 255 && 0 <= g <= 255 && 0 <= b <= 255
    ensures 0 <= Luma(r, g, b) <= 255
  {
    assert 30 * r + 59 * g + 11 * b <= 100 * 255;
  }

  function PixelLuma(p: Pixel): int
  {
    Luma(p.red, p.green, p.blue)
  }

  // ---------------------------------------------------------------- negative

  /** QImage::invertPixels in its default InvertRgb mode: every colour component becomes 255 - c. */
  function InvertPixel(p: Pixel): Pixel
  {
    Pixel(255 - p.red, 255 - p.green, 255 - p.blue)
  }

  // ---------------------------------------------------------------- brightness

  /** Entry i of the brightness lookup table. */
  function BrightnessEntry(i: int, level: int): int
  {
    if i + level > 255 then 255 else if i + level < 0 then 0 else i + level
  }

  /** Every entry is a channel value, level 0 is the identity table, and the table is nondecreasing. */
  lemma BrightnessEntryFacts(i: Channel, j: Channel, level: int)
    ensures 0 <= BrightnessEntry(i, level) <= 255
    ensures BrightnessEntry(i, 0) == i
    ensures i <= j ==> BrightnessEntry(i, level) <= BrightnessEntry(j, level)
    ensures level <= -255 ==> BrightnessEntry(i, level) == 0
    ensures level >= 255 ==> BrightnessEntry(i, level) == 255
  {
  }

  function BrightenPixel(p: Pixel, level: int): Pixel
  {
    QRgb(BrightnessEntry(p.red, level), BrightnessEntry(p.green, level), BrightnessEntry(p.blue, level))
  }

  // ---------------------------------------------------------------- binary threshold

  /** Entry i of the threshold table: zero-initialised, then 255 from index `threshold` upwards. */
  function ThresholdEntry(i: int, threshold: int): int
  {
    if threshold <= i then 255 else 0
  }

  function ThresholdPixel(p: Pixel, threshold: int): Pixel
  {
    Gray(ThresholdEntry(PixelLuma(p), threshold))
  }

  /** A thresholded pixel is pure white exactly when its luminance reaches the threshold, else pure black. */
  lemma ThresholdPixelIsBlackOrWhite(p: Pixel, threshold: int)
    ensures ThresholdPixel(p, threshold) == White <==> PixelLuma(p) >= threshold
    ensures ThresholdPixel(p, threshold) == Black <==> PixelLuma(p) < threshold
  {
  }

  // ---------------------------------------------------------------- sharpen

  /** 5 * centre minus the four edge neighbours, clamped. */
  function SharpenChannel(centre: int, above: int, left: int, right: int, below: int): int
  {
    Clamp(5 * centre - left - above - below - right)
  }

  // ---------------------------------------------------------------- emboss

  /** The emboss gray: luminance of the absolute channel differences to the lower-right neighbour. */
  function EmbossPixel(p: Pixel, lower: Pixel): Pixel
  {
    Gray(Luma(Abs(p.red - lower.red), Abs(p.green - lower.green), Abs(p.blue - lower.blue)))
  }

  lemma EmbossPixelIsGray(p: Pixel, lower: Pixel)
    ensures IsGray(EmbossPixel(p, lower))
    ensures EmbossPixel(p, lower).red
         == Luma(Abs(p.red - lower.red), Abs(p.green - lower.green), Abs(p.blue - lower.blue))
  {
    LumaRange(Abs(p.red - lower.red), Abs(p.green - lower.green), Abs(p.blue - lower.blue));
  }

  // ---------------------------------------------------------------- contrast

  /**
   * One contrasted component before qRgb: `trunc((c - lower) * 256 / (upper - lower) + 0.5)`,
   * then 0 below `lower` and 255 above `upper` (the source compares with lower and upper, not 0 and 255).
   */
  function ContrastChannel(c: Channel, lower: int, upper: int): int
    requires lower < upper
  {
    var d := upper - lower;
    var v := TruncDiv(512 * (c - lower) + d, 2 * d);
    if v < lower then 0 else if v > upper then 255 else v
  }

  /** Truncation toward zero never reverses the order of two numerators. */
  lemma TruncDivMonotone(n1: int, n2: int, d: int)
    requires d > 0 && n1 <= n2
    ensures TruncDiv(n1, d) <= TruncDiv(n2, d)
  {
    if n1 < 0 && n2 >= 0 {
      assert TruncDiv(n1, d) <= 0 <= TruncDiv(n2, d);
    } else if n1 < 0 {
      assert (-n2) / d <= (-n1) / d by {
        DivMonotone(-n2, -n1, d);
      }
    } else {
      DivMonotone(n1, n2, d);
    }
  }

  /** Euclidean division by a positive divisor keeps the order of non-negative dividends. */
  lemma DivMonotone(a: int, b: int, d: int)
    requires d > 0 && 0 <= a <= b
    ensures a / d <= b / d
  {
    var qa, qb := a / d, b / d;
    assert d * qa <= a && b < d * qb + d;
    assert d * qb + d == d * (qb + 1);
    MulCancel(d, qa, qb + 1);
  }

  lemma MulMonotone(d: int, x: int, y: int)
    requires d >= 0 && x <= y
    ensures d * x <= d * y
  {
    assert d * y - d * x == d * (y - x);
  }

  lemma MulCancel(d: int, x: int, y: int)
    requires d > 0 && d * x < d * y
    ensures x < y
  {
    if y <= x {
      MulMonotone(d, y, x);
    }
  }

  /** With a lower bound of at least 0, a brighter component never comes out darker. */
  lemma ContrastChannelMonotone(c1: Channel, c2: Channel, lower: int, upper: int)
    requires 0 <= lower < upper <= 255 && c1 <= c2
    ensures ContrastChannel(c1, lower, upper) <= ContrastChannel(c2, lower, upper)
  {
    var d := upper - lower;
    var v1, v2 := TruncDiv(512 * (c1 - lower) + d, 2 * d), TruncDiv(512 * (c2 - lower) + d, 2 * d);
    TruncDivMonotone(512 * (c1 - lower) + d, 512 * (c2 - lower) + d, 2 * d);
    assert v1 <= v2;
  }

  function ContrastPixel(p: Pixel, lower: int, upper: int): Pixel
    requires lower < upper
  {
    QRgb(ContrastChannel(p.red, lower, upper), ContrastChannel(p.green, lower, upper),
         ContrastChannel(p.blue, lower, upper))
  }

  /** A contrasted component is never negative, whatever the bounds. */
  lemma ContrastChannelNonNegative(c: Channel, lower: int, upper: int)
    requires lower < upper
    ensures ContrastChannel(c, lower, upper) >= 0
  {
    var d := upper - lower;
    var v := TruncDiv(512 * (c - lower) + d, 2 * d);
    if lower < 0 {
      assert 512 * (c - lower) + d > 0;
      assert v >= 0;
    }
  }

  /** With bounds inside [0, 255] every component is a channel value, so qRgb's mask changes nothing. */
  lemma ContrastPixelInRange(p: Pixel, lower: int, upper: int)
    requires 0 <= lower < upper <= 255
    ensures ContrastPixel(p, lower, upper).red == ContrastChannel(p.red, lower, upper)
    ensures ContrastPixel(p, lower, upper).green == ContrastChannel(p.green, lower, upper)
    ensures ContrastPixel(p, lower, upper).blue == ContrastChannel(p.blue, lower, upper)
  {
    ContrastChannelNonNegative(p.red, lower, upper);
    ContrastChannelNonNegative(p.green, lower, upper);
    ContrastChannelNonNegative(p.blue, lower, upper);
    ByteKeepsChannel(ContrastChannel(p.red, lower, upper));
    ByteKeepsChannel(ContrastChannel(p.green, lower, upper));
    ByteKeepsChannel(ContrastChannel(p.blue, lower, upper));
  }

  /** Bounds outside [0, 255] can carry a component to 256, which qRgb wraps to 0: white turns black. */
  lemma ContrastWrapsOutsideRange()
    ensures ContrastChannel(255, -1000, 256) == 256
    ensures ContrastPixel(White, -1000, 256) == Black
  {
    assert TruncDiv(512 * 1255 + 1256, 2 * 1256) == 256;
  }
}
