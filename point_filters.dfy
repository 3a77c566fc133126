/**
  The point filters: each output pixel is computed from the input pixel at the
  same coordinate alone.

  For each filter there are three members: the colour map on one pixel
  (`GrayPixel`, ...), the whole-image result as a grid value (`GrayscaleOf`,
  ...), and the method that computes it by copying the image and overwriting
  every pixel of the copy (`Grayscale`, ...).  The laws relating filters are
  lemmas about the grid values.
*/
module PointFilters {
  import opened Raster
  import opened ColorMath

  // ---------------------------------------------------------------------------
  // The colour maps

  /** grayscale: all three channels become the pixel's brightness. */
  function GrayPixel(p: Pixel): (q: Pixel)
    ensures q.r == q.g == q.b
    ensures 3 * q.r <= p.r + p.g + p.b < 3 * q.r + 3
  {
    var brightness := Brightness(p);
    Pixel(brightness, brightness, brightness)
  }

  /** negative: every channel is replaced by its complement in 0..255. */
  function NegativePixel(p: Pixel): (q: Pixel)
    ensures q.r + p.r == 255 && q.g + p.g == 255 && q.b + p.b == 255
  {
    Pixel(255 - p.r, 255 - p.g, 255 - p.b)
  }

  /** solarize, one channel: inverted exactly when it is below the threshold. */
  function SolarizeChannel(c: Channel, threshold: int): (s: Channel)
    ensures c < threshold ==> s + c == 255
    ensures threshold <= c ==> s == c
  {
    if c < threshold then 255 - c else c
  }

  /** solarize: the three channels are treated independently. */
  function SolarizePixel(p: Pixel, threshold: int): Pixel
  {
    Pixel(SolarizeChannel(p.r, threshold), SolarizeChannel(p.g, threshold), SolarizeChannel(p.b, threshold))
  }

  /** The colour map of `solarize` with a fixed threshold. */
  function Solarizer(threshold: int): Pixel -> Pixel
  {
    p => SolarizePixel(p, threshold)
  }

  /** black_and_white: black when the brightness is in 0..127, white when it is in 128..255. */
  function BlackAndWhitePixel(p: Pixel): (q: Pixel)
    ensures q == Black || q == White
    ensures q == Black <==> Brightness(p) < 128
  {
    if Brightness(p) < 128 then Black else White
  }

  /**
    black_and_white_and_gray: black for brightness 0..84, medium gray for
    85..170, white for 171..255.
  */
  function BlackAndWhiteAndGrayPixel(p: Pixel): (q: Pixel)
    ensures q == Black || q == Gray || q == White
    ensures q == Black <==> Brightness(p) < 85
    ensures q == White <==> 171 <= Brightness(p)
  {
    var brightness := Brightness(p);
    if brightness < 85 then Black
    else if brightness < 171 then Gray
    else White
  }

  /** extreme_contrast, one channel: pushed to 0 or to 255, whichever half it is in. */
  function ExtremeContrastChannel(c: Channel): (s: Channel)
    ensures s == 0 || s == 255
    ensures s == 255 <==> 128 <= c
  {
    if c < 128 then 0 else 255
  }

  /** extreme_contrast: the three channels are thresholded independently. */
  function ExtremeContrastPixel(p: Pixel): Pixel
  {
    Pixel(ExtremeContrastChannel(p.r), ExtremeContrastChannel(p.g), ExtremeContrastChannel(p.b))
  }

  /** posterize: every channel becomes the midpoint of its quadrant. */
  function PosterizePixel(p: Pixel): Pixel
  {
    Pixel(AdjustComponent(p.r), AdjustComponent(p.g), AdjustComponent(p.b))
  }

  // ---------------------------------------------------------------------------
  // The filters' results as grid values

  function GrayscaleOf(g: Grid): Grid { MapGrid(g, GrayPixel) }

  function NegativeOf(g: Grid): Grid { MapGrid(g, NegativePixel) }

  function SolarizeOf(g: Grid, threshold: int): Grid { MapGrid(g, Solarizer(threshold)) }

  function BlackAndWhiteOf(g: Grid): Grid { MapGrid(g, BlackAndWhitePixel) }

  function BlackAndWhiteAndGrayOf(g: Grid): Grid { MapGrid(g, BlackAndWhiteAndGrayPixel) }

  function ExtremeContrastOf(g: Grid): Grid { MapGrid(g, ExtremeContrastPixel) }

  function PosterizeOf(g: Grid): Grid { MapGrid(g, PosterizePixel) }

  // ---------------------------------------------------------------------------
  // The filters

  method Grayscale(image: array2<Pixel>) returns (result: array2<Pixel>)
    ensures fresh(result)
    ensures unchanged(image)
    ensures result.Length0 == image.Length0 && result.Length1 == image.Length1
    ensures Contents(result) == GrayscaleOf(Contents(image))
  {
    result := MapPixels(image, GrayPixel);
  }

  method Negative(image: array2<Pixel>) returns (result: array2<Pixel>)
    ensures fresh(result)
    ensures unchanged(image)
    ensures result.Length0 == image.Length0 && result.Length1 == image.Length1
    ensures Contents(result) == NegativeOf(Contents(image))
  {
    result := MapPixels(image, NegativePixel);
  }

  /** The threshold is documented as 0..256; any integer is accepted. */
  method Solarize(image: array2<Pixel>, threshold: int) returns (result: array2<Pixel>)
    ensures fresh(result)
    ensures unchanged(image)
    ensures result.Length0 == image.Length0 && result.Length1 == image.Length1
    ensures Contents(result) == SolarizeOf(Contents(image), threshold)
  {
    result := MapPixels(image, Solarizer(threshold));
  }

  method BlackAndWhite(image: array2<Pixel>) returns (result: array2<Pixel>)
    ensures fresh(result)
    ensures unchanged(image)
    ensures result.Length0 == image.Length0 && result.Length1 == image.Length1
    ensures Contents(result) == BlackAndWhiteOf(Contents(image))
  {
    result := MapPixels(image, BlackAndWhitePixel);
  }

  method BlackAndWhiteAndGray(image: array2<Pixel>) returns (result: array2<Pixel>)
    ensures fresh(result)
    ensures unchanged(image)
    ensures result.Length0 == image.Length0 && result.Length1 == image.Length1
    ensures Contents(result) == BlackAndWhiteAndGrayOf(Contents(image))
  {
    result := MapPixels(image, BlackAndWhiteAndGrayPixel);
  }

  method ExtremeContrast(image: array2<Pixel>) returns (result: array2<Pixel>)
    ensures fresh(result)
    ensures unchanged(image)
    ensures result.Length0 == image.Length0 && result.Length1 == image.Length1
    ensures Contents(result) == ExtremeContrastOf(Contents(image))
  {
    result := MapPixels(image, ExtremeContrastPixel);
  }

  method Posterize(image: array2<Pixel>) returns (result: array2<Pixel>)
    ensures fresh(result)
    ensures unchanged(image)
    ensures result.Length0 == image.Length0 && result.Length1 == image.Length1
    ensures Contents(result) == PosterizeOf(Contents(image))
  {
    result := MapPixels(image, PosterizePixel);
  }

  // ---------------------------------------------------------------------------
  // Laws

  /** A gray image is its own grayscale, so grayscale is idempotent. */
  lemma GrayscaleIdempotent(g: Grid)
    ensures GrayscaleOf(GrayscaleOf(g)) == GrayscaleOf(g)
  {
    var once := GrayscaleOf(g);
    forall x, y | 0 <= x < |g| && 0 <= y < |g[x]|
      ensures GrayscaleOf(once)[x][y] == once[x][y]
    {
      BrightnessOfGray(once[x][y].r);
    }
    GridExt(GrayscaleOf(once), once);
  }

  /** The negative of the negative is the original image. */
  lemma NegativeInvolution(g: Grid)
    ensures NegativeOf(NegativeOf(g)) == g
  {
    GridExt(NegativeOf(NegativeOf(g)), g);
  }

  /** No channel is below 0, so solarizing with threshold 0 changes nothing. */
  lemma SolarizeZeroIsIdentity(g: Grid)
    ensures SolarizeOf(g, 0) == g
  {
    GridExt(SolarizeOf(g, 0), g);
  }

  /** Every channel is below 256, so solarizing with threshold 256 is the negative. */
  lemma SolarizeFullIsNegative(g: Grid)
    ensures SolarizeOf(g, 256) == NegativeOf(g)
  {
    GridExt(SolarizeOf(g, 256), NegativeOf(g));
  }

  /** With threshold 128 every channel of the result lies in the upper half, 128..255. */
  lemma SolarizeHalfIsBright(g: Grid)
    ensures forall x, y :: 0 <= x < |g| && 0 <= y < |g[x]| ==>
      var q := SolarizeOf(g, 128)[x][y];
      128 <= q.r && 128 <= q.g && 128 <= q.b
  {
  }

  /** Black stays black and white stays white: black_and_white is idempotent. */
  lemma BlackAndWhiteIdempotent(g: Grid)
    ensures BlackAndWhiteOf(BlackAndWhiteOf(g)) == BlackAndWhiteOf(g)
  {
    GridExt(BlackAndWhiteOf(BlackAndWhiteOf(g)), BlackAndWhiteOf(g));
  }

  /** Graying an image first does not change its black-and-white version. */
  lemma BlackAndWhiteOfGrayscale(g: Grid)
    ensures BlackAndWhiteOf(GrayscaleOf(g)) == BlackAndWhiteOf(g)
  {
    forall x, y | 0 <= x < |g| && 0 <= y < |g[x]|
      ensures BlackAndWhiteOf(GrayscaleOf(g))[x][y] == BlackAndWhiteOf(g)[x][y]
    {
      BrightnessOfGray(Brightness(g[x][y]));
    }
    GridExt(BlackAndWhiteOf(GrayscaleOf(g)), BlackAndWhiteOf(g));
  }

  /** Black, medium gray and white are each mapped to themselves. */
  lemma BlackAndWhiteAndGrayIdempotent(g: Grid)
    ensures BlackAndWhiteAndGrayOf(BlackAndWhiteAndGrayOf(g)) == BlackAndWhiteAndGrayOf(g)
  {
    GridExt(BlackAndWhiteAndGrayOf(BlackAndWhiteAndGrayOf(g)), BlackAndWhiteAndGrayOf(g));
  }

  /** Graying an image first does not change its three-tone version. */
  lemma BlackAndWhiteAndGrayOfGrayscale(g: Grid)
    ensures BlackAndWhiteAndGrayOf(GrayscaleOf(g)) == BlackAndWhiteAndGrayOf(g)
  {
    forall x, y | 0 <= x < |g| && 0 <= y < |g[x]|
      ensures BlackAndWhiteAndGrayOf(GrayscaleOf(g))[x][y] == BlackAndWhiteAndGrayOf(g)[x][y]
    {
      BrightnessOfGray(Brightness(g[x][y]));
    }
    GridExt(BlackAndWhiteAndGrayOf(GrayscaleOf(g)), BlackAndWhiteAndGrayOf(g));
  }

  /** Channels already at 0 or 255 stay there: extreme_contrast is idempotent. */
  lemma ExtremeContrastIdempotent(g: Grid)
    ensures ExtremeContrastOf(ExtremeContrastOf(g)) == ExtremeContrastOf(g)
  {
    GridExt(ExtremeContrastOf(ExtremeContrastOf(g)), ExtremeContrastOf(g));
  }

  /** On a gray image, thresholding each channel is thresholding the brightness. */
  lemma ExtremeContrastOfGrayscale(g: Grid)
    ensures ExtremeContrastOf(GrayscaleOf(g)) == BlackAndWhiteOf(g)
  {
    GridExt(ExtremeContrastOf(GrayscaleOf(g)), BlackAndWhiteOf(g));
  }

  /** Every channel of a posterized image is one of the four quadrant midpoints. */
  lemma PosterizePalette(g: Grid)
    ensures forall x, y :: 0 <= x < |g| && 0 <= y < |g[x]| ==>
      var q := PosterizeOf(g)[x][y];
      q.r in {31, 95, 159, 223} && q.g in {31, 95, 159, 223} && q.b in {31, 95, 159, 223}
  {
  }

  /** Posterizing a posterized image changes nothing. */
  lemma PosterizeIdempotent(g: Grid)
    ensures PosterizeOf(PosterizeOf(g)) == PosterizeOf(g)
  {
    forall x, y | 0 <= x < |g| && 0 <= y < |g[x]|
      ensures PosterizeOf(PosterizeOf(g))[x][y] == PosterizeOf(g)[x][y]
    {
      var p := g[x][y];
      AdjustComponentIdempotent(p.r);
      AdjustComponentIdempotent(p.g);
      AdjustComponentIdempotent(p.b);
    }
    GridExt(PosterizeOf(PosterizeOf(g)), PosterizeOf(g));
  }

  /**
    An image that is medium gray (128, 128, 128) everywhere: the three-tone
    filter leaves it as it is, extreme contrast turns it white, and posterize
    turns it into (159, 159, 159).
  */
  lemma MidGrayImage(g: Grid)
    requires Uniform(g, Gray)
    ensures BlackAndWhiteAndGrayOf(g) == g
    ensures Uniform(ExtremeContrastOf(g), White)
    ensures Uniform(PosterizeOf(g), Pixel(159, 159, 159))
  {
    GridExt(BlackAndWhiteAndGrayOf(g), g);
  }
}
