/**
  The neighbourhood filters: each output pixel depends on a fixed window of
  input pixels around it.

  Each filter copies the image and then overwrites only the interior pixels,
  those with 1 <= x < width - 1 and 1 <= y < height - 1, visiting them row by
  row.  Every neighbour it reads is read from the original image, never from
  the copy being written, and the one-pixel border of the copy keeps the
  input's colours.
*/
module NeighborhoodFilters {
  import opened Raster
  import opened ColorMath

  /** One of the three colour components of a pixel. */
  datatype Component = Red | Green | Blue

  function Intensity(p: Pixel, c: Component): Channel
  {
    match c
    case Red => p.r
    case Green => p.g
    case Blue => p.b
  }

  /** How much brighter `p` is than `q` (negative when it is darker). */
  function Contrast(p: Pixel, q: Pixel): int
  {
    Brightness(p) - Brightness(q)
  }

  /** The sum of nine channel values, rounded down after division by 9. */
  function Average9(a: Channel, b: Channel, c: Channel, d: Channel, e: Channel,
                    f: Channel, g: Channel, h: Channel, i: Channel): (m: Channel)
    ensures 9 * m <= a + b + c + d + e + f + g + h + i < 9 * m + 9
  {
    (a + b + c + d + e + f + g + h + i) / 9
  }

  // ---------------------------------------------------------------------------
  // The value of one interior pixel

  /** detect_edges: white when the pixel is less than `threshold` brighter than the one below it. */
  function DetectEdgesAt(g: Grid, x: int, y: int, threshold: real): Pixel
    requires Rectangular(g) && Interior(g, x, y)
  {
    if (Contrast(g[x][y], g[x][y + 1]) as real) < threshold then White else Black
  }

  /**
    detect_edges_better: black when the pixel is more than `threshold` brighter
    than the one below it or than the one to its right.
  */
  function DetectEdgesBetterAt(g: Grid, x: int, y: int, threshold: real): Pixel
    requires Rectangular(g) && Interior(g, x, y)
  {
    if (Contrast(g[x][y], g[x][y + 1]) as real) > threshold
       || (Contrast(g[x][y], g[x + 1][y]) as real) > threshold
    then Black
    else White
  }

  /** The floored mean of nine pixels, channel by channel. */
  function Mean9(top: Pixel, left: Pixel, bottom: Pixel, right: Pixel, center: Pixel,
                 topRight: Pixel, topLeft: Pixel, bottomRight: Pixel, bottomLeft: Pixel): Pixel
  {
    Pixel(
      Average9(top.r, left.r, bottom.r, right.r, center.r, topRight.r, topLeft.r, bottomRight.r, bottomLeft.r),
      Average9(top.g, left.g, bottom.g, right.g, center.g, topRight.g, topLeft.g, bottomRight.g, bottomLeft.g),
      Average9(top.b, left.b, bottom.b, right.b, center.b, topRight.b, topLeft.b, bottomRight.b, bottomLeft.b))
  }

  /** blur_better: each channel is the floored mean of the 3x3 window centred on the pixel. */
  function BlurBetterAt(g: Grid, x: int, y: int): Pixel
    requires Rectangular(g) && Interior(g, x, y)
  {
    Mean9(g[x][y - 1], g[x - 1][y], g[x][y + 1], g[x + 1][y], g[x][y],
          g[x + 1][y - 1], g[x - 1][y - 1], g[x + 1][y + 1], g[x - 1][y + 1])
  }

  // ---------------------------------------------------------------------------
  // The filters' results as grid values

  function DetectEdgesOf(g: Grid, threshold: real): (r: Grid)
    requires Rectangular(g)
    ensures SameShape(r, g)
    ensures forall x, y {:trigger r[x][y]} :: 0 <= x < |g| && 0 <= y < |g[x]| && !Interior(g, x, y) ==> r[x][y] == g[x][y]
  {
    seq(|g|, x requires 0 <= x < |g| => seq(|g[x]|, y requires 0 <= y < |g[x]| =>
      if Interior(g, x, y) then DetectEdgesAt(g, x, y, threshold) else g[x][y]))
  }

  function DetectEdgesBetterOf(g: Grid, threshold: real): (r: Grid)
    requires Rectangular(g)
    ensures SameShape(r, g)
    ensures forall x, y {:trigger r[x][y]} :: 0 <= x < |g| && 0 <= y < |g[x]| && !Interior(g, x, y) ==> r[x][y] == g[x][y]
  {
    seq(|g|, x requires 0 <= x < |g| => seq(|g[x]|, y requires 0 <= y < |g[x]| =>
      if Interior(g, x, y) then DetectEdgesBetterAt(g, x, y, threshold) else g[x][y]))
  }

  function BlurBetterOf(g: Grid): (r: Grid)
    requires Rectangular(g)
    ensures SameShape(r, g)
    ensures forall x, y {:trigger r[x][y]} :: 0 <= x < |g| && 0 <= y < |g[x]| && !Interior(g, x, y) ==> r[x][y] == g[x][y]
  {
    seq(|g|, x requires 0 <= x < |g| => seq(|g[x]|, y requires 0 <= y < |g[x]| =>
      if Interior(g, x, y) then BlurBetterAt(g, x, y) else g[x][y]))
  }

  // ---------------------------------------------------------------------------
  // The filters

  /** The threshold is a number; an integer or a float threshold is a real here. */
  method DetectEdges(image: array2<Pixel>, threshold: real) returns (result: array2<Pixel>)
    ensures fresh(result)
    ensures unchanged(image)
    ensures result.Length0 == image.Length0 && result.Length1 == image.Length1
    ensures Contents(result) == DetectEdgesOf(Contents(image), threshold)
  {
    result := Copy(image);
    ghost var g := Contents(image);
    ghost var want := DetectEdgesOf(g, threshold);
    var width, height := image.Length0, image.Length1;
    var y := 1;
    while y < height - 1
      invariant 1 <= y && (y == 1 || y <= height - 1)
      invariant forall i, j {:trigger result[i, j]} :: 0 <= i < width && 0 <= j < height ==>
        result[i, j] == if j < y then want[i][j] else g[i][j]
    {
      var x := 1;
      while x < width - 1
        invariant 1 <= x && (x == 1 || x <= width - 1)
        invariant forall i, j {:trigger result[i, j]} :: 0 <= i < width && 0 <= j < height ==>
          result[i, j] == if j < y || (j == y && i < x) then want[i][j] else g[i][j]
      {
        var pixel, pixelBelow := image[x, y], image[x, y + 1];
        var contrastCheck := Brightness(pixel) - Brightness(pixelBelow);
        assert want[x][y] == DetectEdgesAt(g, x, y, threshold);
        if (contrastCheck as real) < threshold {
          result[x, y] := White;
        } else {
          result[x, y] := Black;
        }
        x := x + 1;
      }
      y := y + 1;
    }
    GridExt(Contents(result), want);
  }

  method DetectEdgesBetter(image: array2<Pixel>, threshold: real) returns (result: array2<Pixel>)
    ensures fresh(result)
    ensures unchanged(image)
    ensures result.Length0 == image.Length0 && result.Length1 == image.Length1
    ensures Contents(result) == DetectEdgesBetterOf(Contents(image), threshold)
  {
    result := Copy(image);
    ghost var g := Contents(image);
    ghost var want := DetectEdgesBetterOf(g, threshold);
    var width, height := image.Length0, image.Length1;
    var y := 1;
    while y < height - 1
      invariant 1 <= y && (y == 1 || y <= height - 1)
      invariant forall i, j {:trigger result[i, j]} :: 0 <= i < width && 0 <= j < height ==>
        result[i, j] == if j < y then want[i][j] else g[i][j]
    {
      var x := 1;
      while x < width - 1
        invariant 1 <= x && (x == 1 || x <= width - 1)
        invariant forall i, j {:trigger result[i, j]} :: 0 <= i < width && 0 <= j < height ==>
          result[i, j] == if j < y || (j == y && i < x) then want[i][j] else g[i][j]
      {
        var pixel, pixelBelow, pixelRight := image[x, y], image[x, y + 1], image[x + 1, y];
        var contrastCheckBelow := Brightness(pixel) - Brightness(pixelBelow);
        var contrastCheckRight := Brightness(pixel) - Brightness(pixelRight);
        var newColor := if (contrastCheckBelow as real) > threshold || (contrastCheckRight as real) > threshold
                        then Black else White;
        assert newColor == want[x][y] by {
          assert pixel == g[x][y] && pixelBelow == g[x][y + 1] && pixelRight == g[x + 1][y];
          assert contrastCheckBelow == Contrast(pixel, pixelBelow);
          assert contrastCheckRight == Contrast(pixel, pixelRight);
          assert want[x][y] == DetectEdgesBetterAt(g, x, y, threshold);
        }
        result[x, y] := newColor;
        x := x + 1;
      }
      y := y + 1;
    }
    GridExt(Contents(result), want);
  }

  method BlurBetter(image: array2<Pixel>) returns (target: array2<Pixel>)
    ensures fresh(target)
    ensures unchanged(image)
    ensures target.Length0 == image.Length0 && target.Length1 == image.Length1
    ensures Contents(target) == BlurBetterOf(Contents(image))
  {
    target := Copy(image);
    ghost var g := Contents(image);
    ghost var want := BlurBetterOf(g);
    var width, height := image.Length0, image.Length1;
    var y := 1;
    while y < height - 1
      invariant 1 <= y && (y == 1 || y <= height - 1)
      invariant forall i, j {:trigger target[i, j]} :: 0 <= i < width && 0 <= j < height ==>
        target[i, j] == if j < y then want[i][j] else g[i][j]
    {
      var x := 1;
      while x < width - 1
        invariant 1 <= x && (x == 1 || x <= width - 1)
        invariant forall i, j {:trigger target[i, j]} :: 0 <= i < width && 0 <= j < height ==>
          target[i, j] == if j < y || (j == y && i < x) then want[i][j] else g[i][j]
      {
        var top, left, bottom, right, center := image[x, y - 1], image[x - 1, y], image[x, y + 1], image[x + 1, y], image[x, y];
        var topRight, topLeft := image[x + 1, y - 1], image[x - 1, y - 1];
        var bottomRight, bottomLeft := image[x + 1, y + 1], image[x - 1, y + 1];
        // Average each channel over the nine pixels.
        var newRed := Average9(top.r, left.r, bottom.r, right.r, center.r, topRight.r, topLeft.r, bottomRight.r, bottomLeft.r);
        var newGreen := Average9(top.g, left.g, bottom.g, right.g, center.g, topRight.g, topLeft.g, bottomRight.g, bottomLeft.g);
        var newBlue := Average9(top.b, left.b, bottom.b, right.b, center.b, topRight.b, topLeft.b, bottomRight.b, bottomLeft.b);
        var newColor := Pixel(newRed, newGreen, newBlue);
        assert newColor == want[x][y] by {
          assert want[x][y] == BlurBetterAt(g, x, y);
        }
        target[x, y] := newColor;
        x := x + 1;
      }
      y := y + 1;
    }
    GridExt(Contents(target), want);
  }

  // ---------------------------------------------------------------------------
  // Laws

  /**
    Every interior pixel of detect_edges' result is white when the pixel is
    less than `threshold` brighter than the one below it, and black otherwise.
  */
  lemma DetectEdgesInterior(g: Grid, threshold: real)
    requires Rectangular(g)
    ensures forall x, y {:trigger DetectEdgesOf(g, threshold)[x][y]} :: Interior(g, x, y) ==>
      var q := DetectEdgesOf(g, threshold)[x][y];
      (q == White || q == Black) &&
      (q == White <==> (Brightness(g[x][y]) - Brightness(g[x][y + 1])) as real < threshold)
  {
    forall x, y | Interior(g, x, y)
      ensures DetectEdgesOf(g, threshold)[x][y] == DetectEdgesAt(g, x, y, threshold)
    {
    }
  }

  /**
    Every interior pixel of detect_edges_better's result is black when the
    pixel is more than `threshold` brighter than the one below it or than the
    one to its right, and white otherwise.
  */
  lemma DetectEdgesBetterInterior(g: Grid, threshold: real)
    requires Rectangular(g)
    ensures forall x, y {:trigger DetectEdgesBetterOf(g, threshold)[x][y]} :: Interior(g, x, y) ==>
      var q := DetectEdgesBetterOf(g, threshold)[x][y];
      (q == White || q == Black) &&
      (q == Black <==>
        (Brightness(g[x][y]) - Brightness(g[x][y + 1])) as real > threshold ||
        (Brightness(g[x][y]) - Brightness(g[x + 1][y])) as real > threshold)
  {
    forall x, y | Interior(g, x, y)
      ensures DetectEdgesBetterOf(g, threshold)[x][y] == DetectEdgesBetterAt(g, x, y, threshold)
    {
    }
  }

  /** The sum of one component over the 3x3 window centred on (x, y). */
  ghost function WindowSum(g: Grid, x: int, y: int, c: Component): int
    requires Rectangular(g) && Interior(g, x, y)
  {
    Intensity(g[x - 1][y - 1], c) + Intensity(g[x][y - 1], c) + Intensity(g[x + 1][y - 1], c)
    + Intensity(g[x - 1][y], c) + Intensity(g[x][y], c) + Intensity(g[x + 1][y], c)
    + Intensity(g[x - 1][y + 1], c) + Intensity(g[x][y + 1], c) + Intensity(g[x + 1][y + 1], c)
  }

  /**
    Every component of every interior pixel of blur_better's result is the
    sum of that component over the pixel's 3x3 window, divided by 9 and
    rounded down.
  */
  lemma BlurBetterInterior(g: Grid)
    requires Rectangular(g)
    ensures forall x, y, c :: Interior(g, x, y) ==>
      var m := Intensity(BlurBetterOf(g)[x][y], c);
      9 * m <= WindowSum(g, x, y, c) < 9 * m + 9
  {
    forall x, y, c | Interior(g, x, y)
      ensures 9 * Intensity(BlurBetterOf(g)[x][y], c) <= WindowSum(g, x, y, c) < 9 * Intensity(BlurBetterOf(g)[x][y], c) + 9
    {
      assert BlurBetterOf(g)[x][y] == BlurBetterAt(g, x, y);
    }
  }

  /** An image with no interior (width or height at most 2) comes back unchanged. */
  lemma NarrowImageUnchanged(g: Grid, threshold: real)
    requires Rectangular(g)
    requires Width(g) <= 2 || Height(g) <= 2
    ensures DetectEdgesOf(g, threshold) == g
    ensures DetectEdgesBetterOf(g, threshold) == g
    ensures BlurBetterOf(g) == g
  {
    GridExt(DetectEdgesOf(g, threshold), g);
    GridExt(DetectEdgesBetterOf(g, threshold), g);
    GridExt(BlurBetterOf(g), g);
  }

  /** On a flat image the contrast is 0: detect_edges paints the interior white iff 0 < threshold. */
  lemma DetectEdgesOfUniform(g: Grid, p: Pixel, threshold: real)
    requires Rectangular(g) && Uniform(g, p)
    ensures forall x, y :: Interior(g, x, y) ==>
      DetectEdgesOf(g, threshold)[x][y] == if 0.0 < threshold then White else Black
  {
  }

  /** On a flat image detect_edges_better paints the interior white iff 0 <= threshold. */
  lemma DetectEdgesBetterOfUniform(g: Grid, p: Pixel, threshold: real)
    requires Rectangular(g) && Uniform(g, p)
    ensures forall x, y :: Interior(g, x, y) ==>
      DetectEdgesBetterOf(g, threshold)[x][y] == if 0.0 <= threshold then White else Black
  {
  }

  /**
    Contrasts are whole numbers, so an edge that detect_edges marks with
    threshold t + 1 is marked by detect_edges_better with threshold t.
  */
  lemma DetectEdgesBetterFindsMore(g: Grid, threshold: real)
    requires Rectangular(g)
    ensures forall x, y :: Interior(g, x, y) && DetectEdgesOf(g, threshold + 1.0)[x][y] == Black ==>
      DetectEdgesBetterOf(g, threshold)[x][y] == Black
  {
  }

  /** Blurring a flat image changes nothing. */
  lemma BlurBetterOfUniform(g: Grid, p: Pixel)
    requires Rectangular(g) && Uniform(g, p)
    ensures BlurBetterOf(g) == g
  {
    GridExt(BlurBetterOf(g), g);
  }

  /** Every channel of `g` lies between `lo` and `hi`. */
  ghost predicate ChannelsWithin(g: Grid, lo: int, hi: int)
  {
    forall x, y :: 0 <= x < |g| && 0 <= y < |g[x]| ==>
      lo <= g[x][y].r <= hi && lo <= g[x][y].g <= hi && lo <= g[x][y].b <= hi
  }

  /** Blurring never takes a channel outside the range the input's channels span. */
  lemma BlurBetterWithinBounds(g: Grid, lo: int, hi: int)
    requires Rectangular(g) && ChannelsWithin(g, lo, hi)
    ensures ChannelsWithin(BlurBetterOf(g), lo, hi)
  {
    var r: Grid := BlurBetterOf(g);
    forall x, y | 0 <= x < |r| && 0 <= y < |r[x]|
      ensures lo <= r[x][y].r <= hi && lo <= r[x][y].g <= hi && lo <= r[x][y].b <= hi
    {
      if Interior(g, x, y) {
        assert g[x][y - 1].r <= hi && g[x - 1][y].r <= hi;
      }
    }
  }
}
