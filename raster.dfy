/**
  The pixel grid that every filter reads and writes.

  An image is an `array2<Pixel>` indexed `[x, y]`, with `Length0` its width and
  `Length1` its height, as Cimpl's `get_color(image, x, y)` indexes it.  The
  Cimpl primitives become array operations: `copy` is `Copy`, `get_color` an
  array read, `set_color` an array write, and `create_color` the `Pixel`
  constructor, whose `Channel` fields oblige every filter to prove that the
  colour it builds is in range.

  For stating what a filter computes, an image is also seen as a value: a
  `Grid`, the sequence of its columns, so that `g[x][y]` is the pixel at (x, y).
*/
module Raster {

  /** One colour component: an intensity from 0 to 255. */
  type Channel = c: int | 0 <= c <= 255

  /** An RGB colour. */
  datatype Pixel = Pixel(r: Channel, g: Channel, b: Channel)

  /** An image as a value: `g[x][y]` is the pixel in column x, row y. */
  type Grid = seq<seq<Pixel>>

  function Width(g: Grid): nat { |g| }

  /** The height of a grid, read off its first column (0 for an empty grid). */
  function Height(g: Grid): nat { if |g| == 0 then 0 else |g[0]| }

  /** Every column has the same length, so (x, y) is valid exactly inside the rectangle. */
  ghost predicate Rectangular(g: Grid)
  {
    forall x :: 0 <= x < |g| ==> |g[x]| == Height(g)
  }

  /** Two grids of the same shape. */
  ghost predicate SameShape(a: Grid, b: Grid)
  {
    |a| == |b| && forall x {:trigger a[x]} :: 0 <= x < |a| ==> |a[x]| == |b[x]|
  }

  /** (x, y) is inside the image and off its one-pixel border. */
  predicate Interior(g: Grid, x: int, y: int)
  {
    1 <= x < Width(g) - 1 && 1 <= y < Height(g) - 1
  }

  /** Every pixel of `g` is `p`. */
  ghost predicate Uniform(g: Grid, p: Pixel)
  {
    forall x, y :: 0 <= x < |g| && 0 <= y < |g[x]| ==> g[x][y] == p
  }

  /** Grids are equal when they have the same shape and agree at every coordinate. */
  lemma GridExt(a: Grid, b: Grid)
    requires SameShape(a, b)
    requires forall x, y :: 0 <= x < |a| && 0 <= y < |a[x]| ==> a[x][y] == b[x][y]
    ensures a == b
  {
    forall x | 0 <= x < |a|
      ensures a[x] == b[x]
    {
      assert |a[x]| == |b[x]|;
    }
  }

  /** The grid of a filter that replaces every pixel p by f(p). */
  function MapGrid(g: Grid, f: Pixel -> Pixel): (r: Grid)
    ensures SameShape(r, g)
    ensures forall x, y :: 0 <= x < |g| && 0 <= y < |g[x]| ==> r[x][y] == f(g[x][y])
  {
    seq(|g|, x requires 0 <= x < |g| => seq(|g[x]|, y requires 0 <= y < |g[x]| => f(g[x][y])))
  }

  /** The grid of the image held in `a`. */
  ghost function Contents(a: array2<Pixel>): (g: Grid)
    reads a
    ensures Rectangular(g) && Width(g) == a.Length0
    ensures a.Length0 > 0 ==> Height(g) == a.Length1
    ensures forall x :: 0 <= x < |g| ==> |g[x]| == a.Length1
    ensures forall x, y :: 0 <= x < a.Length0 && 0 <= y < a.Length1 ==> g[x][y] == a[x, y]
  {
    seq(a.Length0, x requires 0 <= x < a.Length0 reads a =>
      seq(a.Length1, y requires 0 <= y < a.Length1 reads a => a[x, y]))
  }

  /** Cimpl's `copy`: a new image of the same size holding the same pixels. */
  method Copy(image: array2<Pixel>) returns (result: array2<Pixel>)
    ensures fresh(result)
    ensures unchanged(image)
    ensures result.Length0 == image.Length0 && result.Length1 == image.Length1
    ensures Contents(result) == Contents(image)
  {
    result := new Pixel[image.Length0, image.Length1]((x, y) reads image =>
      if 0 <= x < image.Length0 && 0 <= y < image.Length1 then image[x, y] else Pixel(0, 0, 0));
    GridExt(Contents(result), Contents(image));
  }

  /**
    The shape shared by every point filter:

        new_image = copy(image)
        for x, y, (r, g, b) in image:
            set_color(new_image, x, y, f(r, g, b))

    Cimpl visits the pixels row by row (y outer, x inner).  Every pixel of the
    copy is overwritten with f of the pixel at the same place in the original,
    which is only read.
  */
  method MapPixels(image: array2<Pixel>, f: Pixel -> Pixel) returns (result: array2<Pixel>)
    ensures fresh(result)
    ensures unchanged(image)
    ensures result.Length0 == image.Length0 && result.Length1 == image.Length1
    ensures Contents(result) == MapGrid(Contents(image), f)
  {
    result := Copy(image);
    var width, height := image.Length0, image.Length1;
    var y := 0;
    while y < height
      invariant 0 <= y <= height
      invariant forall i, j :: 0 <= i < width && 0 <= j < y ==> result[i, j] == f(image[i, j])
    {
      var x := 0;
      while x < width
        invariant 0 <= x <= width
        invariant forall i, j :: 0 <= i < width && 0 <= j < y ==> result[i, j] == f(image[i, j])
        invariant forall i :: 0 <= i < x ==> result[i, y] == f(image[i, y])
      {
        result[x, y] := f(image[x, y]);
        x := x + 1;
      }
      y := y + 1;
    }
    GridExt(Contents(result), MapGrid(Contents(image), f));
  }
}
