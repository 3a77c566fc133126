/**
  The geometric filters: they move pixels without changing their colours.

  Like the neighbourhood filters, each copies the image and then visits only
  the interior coordinates, 1 <= x < width - 1 and 1 <= y < height - 1, row by
  row.  Each visited pixel of the original is written to its mirror position
  in the copy.  The mirror of an interior coordinate is interior again, so the
  one-pixel border of the result keeps the input's colours: the frame is not
  flipped.
*/
module GeometricFilters {
  import opened Raster

  /** flip_vertical: mirror the interior about the vertical centre line. */
  function FlipVerticalOf(g: Grid): (r: Grid)
    requires Rectangular(g)
    ensures SameShape(r, g) && Rectangular(r) && Width(r) == Width(g) && Height(r) == Height(g)
    ensures forall x, y {:trigger r[x][y]} :: 0 <= x < |g| && 0 <= y < |g[x]| && !Interior(g, x, y) ==>
      r[x][y] == g[x][y]
  {
    seq(|g|, x requires 0 <= x < |g| => seq(|g[x]|, y requires 0 <= y < |g[x]| =>
      if Interior(g, x, y) then g[|g| - 1 - x][y] else g[x][y]))
  }

  /** flip_horizontal: mirror the interior about the horizontal centre line. */
  function FlipHorizontalOf(g: Grid): (r: Grid)
    requires Rectangular(g)
    ensures SameShape(r, g) && Rectangular(r) && Width(r) == Width(g) && Height(r) == Height(g)
    ensures forall x, y {:trigger r[x][y]} :: 0 <= x < |g| && 0 <= y < |g[x]| && !Interior(g, x, y) ==>
      r[x][y] == g[x][y]
  {
    seq(|g|, x requires 0 <= x < |g| => seq(|g[x]|, y requires 0 <= y < |g[x]| =>
      if Interior(g, x, y) then g[x][Height(g) - 1 - y] else g[x][y]))
  }

  method FlipVertical(image: array2<Pixel>) returns (result: array2<Pixel>)
    ensures fresh(result)
    ensures unchanged(image)
    ensures result.Length0 == image.Length0 && result.Length1 == image.Length1
    ensures Contents(result) == FlipVerticalOf(Contents(image))
  {
    result := Copy(image);
    ghost var g := Contents(image);
    ghost var want := FlipVerticalOf(g);
    var width, height := image.Length0, image.Length1;
    var y := 1;
    while y < height - 1
      invariant 1 <= y && (y == 1 || y <= height - 1)
      invariant forall i, j {:trigger result[i, j]} :: 0 <= i < width && 0 <= j < height ==>
        result[i, j] == if j < y then want[i][j] else g[i][j]
    {
      var x := 1;
      while x < width - 1
        invariant 1 <= x && (x == 1 || x <= width - 1)
        invariant forall i, j {:trigger result[i, j]} :: 0 <= i < width && 0 <= j < height ==>
          result[i, j] == if j < y || (j == y && width - 1 - i < x) then want[i][j] else g[i][j]
      {
        var col := image[x, y];
        assert col == want[width - (x + 1)][y];
        result[width - (x + 1), y] := col;
        x := x + 1;
      }
      y := y + 1;
    }
    GridExt(Contents(result), want);
  }

  method FlipHorizontal(image: array2<Pixel>) returns (result: array2<Pixel>)
    ensures fresh(result)
    ensures unchanged(image)
    ensures result.Length0 == image.Length0 && result.Length1 == image.Length1
    ensures Contents(result) == FlipHorizontalOf(Contents(image))
  {
    result := Copy(image);
    ghost var g := Contents(image);
    ghost var want := FlipHorizontalOf(g);
    var width, height := image.Length0, image.Length1;
    var y := 1;
    while y < height - 1
      invariant 1 <= y && (y == 1 || y <= height - 1)
      invariant forall i, j {:trigger result[i, j]} :: 0 <= i < width && 0 <= j < height ==>
        result[i, j] == if height - 1 - j < y then want[i][j] else g[i][j]
    {
      var x := 1;
      while x < width - 1
        invariant 1 <= x && (x == 1 || x <= width - 1)
        invariant forall i, j {:trigger result[i, j]} :: 0 <= i < width && 0 <= j < height ==>
          result[i, j] ==
            if height - 1 - j < y || (height - 1 - j == y && i < x) then want[i][j] else g[i][j]
      {
        var col := image[x, y];
        assert col == want[x][height - (y + 1)];
        result[x, height - (y + 1)] := col;
        x := x + 1;
      }
      y := y + 1;
    }
    GridExt(Contents(result), want);
  }

  /** Each interior pixel of flip_vertical's result comes from the mirror column of the same row. */
  lemma FlipVerticalMirrors(g: Grid, x: int, y: int)
    requires Rectangular(g) && Interior(g, x, y)
    ensures Interior(g, Width(g) - 1 - x, y)
    ensures Interior(FlipVerticalOf(g), x, y)
    ensures FlipVerticalOf(g)[x][y] == g[Width(g) - 1 - x][y]
  {
    assert |g[x]| == Height(g);
  }

  /** Each interior pixel of flip_horizontal's result comes from the mirror row of the same column. */
  lemma FlipHorizontalMirrors(g: Grid, x: int, y: int)
    requires Rectangular(g) && Interior(g, x, y)
    ensures Interior(g, x, Height(g) - 1 - y)
    ensures Interior(FlipHorizontalOf(g), x, y)
    ensures FlipHorizontalOf(g)[x][y] == g[x][Height(g) - 1 - y]
  {
    assert |g[x]| == Height(g);
  }

  /** Flipping twice about the vertical line gives back the original image. */
  lemma FlipVerticalInvolution(g: Grid)
    requires Rectangular(g)
    ensures FlipVerticalOf(FlipVerticalOf(g)) == g
  {
    var once := FlipVerticalOf(g);
    var twice := FlipVerticalOf(once);
    forall x, y | 0 <= x < |g| && 0 <= y < |g[x]|
      ensures twice[x][y] == g[x][y]
    {
      if Interior(g, x, y) {
        FlipVerticalMirrors(g, x, y);
        FlipVerticalMirrors(once, x, y);
        FlipVerticalMirrors(g, Width(g) - 1 - x, y);
      }
    }
    GridExt(twice, g);
  }

  /** Flipping twice about the horizontal line gives back the original image. */
  lemma FlipHorizontalInvolution(g: Grid)
    requires Rectangular(g)
    ensures FlipHorizontalOf(FlipHorizontalOf(g)) == g
  {
    var once := FlipHorizontalOf(g);
    var twice := FlipHorizontalOf(once);
    forall x, y | 0 <= x < |g| && 0 <= y < |g[x]|
      ensures twice[x][y] == g[x][y]
    {
      if Interior(g, x, y) {
        FlipHorizontalMirrors(g, x, y);
        FlipHorizontalMirrors(once, x, y);
        FlipHorizontalMirrors(g, x, Height(g) - 1 - y);
      }
    }
    GridExt(twice, g);
  }

  /** The two flips commute: either order turns the interior by half a turn. */
  lemma FlipsCommute(g: Grid)
    requires Rectangular(g)
    ensures FlipVerticalOf(FlipHorizontalOf(g)) == FlipHorizontalOf(FlipVerticalOf(g))
    ensures forall x, y :: Interior(g, x, y) ==>
      FlipVerticalOf(FlipHorizontalOf(g))[x][y] == g[Width(g) - 1 - x][Height(g) - 1 - y]
  {
    var h, v := FlipHorizontalOf(g), FlipVerticalOf(g);
    forall x, y | 0 <= x < |g| && 0 <= y < |g[x]|
      ensures FlipVerticalOf(h)[x][y] == FlipHorizontalOf(v)[x][y]
      ensures Interior(g, x, y) ==> FlipVerticalOf(h)[x][y] == g[Width(g) - 1 - x][Height(g) - 1 - y]
    {
      if Interior(g, x, y) {
        FlipVerticalMirrors(h, x, y);
        FlipHorizontalMirrors(g, Width(g) - 1 - x, y);
        FlipHorizontalMirrors(v, x, y);
        FlipVerticalMirrors(g, x, Height(g) - 1 - y);
      }
    }
    GridExt(FlipVerticalOf(h), FlipHorizontalOf(v));
  }

  /** An image with no interior (width or height at most 2) comes back unchanged. */
  lemma FlipsOfNarrowImage(g: Grid)
    requires Rectangular(g)
    requires Width(g) <= 2 || Height(g) <= 2
    ensures FlipVerticalOf(g) == g && FlipHorizontalOf(g) == g
  {
    GridExt(FlipVerticalOf(g), g);
    GridExt(FlipHorizontalOf(g), g);
  }
}
