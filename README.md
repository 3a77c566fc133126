# Image_Manipulator filters in Dafny

This project models the integer filters of `Image_Manipulator.py`. Each filter
takes a Cimpl image and returns a filtered copy, leaving the original as it is.

An image is an `array2<Pixel>` indexed `[x, y]`. `Length0` is the width and
`Length1` the height. A `Pixel` has three `Channel` components, each an integer
in 0..255. Cimpl's primitives become array operations:

- `copy` is `Raster.Copy`;
- `get_color` is an array read and `set_color` an array write;
- `create_color` is the `Pixel` constructor.

Because the fields are `Channel`s, every filter must prove that each colour it
builds is in range.

Every filter is written twice:

- a **method** that copies the image and overwrites pixels in loops, in the
  same row-major order as the Python code;
- a **specification function** on `Grid`, the image as a value (`g[x][y]` is
  the pixel in column x, row y).

Each method's postcondition says that the new image's contents equal the
specification function applied to the input's contents. The laws of the
filters are lemmas about those functions.

Modules:

- `Raster`: pixels, grids, `Copy`, and `MapPixels`, the loop shared by the
  point filters.
- `ColorMath`: brightness, the fixed colours and `_adjust_component`.
- `PointFilters`: grayscale, negative, solarize, black_and_white,
  black_and_white_and_gray, extreme_contrast and posterize. Each rewrites
  every pixel on its own.
- `NeighborhoodFilters`: detect_edges, detect_edges_better and blur_better.
  Each visits only the interior, 1 <= x < width - 1 and 1 <= y < height - 1,
  and reads the neighbours of a pixel.
- `GeometricFilters`: flip_vertical and flip_horizontal. Each scatters
  interior pixels to their mirror positions.

A zero-sized image is not an error: the code has no check for it, copies the
image and runs loops that do nothing. The model follows the code, so such an
image yields an empty copy.

Two further points where the model follows the code:

- The neighbourhood filters and the flips never write the one-pixel border,
  which keeps the input's colours. In particular, the flips leave the frame
  unflipped.
- `flip_horizontal`'s docstring repeats the one of `flip_vertical`. The model
  follows the code, which mirrors rows: the pixel at (x, y) goes to
  (x, height - 1 - y).

## Model

| member | source | states |
|---|---|---|
| Raster.Copy | Image_Manipulator.py:23 | `copy` returns a fresh image with the same width, height and pixels, and leaves the original unchanged |
| Raster.MapPixels | Image_Manipulator.py:23-37 | the copy-then-overwrite loop of a point filter: every pixel of the result is f of the pixel at the same place, and the input is unchanged |
| ColorMath.Brightness | Image_Manipulator.py:29 | the brightness is the mean of the three channels rounded down: 3·level <= r+g+b < 3·level+3 |
| ColorMath.BrightnessOfGray | Image_Manipulator.py:29 | a pixel whose channels are all c has brightness c |
| ColorMath.AdjustComponent | Image_Manipulator.py:241-267 | the result is one of 31, 95, 159, 223; for an amount in 0..255 it lies in the same quadrant of 64 as the amount and is that quadrant's midpoint (value % 64 == 31); below 0 gives 31 and above 255 gives 223 |
| ColorMath.AdjustComponentExamples | Image_Manipulator.py:248-255 | the four documented examples: 10→31, 85→95, 142→159, 230→223 |
| ColorMath.AdjustComponentIdempotent | Image_Manipulator.py:258-267 | bucketing a midpoint returns the same midpoint |
| ColorMath.AdjustComponentMonotone | Image_Manipulator.py:258-267 | bucketing preserves the order of intensities |
| ColorMath.AdjustComponentError | Image_Manipulator.py:244-246 | a channel moves by at most 32 (between -31 and +32) when replaced by its quadrant's midpoint |
| PointFilters.GrayPixel | Image_Manipulator.py:29-34 | the gray pixel has three equal channels, each equal to the floor mean of the input's channels |
| PointFilters.Grayscale | Image_Manipulator.py:14-37 | returns a fresh image of the same size whose contents are `GrayscaleOf` of the input's; the input is unchanged |
| PointFilters.GrayscaleIdempotent | Image_Manipulator.py:24-35 | graying a gray image changes nothing |
| PointFilters.NegativePixel | Image_Manipulator.py:58 | each channel of the inverted pixel sums with the original channel to 255 |
| PointFilters.Negative | Image_Manipulator.py:44-61 | returns a fresh image of the same size whose contents are `NegativeOf` of the input's; the input is unchanged |
| PointFilters.NegativeInvolution | Image_Manipulator.py:57-59 | the negative of the negative is the original image |
| PointFilters.SolarizeChannel | Image_Manipulator.py:82-89 | a channel below the threshold is inverted (sums to 255 with the original); any other channel is kept |
| PointFilters.Solarize | Image_Manipulator.py:64-94 | returns a fresh image of the same size whose contents are `SolarizeOf` of the input's for the threshold; the input is unchanged |
| PointFilters.SolarizeZeroIsIdentity | Image_Manipulator.py:70 | threshold 0, the bottom of the documented range, leaves the image unchanged |
| PointFilters.SolarizeFullIsNegative | Image_Manipulator.py:70 | threshold 256, the top of the documented range, gives the negative |
| PointFilters.SolarizeHalfIsBright | Image_Manipulator.py:77-92 | with threshold 128 every channel of the result lies in 128..255 |
| PointFilters.BlackAndWhitePixel | Image_Manipulator.py:114-120 | the result is black or white, and black exactly when the brightness is below 128 |
| PointFilters.BlackAndWhite | Image_Manipulator.py:97-122 | returns a fresh image of the same size whose contents are `BlackAndWhiteOf` of the input's; the input is unchanged |
| PointFilters.BlackAndWhiteIdempotent | Image_Manipulator.py:106-120 | a two-tone image is its own black-and-white version |
| PointFilters.BlackAndWhiteOfGrayscale | Image_Manipulator.py:114-120 | graying first does not change the black-and-white result |
| PointFilters.BlackAndWhiteAndGrayPixel | Image_Manipulator.py:143-151 | the result is black, medium gray or white; black exactly when the brightness is below 85, white exactly when it is 171 or more |
| PointFilters.BlackAndWhiteAndGray | Image_Manipulator.py:125-153 | returns a fresh image of the same size whose contents are `BlackAndWhiteAndGrayOf` of the input's; the input is unchanged |
| PointFilters.BlackAndWhiteAndGrayIdempotent | Image_Manipulator.py:134-151 | a three-tone image is its own three-tone version |
| PointFilters.BlackAndWhiteAndGrayOfGrayscale | Image_Manipulator.py:143-151 | graying first does not change the three-tone result |
| PointFilters.ExtremeContrastChannel | Image_Manipulator.py:194-205 | each channel becomes 0 or 255, and 255 exactly when it was at least 128 |
| PointFilters.ExtremeContrast | Image_Manipulator.py:181-210 | returns a fresh image of the same size whose contents are `ExtremeContrastOf` of the input's; the input is unchanged |
| PointFilters.ExtremeContrastIdempotent | Image_Manipulator.py:193-208 | applying extreme contrast twice is the same as once |
| PointFilters.ExtremeContrastOfGrayscale | Image_Manipulator.py:193-208 | on a grayed image, extreme contrast equals black_and_white of the original |
| PointFilters.Posterize | Image_Manipulator.py:270-286 | returns a fresh image of the same size whose contents are `PosterizeOf` of the input's; the input is unchanged |
| PointFilters.PosterizePalette | Image_Manipulator.py:280-285 | every channel of a posterized image is one of 31, 95, 159, 223 |
| PointFilters.PosterizeIdempotent | Image_Manipulator.py:280-285 | posterizing a posterized image changes nothing |
| PointFilters.MidGrayImage | Image_Manipulator.py:125-286 | on an all-(128,128,128) image: the three-tone filter returns it unchanged, extreme contrast makes it all white, posterize makes it all (159,159,159) |
| NeighborhoodFilters.Average9 | Image_Manipulator.py:378-387 | the blur average is the floor of the mean of nine channels: 9·m <= sum < 9·m+9 |
| NeighborhoodFilters.DetectEdgesOf | Image_Manipulator.py:298-312 | the result has the input's shape and its one-pixel border equals the input's |
| NeighborhoodFilters.DetectEdgesBetterOf | Image_Manipulator.py:325-348 | the result has the input's shape and its one-pixel border equals the input's |
| NeighborhoodFilters.BlurBetterOf | Image_Manipulator.py:360-394 | the result has the input's shape and its one-pixel border equals the input's |
| NeighborhoodFilters.DetectEdges | Image_Manipulator.py:289-312 | returns a fresh image of the same size whose contents are `DetectEdgesOf` of the input's for the threshold; the input is unchanged |
| NeighborhoodFilters.DetectEdgesBetter | Image_Manipulator.py:315-348 | returns a fresh image of the same size whose contents are `DetectEdgesBetterOf` of the input's for the threshold; the input is unchanged |
| NeighborhoodFilters.BlurBetter | Image_Manipulator.py:351-394 | returns a fresh image of the same size whose contents are `BlurBetterOf` of the input's; the input is unchanged |
| NeighborhoodFilters.DetectEdgesInterior | Image_Manipulator.py:302-310 | each interior pixel is black or white, and white exactly when its brightness minus that of the pixel below is less than the threshold |
| NeighborhoodFilters.DetectEdgesBetterInterior | Image_Manipulator.py:334-346 | each interior pixel is black or white, and black exactly when its brightness exceeds that of the pixel below or of the pixel to the right by more than the threshold |
| NeighborhoodFilters.BlurBetterInterior | Image_Manipulator.py:366-389 | each channel of an interior pixel is the floor mean of that channel over the 3×3 window around it |
| NeighborhoodFilters.NarrowImageUnchanged | Image_Manipulator.py:299-300 | an image at most two pixels wide or high has no interior, and all three filters return it unchanged |
| NeighborhoodFilters.DetectEdgesOfUniform | Image_Manipulator.py:305-310 | on a single-colour image the interior becomes white if the threshold is positive and black otherwise |
| NeighborhoodFilters.DetectEdgesBetterOfUniform | Image_Manipulator.py:338-346 | on a single-colour image the interior becomes white if the threshold is non-negative and black otherwise |
| NeighborhoodFilters.DetectEdgesBetterFindsMore | Image_Manipulator.py:305-346 | every interior pixel that detect_edges marks black with threshold t + 1 is marked black by detect_edges_better with threshold t |
| NeighborhoodFilters.BlurBetterOfUniform | Image_Manipulator.py:378-387 | blurring a single-colour image changes nothing |
| NeighborhoodFilters.BlurBetterWithinBounds | Image_Manipulator.py:378-389 | if every channel of the input lies in lo..hi, so does every channel of the blurred image |
| GeometricFilters.FlipVerticalOf | Image_Manipulator.py:407-412 | the result has the input's shape, width and height, and its one-pixel border equals the input's |
| GeometricFilters.FlipHorizontalOf | Image_Manipulator.py:425-430 | the result has the input's shape, width and height, and its one-pixel border equals the input's |
| GeometricFilters.FlipVertical | Image_Manipulator.py:397-412 | returns a fresh image of the same size whose contents are `FlipVerticalOf` of the input's; the input is unchanged |
| GeometricFilters.FlipHorizontal | Image_Manipulator.py:415-430 | returns a fresh image of the same size whose contents are `FlipHorizontalOf` of the input's; the input is unchanged |
| GeometricFilters.FlipVerticalMirrors | Image_Manipulator.py:408-411 | an interior pixel (x, y) of the result is the input's pixel at (width - 1 - x, y), which is interior too |
| GeometricFilters.FlipHorizontalMirrors | Image_Manipulator.py:426-429 | an interior pixel (x, y) of the result is the input's pixel at (x, height - 1 - y), which is interior too |
| GeometricFilters.FlipVerticalInvolution | Image_Manipulator.py:408-411 | flipping about the vertical line twice gives back the original image |
| GeometricFilters.FlipHorizontalInvolution | Image_Manipulator.py:426-429 | flipping about the horizontal line twice gives back the original image |
| GeometricFilters.FlipsCommute | Image_Manipulator.py:408-429 | the two flips commute, and together they turn the interior half a turn: pixel (x, y) comes from (width - 1 - x, height - 1 - y) |
| GeometricFilters.FlipsOfNarrowImage | Image_Manipulator.py:408-409 | an image at most two pixels wide or high is returned unchanged by both flips |

## Left out

- `weighted_grayscale` (Image_Manipulator.py:156-178) and `sepia_tint` (Image_Manipulator.py:213-238): they compute in floating point, and Cimpl's float-to-int conversion in `create_color` is not part of this model.
- The test functions and the script entry point (Image_Manipulator.py:433 onward): they load, show and save images through files and windows, which is I/O.
- Cimpl itself is not part of this model. Its `copy`, `get_color`, `set_color` and `create_color` are modelled as array operations and the `Pixel` constructor. `create_color`'s conversion and clamping of out-of-range or float arguments is left out. Every modelled filter builds only in-range integer channels, and the `Channel` type proves this.
- Iteration by `for x, y, (r, g, b) in image` is modelled as a row-major loop over the original, which is only read. The seven point filters share that loop (`Raster.MapPixels`) instead of repeating it.
- PointFilters.Solarize: the threshold is an integer, as the docstring's `(Cimpl.Image, int)` says. A float threshold, which Python would also accept, is not modelled.
- NeighborhoodFilters.DetectEdges, NeighborhoodFilters.DetectEdgesBetter: the float threshold is an exact `real`. NaN, infinities and binary rounding of the threshold are not modelled.
- An error for images of width or height 0 is not modelled, because the code raises none.
