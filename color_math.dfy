/**
  The integer colour arithmetic the filters share: the brightness of a pixel,
  the fixed colours the tone filters write, and `_adjust_component`, the
  quadrant bucketing used by posterize.
*/
module ColorMath {
  import opened Raster

  const Black := Pixel(0, 0, 0)
  const Gray := Pixel(128, 128, 128)
  const White := Pixel(255, 255, 255)

  /** `(r + g + b) // 3`: the mean of the three channels, rounded down. */
  function Brightness(p: Pixel): (level: Channel)
    ensures 3 * level <= p.r + p.g + p.b < 3 * level + 3
  {
    (p.r + p.g + p.b) / 3
  }

  /** A pixel whose three channels are equal has that channel as its brightness. */
  lemma BrightnessOfGray(c: Channel)
    ensures Brightness(Pixel(c, c, c)) == c
  {
  }

  /**
    `_adjust_component`: split 0..255 into four quadrants of 64 and return the
    midpoint of the one `amount` lies in.  The comparisons are strict, so 64,
    128 and 192 open the next quadrant; amounts outside 0..255 fall into the
    first or the last quadrant.
  */
  function AdjustComponent(amount: int): (value: Channel)
    ensures value == 31 || value == 95 || value == 159 || value == 223
    ensures 0 <= amount <= 255 ==> value / 64 == amount / 64 && value % 64 == 31
    ensures amount < 0 ==> value == 31
    ensures 255 < amount ==> value == 223
  {
    if amount < 64 then 31
    else if amount < 128 then 95
    else if amount < 192 then 159
    else 223
  }

  /** The four examples of the function's documentation. */
  lemma AdjustComponentExamples()
    ensures AdjustComponent(10) == 31
    ensures AdjustComponent(85) == 95
    ensures AdjustComponent(142) == 159
    ensures AdjustComponent(230) == 223
  {
  }

  /** A midpoint lies in its own quadrant, so bucketing twice changes nothing. */
  lemma AdjustComponentIdempotent(amount: int)
    ensures AdjustComponent(AdjustComponent(amount)) == AdjustComponent(amount)
  {
  }

  /** Bucketing keeps the order of intensities. */
  lemma AdjustComponentMonotone(a: int, b: int)
    requires a <= b
    ensures AdjustComponent(a) <= AdjustComponent(b)
  {
  }

  /** A channel moves by at most 32 when it is replaced by its quadrant's midpoint. */
  lemma AdjustComponentError(amount: Channel)
    ensures -31 <= amount - AdjustComponent(amount) <= 32
  {
  }
}
