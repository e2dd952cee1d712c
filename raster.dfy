/**
 * Picture geometry shared by every copy of the preprocessor: the centre crop,
 * the largest centred square, and the corner radius `width // round_rate`.
 * A decoded picture is modelled by its size and the list of edits made to it;
 * its pixels belong to the imaging library.
 */
module Raster {
  import opened Results
  import opened RoundMask

  /** A crop box as `Image.crop` takes it: left, upper, right, lower; right and lower exclusive. */
  datatype Box = Box(left: int, upper: int, right: int, lower: int)

  /** What was done to a picture, in order. */
  datatype Edit =
    | Cropped(box: Box)
    | RoundTrimmed(radius: int, mask: seq<DrawCommand>, smoothed: bool)

  /** A picture: its size and the edits that produced it from the decoded file. */
  datatype Image = Image(width: nat, height: nat, edits: seq<Edit>)

  /** Why a preprocessing step raises. */
  datatype Failure =
    | Undecodable       // `Image.open` raised `UnidentifiedImageError`
    | ZeroDivision      // `size // round_rate` with `round_rate == 0`

  function Min(a: int, b: int): int
  {
    if a < b then a else b
  }

  /**
   * `crop_center(img, crop_width, crop_height)`: the box with integer-halved
   * offsets.  It is exactly `cw` by `ch`; when the crop fits, it lies inside
   * the picture and is centred, the right (lower) margin exceeding the left
   * (upper) one by at most one pixel.
   */
  function CropCenter(w: int, h: int, cw: int, ch: int): (b: Box)
    ensures b.right - b.left == cw && b.lower - b.upper == ch
    ensures 0 <= cw <= w ==> 0 <= b.left && b.right <= w && 0 <= (w - b.right) - b.left <= 1
    ensures 0 <= ch <= h ==> 0 <= b.upper && b.lower <= h && 0 <= (h - b.lower) - b.upper <= 1
  {
    Box((w - cw) / 2, (h - ch) / 2, (w + cw) / 2, (h + ch) / 2)
  }

  /** `image.crop(box)` on a box of non-negative size: a picture of the box's size, with the crop recorded after the earlier edits. */
  function Crop(img: Image, b: Box): (r: Image)
    requires b.left <= b.right && b.upper <= b.lower
    ensures r.width == b.right - b.left && r.height == b.lower - b.upper
    ensures |r.edits| == |img.edits| + 1 && r.edits[..|img.edits|] == img.edits && r.edits[|img.edits|] == Cropped(b)
  {
    Image(b.right - b.left, b.lower - b.upper, img.edits + [Cropped(b)])
  }

  /**
   * `crop_max_square(img)`: a square picture is returned as it is; any other
   * is cropped to the centred `min(w, h)` square.
   */
  function CropMaxSquare(img: Image): (r: Image)
    ensures r.width == r.height == Min(img.width, img.height)
    ensures img.width == img.height ==> r == img
    ensures img.width != img.height ==>
      var side := Min(img.width, img.height);
      var b := CropCenter(img.width, img.height, side, side);
      r.edits == img.edits + [Cropped(b)] &&
      0 <= b.left && b.right <= img.width && 0 <= b.upper && b.lower <= img.height
  {
    if img.width == img.height then
      img
    else
      var side := Min(img.width, img.height);
      Crop(img, CropCenter(img.width, img.height, side, side))
  }

  /**
   * Python's `a // b`: the floor of the quotient.  Dafny's `/` rounds toward
   * minus infinity only for a positive divisor, so a negative one is mirrored.
   */
  function FloorDiv(a: int, b: int): (q: int)
    requires b != 0
    ensures b > 0 ==> q * b <= a < q * b + b
    ensures b < 0 ==> q * b + b < a <= q * b
  {
    if b > 0 then a / b else (-a) / (-b)
  }

  /** `radius = width // round_rate`, which raises for a zero rate. */
  function Radius(width: int, rate: int): (r: Result<int, Failure>)
    ensures r.Err? <==> rate == 0
    ensures r.Err? ==> r.error == ZeroDivision
    ensures rate > 0 ==> r.Ok? && r.value * rate <= width < r.value * rate + rate
    ensures rate < 0 ==> r.Ok? && r.value * rate + rate < width <= r.value * rate
  {
    if rate == 0 then Err(ZeroDivision) else Ok(FloorDiv(width, rate))
  }

  /** For a positive rate, the radius of a picture lies between zero and its width. */
  lemma {:induction false} RadiusBounds(width: nat, rate: int)
    requires rate > 0
    ensures 0 <= Radius(width, rate).value <= width
  {
    var q := Radius(width, rate).value;
    QuotientBetween(width, rate, q);
  }

  /** A floor quotient of a non-negative dividend by a positive divisor lies between zero and the dividend. */
  lemma QuotientBetween(w: int, d: int, q: int)
    requires 0 <= w && d > 0 && q * d <= w < q * d + d
    ensures 0 <= q <= w
  {
    assert (q + 1) * d > 0;
    PositiveFactor(q + 1, d);
    assert q * d == q + q * (d - 1);
    NonNegativeProduct(q, d - 1);
  }

  lemma PositiveFactor(x: int, y: int)
    requires y > 0 && x * y > 0
    ensures x > 0
  {
  }

  lemma NonNegativeProduct(x: int, y: int)
    requires x >= 0 && y >= 0
    ensures x * y >= 0
  {
  }

  /** A larger round rate never gives a larger radius. */
  lemma {:induction false} RadiusAntitone(width: nat, a: int, b: int)
    requires 0 < a <= b
    ensures Radius(width, b).value <= Radius(width, a).value
  {
    var qa, qb := Radius(width, a).value, Radius(width, b).value;
    RadiusBounds(width, b);
    NonNegativeProduct(qb, b - a);
    assert qb * a <= width by {
      assert qb * b == qb * a + qb * (b - a);
    }
    assert (qa + 1 - qb) * a == qa * a + a - qb * a;
    PositiveFactor(qa + 1 - qb, a);
  }

  /** Round rate 2 makes the radius half the width, rounded down. */
  lemma RateTwoIsHalf(width: nat)
    ensures Radius(width, 2) == Ok(width / 2) && 2 * Radius(width, 2).value <= width < 2 * Radius(width, 2).value + 2
  {
  }

  /**
   * `get_image_trimmed_round_rectangle(img, radius)`: a copy of the picture of
   * the same size whose alpha channel is the rounded mask (smoothed when
   * `use_filter` is set); the picture passed in is a value and stays as it was.
   */
  function TrimRound(img: Image, radius: int, useFilter: bool): (r: Image)
    ensures r.width == img.width && r.height == img.height
    ensures |r.edits| == |img.edits| + 1 && r.edits[..|img.edits|] == img.edits
    ensures r.edits[|img.edits|] == RoundTrimmed(radius, MaskCommands(img.width, img.height, radius, radius), useFilter)
  {
    Image(img.width, img.height, img.edits + [RoundTrimmed(radius, MaskCommands(img.width, img.height, radius, radius), useFilter)])
  }
}
