/**
 * `preprocess` and `convert_img2ico` of the first generation (`src/img2ico.py`
 * and its two bundles): the picture is always cropped to its largest centred
 * square, then, when asked, trimmed to a rounded rectangle whose corner
 * radius is `side // round_rate`.
 */
module Img2Ico {
  import opened Results
  import opened RoundMask
  import opened Raster
  import opened Effects

  /**
   * `preprocess(image_input, do_round, round_rate)` on the decoded picture
   * (`None` when `Image.open` raises).  The result is a square of the smaller
   * side; the crop, if any, comes first and the rounding, if any, last, with
   * the radius `side // round_rate` and the mask smoothed.
   */
  function Preprocess(decoded: Option<Image>, doRound: bool, roundRate: int): (r: Result<Image, Failure>)
    ensures decoded.None? ==> r == Err(Undecodable)
    ensures decoded.Some? ==> (r.Err? <==> doRound && roundRate == 0)
    ensures decoded.Some? && r.Err? ==> r.error == ZeroDivision
    ensures r.Ok? ==>
      var img := decoded.value;
      var side := Min(img.width, img.height);
      var out := r.value;
      out.width == side && out.height == side &&
      |out.edits| == |img.edits| + (if img.width == img.height then 0 else 1) + (if doRound then 1 else 0) &&
      out.edits[..|img.edits|] == img.edits &&
      (img.width != img.height ==> out.edits[|img.edits|] == Cropped(CropCenter(img.width, img.height, side, side))) &&
      (doRound ==>
         var last := out.edits[|out.edits| - 1];
         last.RoundTrimmed? && last.smoothed && Radius(side, roundRate) == Ok(last.radius) &&
         last.mask == MaskCommands(side, side, last.radius, last.radius))
  {
    if decoded.None? then
      Err(Undecodable)
    else
      var img := CropMaxSquare(decoded.value);
      if !doRound then
        Ok(img)
      else
        var r := Radius(img.width, roundRate);
        if r.Err? then Err(r.error) else Ok(TrimRound(img, r.value, true))
  }

  /**
   * With round rate 2 on an odd square, the radius is half the side rounded
   * down, so every corner slice is drawn in a box covering the whole
   * picture: the mask is the inscribed disc.
   */
  lemma RateTwoOddSquareIsDisc(img: Image)
    requires img.width == img.height && img.width % 2 == 1
    ensures Preprocess(Some(img), true, 2).Ok?
    ensures var last := Preprocess(Some(img), true, 2).value.edits[|img.edits|];
      last.RoundTrimmed? && 2 * last.radius + 1 == img.width &&
      forall k :: 2 <= k < 6 ==> last.mask[k].rect == Rect(0, 0, img.width - 1, img.width - 1)
  {
    var side := img.width;
    RateTwoIsHalf(side);
    var r := side / 2;
    assert 2 * r + 1 == side;
    OddSquareFullCircle(side, r);
  }

  /**
   * With round rate 2 on an even square of side `s`, the radius is `s / 2`:
   * both full-bleed rectangles are empty (their far edge lies before their
   * near one), and every corner slice is drawn in a box `s + 1` pixels wide,
   * one more than the picture; the first reaches one pixel past its right
   * and lower edges.
   */
  lemma RateTwoEvenSquareOverhangs(img: Image)
    requires img.width == img.height && img.width % 2 == 0
    ensures Preprocess(Some(img), true, 2).Ok?
    ensures var last := Preprocess(Some(img), true, 2).value.edits[|img.edits|];
      var s := img.width;
      last.RoundTrimmed? && 2 * last.radius == s &&
      last.mask[0].rect.y1 < last.mask[0].rect.y0 && last.mask[1].rect.x1 < last.mask[1].rect.x0 &&
      last.mask[2].rect == Rect(0, 0, s, s) &&
      forall k :: 2 <= k < 6 ==> last.mask[k].rect.x1 - last.mask[k].rect.x0 == s && last.mask[k].rect.y1 - last.mask[k].rect.y0 == s
  {
    RateTwoIsHalf(img.width);
  }

  /** `convert_img2ico`: the preprocessed picture is saved to the output path, or the failure propagates. */
  function ConvertImg2Ico<P>(decoded: Option<Image>, output: string, doRound: bool, roundRate: int): (run: Run<P>)
    ensures run.raised.None? <==> Preprocess(decoded, doRound, roundRate).Ok?
    ensures run.raised.None? ==> run.effects == [SaveImage(Preprocess(decoded, doRound, roundRate).value, output)]
    ensures run.raised.Some? ==> run.effects == [] && run.raised.value == Preprocess(decoded, doRound, roundRate).error
  {
    match Preprocess(decoded, doRound, roundRate)
    case Ok(img) => Run([SaveImage(img, output)], None)
    case Err(e) => Run([], Some(e))
  }
}
