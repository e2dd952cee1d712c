/**
 * The rounded-corner alpha mask of `get_round_mask`: an 8-bit ("L") image of
 * the picture's size, all zero, on which two full-bleed rectangles and four
 * corner pie slices are filled with 255.  The rectangles are rasterised here
 * pixel by pixel; how a pie slice is rasterised belongs to the imaging
 * library and is given as a parameter `pie`.
 */
module RoundMask {

  /** An inclusive rectangle as the drawing calls take it: `(x0, y0)` to `(x1, y1)`. */
  datatype Rect = Rect(x0: int, y0: int, x1: int, y1: int)
  {
    predicate Contains(x: int, y: int)
    {
      x0 <= x <= x1 && y0 <= y <= y1
    }
  }

  /** One fill call on the mask: `draw.rectangle(rect)` or `draw.pieslice(rect, start, end)`. */
  datatype DrawCommand =
    | FillRectangle(rect: Rect)
    | FillPieSlice(rect: Rect, start: int, end: int)

  /** How the library rasterises a pie slice: does the slice in `rect` from `start` to `end` degrees cover `(x, y)`. */
  type PieRaster = (Rect, int, int, int, int) -> bool

  /** The value of `"#ffffff"` on an 8-bit greyscale mask. */
  const Opaque: int := 255

  /** The value every pixel of `Image.new("L", size, 0)` starts with. */
  const Transparent: int := 0

  /**
   * The six fills of `get_round_mask`, in drawing order, with a horizontal
   * radius `rx` and a vertical radius `ry` (the copies that take one radius
   * `r` call this with `rx == ry == r`).
   */
  function MaskCommands(w: int, h: int, rx: int, ry: int): (r: seq<DrawCommand>)
    ensures |r| == 6 && r[0].FillRectangle? && r[1].FillRectangle?
    ensures forall k :: 2 <= k < 6 ==>
      r[k].FillPieSlice? && r[k].rect.x1 - r[k].rect.x0 == 2 * rx && r[k].rect.y1 - r[k].rect.y0 == 2 * ry
    ensures r[2].rect.x0 == 0 && r[2].rect.y0 == 0 && r[3].rect.x0 == 0 && r[3].rect.y1 == h - 1
    ensures r[4].rect.x1 == w - 1 && r[4].rect.y1 == h - 1 && r[5].rect.x1 == w - 1 && r[5].rect.y0 == 0
  {
    [ FillRectangle(Rect(0, ry, w - 1, h - 1 - ry)),
      FillRectangle(Rect(rx, 0, w - 1 - rx, h - 1)),
      FillPieSlice(Rect(0, 0, rx * 2, ry * 2), 180, 270),
      FillPieSlice(Rect(0, h - 1 - ry * 2, rx * 2, h - 1), 90, 180),
      FillPieSlice(Rect(w - 1 - rx * 2, h - 1 - ry * 2, w - 1, h - 1), 0, 180),
      FillPieSlice(Rect(w - 1 - rx * 2, 0, w - 1, ry * 2), 270, 360) ]
  }

  /** Each band comes out inverted, far edge before near edge, exactly when its side is shorter than `2r + 1`. */
  lemma BandsInverted(w: int, h: int, r: int)
    ensures var cmds := MaskCommands(w, h, r, r);
      (cmds[0].rect.y1 < cmds[0].rect.y0 <==> h < 2 * r + 1) &&
      (cmds[1].rect.x1 < cmds[1].rect.x0 <==> w < 2 * r + 1)
  {
  }

  /** Does the fill `c` paint pixel `(x, y)`. */
  predicate Covers(c: DrawCommand, x: int, y: int, pie: PieRaster)
  {
    match c
    case FillRectangle(rect) => rect.Contains(x, y)
    case FillPieSlice(rect, start, end) => pie(rect, start, end, x, y)
  }

  /** Does some fill in `cmds` paint `(x, y)`. */
  predicate Painted(cmds: seq<DrawCommand>, x: int, y: int, pie: PieRaster)
  {
    cmds != [] && (Painted(cmds[..|cmds| - 1], x, y, pie) || Covers(cmds[|cmds| - 1], x, y, pie))
  }

  /** The mask value after drawing `cmds` on a zero mask. */
  function MaskValue(cmds: seq<DrawCommand>, x: int, y: int, pie: PieRaster): int
  {
    if Painted(cmds, x, y, pie) then Opaque else Transparent
  }

  /** Painted by the sequence exactly when painted by one of its fills. */
  lemma {:induction false} PaintedSome(cmds: seq<DrawCommand>, x: int, y: int, pie: PieRaster)
    ensures Painted(cmds, x, y, pie) <==> exists k :: 0 <= k < |cmds| && Covers(cmds[k], x, y, pie)
  {
    if cmds != [] {
      var init := cmds[..|cmds| - 1];
      PaintedSome(init, x, y, pie);
      if Painted(init, x, y, pie) {
        var k :| 0 <= k < |init| && Covers(init[k], x, y, pie);
        assert cmds[k] == init[k];
      }
      if exists k :: 0 <= k < |cmds| && Covers(cmds[k], x, y, pie) {
        var k :| 0 <= k < |cmds| && Covers(cmds[k], x, y, pie);
        if k < |init| { assert init[k] == cmds[k]; }
      }
    }
  }

  /**
   * Every pixel of a `w` by `h` mask lies in one of the two bands or in one of
   * the four corner pie boxes, whatever the radius: the six fills leave no
   * pixel outside all of their boxes.
   */
  lemma BandsAndCornersTile(w: int, h: int, r: int, x: int, y: int)
    requires 0 <= r && 0 <= x < w && 0 <= y < h
    ensures var cmds := MaskCommands(w, h, r, r);
      cmds[0].rect.Contains(x, y) || cmds[1].rect.Contains(x, y) ||
      exists k :: 2 <= k < 6 && cmds[k].rect.Contains(x, y)
  {
    var cmds := MaskCommands(w, h, r, r);
    if !cmds[0].rect.Contains(x, y) && !cmds[1].rect.Contains(x, y) {
      if x < r && y < r { assert cmds[2].rect.Contains(x, y); }
      else if x < r { assert cmds[3].rect.Contains(x, y); }
      else if y < r { assert cmds[5].rect.Contains(x, y); }
      else { assert cmds[4].rect.Contains(x, y); }
    }
  }

  /**
   * The pixels of the two bands are opaque whatever the library does with
   * pie slices; with radius 0 the bands are the whole mask.
   */
  lemma BandsOpaque(w: int, h: int, r: int, x: int, y: int, pie: PieRaster)
    requires 0 <= x < w && 0 <= y < h
    requires (r <= y <= h - 1 - r) || (r <= x <= w - 1 - r)
    ensures MaskValue(MaskCommands(w, h, r, r), x, y, pie) == Opaque
  {
    var cmds := MaskCommands(w, h, r, r);
    PaintedSome(cmds, x, y, pie);
    if r <= y <= h - 1 - r { assert Covers(cmds[0], x, y, pie); }
    else { assert Covers(cmds[1], x, y, pie); }
  }

  /** A radius of zero leaves the whole mask opaque. */
  lemma ZeroRadiusOpaque(w: int, h: int, x: int, y: int, pie: PieRaster)
    requires 0 <= x < w && 0 <= y < h
    ensures MaskValue(MaskCommands(w, h, 0, 0), x, y, pie) == Opaque
  {
    BandsOpaque(w, h, 0, x, y, pie);
  }

  /**
   * With one radius `r`, every corner box spans `2r + 1` pixels each way and
   * touches its own corner of the mask; the four slices take the angles
   * 180-270, 90-180, 0-180 (half a turn, not a quarter) and 270-360.
   */
  lemma CornerBoxes(w: int, h: int, r: int)
    ensures var cmds := MaskCommands(w, h, r, r);
      (forall k :: 2 <= k < 6 ==>
         cmds[k].FillPieSlice? &&
         cmds[k].rect.x1 - cmds[k].rect.x0 == 2 * r && cmds[k].rect.y1 - cmds[k].rect.y0 == 2 * r) &&
      cmds[2].rect.x0 == 0 && cmds[2].rect.y0 == 0 &&
      cmds[3].rect.x0 == 0 && cmds[3].rect.y1 == h - 1 &&
      cmds[4].rect.x1 == w - 1 && cmds[4].rect.y1 == h - 1 &&
      cmds[5].rect.x1 == w - 1 && cmds[5].rect.y0 == 0 &&
      (cmds[2].start, cmds[2].end) == (180, 270) && (cmds[3].start, cmds[3].end) == (90, 180) &&
      (cmds[4].start, cmds[4].end) == (0, 180) && (cmds[5].start, cmds[5].end) == (270, 360)
  {
  }

  /**
   * On a square of odd side `2r + 1` (radius `side // 2`, round rate 2) each
   * of the four pie boxes is the whole mask, so the slices together draw the
   * inscribed disc.
   */
  lemma OddSquareFullCircle(side: int, r: int)
    requires side == 2 * r + 1 && r >= 0
    ensures forall k :: 2 <= k < 6 ==> MaskCommands(side, side, r, r)[k].rect == Rect(0, 0, side - 1, side - 1)
  {
  }

  /**
   * The mask buffer: an 8-bit image of a fixed size with the drawing calls
   * made on it so far.
   */
  class MaskCanvas {
    const width: nat
    const height: nat
    const pixels: array2<int>
    ghost var draws: seq<DrawCommand>

    ghost predicate Valid()
      reads this
    {
      pixels.Length0 == width && pixels.Length1 == height
    }

    /** Every pixel holds what the recorded draws give it. */
    ghost predicate Shows(pie: PieRaster)
      reads this, pixels
      requires Valid()
    {
      forall x, y :: 0 <= x < width && 0 <= y < height ==> pixels[x, y] == MaskValue(draws, x, y, pie)
    }

    /** `Image.new("L", (w, h), 0)` */
    constructor (w: nat, h: nat)
      ensures Valid() && width == w && height == h && fresh(pixels)
      ensures draws == []
      ensures forall pie :: Shows(pie)
    {
      width, height := w, h;
      draws := [];
      pixels := new int[w, h]((x, y) => Transparent);
    }

    /** `draw.rectangle(rect, fill="#ffffff")`: fills the part of `rect` inside the mask. */
    method Rectangle(rect: Rect)
      requires Valid()
      modifies pixels, this`draws
      ensures Valid() && draws == old(draws) + [FillRectangle(rect)]
      ensures forall x, y :: 0 <= x < width && 0 <= y < height ==>
        pixels[x, y] == if rect.Contains(x, y) then Opaque else old(pixels[x, y])
    {
      // The rectangle clipped to the mask, as half-open ranges [xLo, xHi) and [yLo, yHi).
      var xLo := if rect.x0 < 0 then 0 else rect.x0;
      var xHi := if rect.x1 + 1 > width then width else rect.x1 + 1;
      if xHi < xLo { xHi := xLo; }
      var yLo := if rect.y0 < 0 then 0 else rect.y0;
      var yHi := if rect.y1 + 1 > height then height else rect.y1 + 1;
      if yHi < yLo { yHi := yLo; }
      var x := xLo;
      while x < xHi
        invariant xLo <= x <= xHi && draws == old(draws)
        invariant forall i, j :: 0 <= i < width && 0 <= j < height ==>
          pixels[i, j] == if xLo <= i < x && yLo <= j < yHi then Opaque else old(pixels[i, j])
      {
        var y := yLo;
        while y < yHi
          invariant yLo <= y <= yHi && draws == old(draws)
          invariant forall i, j :: 0 <= i < width && 0 <= j < height ==>
            pixels[i, j] == if (xLo <= i < x && yLo <= j < yHi) || (i == x && yLo <= j < y) then Opaque else old(pixels[i, j])
        {
          pixels[x, y] := Opaque;
          y := y + 1;
        }
        x := x + 1;
      }
      draws := draws + [FillRectangle(rect)];
    }

    /** `draw.pieslice(rect, start, end, fill="#ffffff")`, rasterised by `pie`. */
    method PieSlice(rect: Rect, start: int, end: int, pie: PieRaster)
      requires Valid()
      modifies pixels, this`draws
      ensures Valid() && draws == old(draws) + [FillPieSlice(rect, start, end)]
      ensures forall x, y :: 0 <= x < width && 0 <= y < height ==>
        pixels[x, y] == if pie(rect, start, end, x, y) then Opaque else old(pixels[x, y])
    {
      var x := 0;
      while x < width
        invariant 0 <= x <= width && draws == old(draws)
        invariant forall i, j :: 0 <= i < width && 0 <= j < height ==>
          pixels[i, j] == if i < x && pie(rect, start, end, i, j) then Opaque else old(pixels[i, j])
      {
        var y := 0;
        while y < height
          invariant 0 <= y <= height && draws == old(draws)
          invariant forall i, j :: 0 <= i < width && 0 <= j < height ==>
            pixels[i, j] == if (i < x || (i == x && j < y)) && pie(rect, start, end, i, j) then Opaque else old(pixels[i, j])
        {
          if pie(rect, start, end, x, y) {
            pixels[x, y] := Opaque;
          }
          y := y + 1;
        }
        x := x + 1;
      }
      draws := draws + [FillPieSlice(rect, start, end)];
    }

    /** Drawing one more command keeps the pixels in step with the draws. */
    method Draw(c: DrawCommand, pie: PieRaster)
      requires Valid() && Shows(pie)
      modifies pixels, this`draws
      ensures Valid() && Shows(pie) && draws == old(draws) + [c]
    {
      match c
      case FillRectangle(rect) => Rectangle(rect);
      case FillPieSlice(rect, start, end) => PieSlice(rect, start, end, pie);
      assert draws[..|draws| - 1] == old(draws);
    }
  }

  /**
   * `get_round_mask(img, r)`: a zero mask of the image's size with the six
   * fills drawn on it in order.  Every pixel ends up opaque exactly when one
   * of the six fills covers it.
   */
  method GetRoundMask(w: nat, h: nat, r: int, pie: PieRaster) returns (mask: MaskCanvas)
    ensures fresh(mask) && fresh(mask.pixels) && mask.Valid()
    ensures mask.width == w && mask.height == h
    ensures mask.draws == MaskCommands(w, h, r, r)
    ensures forall x, y :: 0 <= x < w && 0 <= y < h ==>
      mask.pixels[x, y] == MaskValue(MaskCommands(w, h, r, r), x, y, pie)
  {
    mask := new MaskCanvas(w, h);
    mask.Draw(FillRectangle(Rect(0, r, w - 1, h - 1 - r)), pie);
    mask.Draw(FillRectangle(Rect(r, 0, w - 1 - r, h - 1)), pie);
    mask.Draw(FillPieSlice(Rect(0, 0, r * 2, r * 2), 180, 270), pie);
    mask.Draw(FillPieSlice(Rect(0, h - 1 - r * 2, r * 2, h - 1), 90, 180), pie);
    mask.Draw(FillPieSlice(Rect(w - 1 - r * 2, h - 1 - r * 2, w - 1, h - 1), 0, 180), pie);
    mask.Draw(FillPieSlice(Rect(w - 1 - r * 2, 0, w - 1, r * 2), 270, 360), pie);
  }
}
