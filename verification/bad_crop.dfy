/** `generate_subtle_bad_crop`: the rectangle each of the five strategies
    computes from the image size and the random draws, the slice taken with
    it, and the load failure. Every random draw is a parameter, and the range
    the source draws it from is a precondition. */
module BadCrop {
  import opened Geometry
  import opened Strategies

  /** `c == int(side * random.uniform(sh.lo / 100, sh.hi / 100))`: the
      truncated product lies between the truncated products of the bounds. */
  predicate Drawn(side: nat, sh: Share, c: int)
    ensures Drawn(side, sh, c) <==> 0 <= c && c * 100 <= side * sh.hi && side * sh.lo < (c + 1) * 100
  {
    side * sh.lo / 100 <= c <= side * sh.hi / 100
  }

  lemma {:induction false} MulMonotone(a: nat, b: nat, c: nat)
    requires b <= c
    ensures a * b <= a * c
  {
    if a > 0 {
      MulMonotone(a - 1, b, c);
      assert a * b == (a - 1) * b + b;
      assert a * c == (a - 1) * c + c;
    }
  }

  /** With every ratio between 0.6 and 0.9, a drawn crop size never reaches
      the side it is cut from, and it is positive once the side is 2 or more.
      A side of 1 gives a crop of 0: nothing in the source prevents it. */
  lemma DrawnBounds(side: nat, sh: Share, c: int)
    requires 60 <= sh.lo <= sh.hi <= 90
    requires Drawn(side, sh, c)
    ensures 0 <= c <= side
    ensures 1 <= side ==> c <= side - 1
    ensures 2 <= side ==> 1 <= c
    ensures side == 1 ==> c == 0
  {
    MulMonotone(side, 60, sh.lo);
    MulMonotone(side, sh.hi, 90);
    assert side * 60 / 100 <= c <= side * 90 / 100;
  }

  /** `randint(-int(side * 0.1), int(side * 0.1))`: the offset from the
      centre. */
  function OffsetRange(side: nat): (r: Range)
    ensures r.NonEmpty() && r.lo == -r.hi && r.hi * 10 <= side < (r.hi + 1) * 10
  {
    Range(-(side / 10), side / 10)
  }

  /** `randint(0, max(1, side - crop))`: the position along the axis the crop
      slides on in `cut_bottom`, `cut_top` and `cut_side`. */
  function EdgeRange(side: nat, crop: int): (r: Range)
    ensures r.lo == 0 && 1 <= r.hi && r.NonEmpty()
    ensures side - crop <= r.hi
  {
    Range(0, Max(1, side - crop))
  }

  /** `randint(int(side * 0.05), max(1, side - crop - int(side * 0.05)))`:
      the position in `awkward_but_not_extreme`. */
  function MarginRange(side: nat, crop: int): (r: Range)
    ensures r.lo * 20 <= side < (r.lo + 1) * 20
    ensures 1 <= r.hi && side - crop - r.lo <= r.hi
  {
    Range(side / 20, Max(1, side - crop - side / 20))
  }

  /** The `max(1, ...)` guard of the edge draw never widens the range past the
      last in-bounds position: on a non-empty axis the draw covers exactly the
      positions at which the crop fits. */
  lemma EdgeRangeIsPlacements(side: nat, crop: int, v: int)
    requires 1 <= side && 0 <= crop <= side - 1
    ensures EdgeRange(side, crop) == Range(0, side - crop)
    ensures EdgeRange(side, crop).Contains(v) <==> 0 <= v && v + crop <= side
  {
  }

  /** The margin draw of `awkward_but_not_extreme` is never empty, its
      `max(1, ...)` guard never takes effect on a non-empty axis, and every
      pick keeps a margin of `int(side * 0.05)` on both sides. */
  lemma MarginRangeKeepsMargins(side: nat, crop: int, v: int)
    requires Drawn(side, WidthShare(AwkwardButNotExtreme), crop)
    ensures MarginRange(side, crop).NonEmpty()
    ensures 1 <= side ==> MarginRange(side, crop) == Range(side / 20, side - crop - side / 20)
    ensures 1 <= side ==> (MarginRange(side, crop).Contains(v) <==> side / 20 <= v && v + crop + side / 20 <= side)
  {
    assert crop * 100 <= side * 80;
    assert side / 20 * 20 <= side;
  }

  /** Every `randint` a branch calls has a non-empty range, for every image
      size, so no branch raises `ValueError`. */
  lemma RandIntRangesNonEmpty(w: nat, h: nat, s: Strategy, cropW: int, cropH: int)
    requires Drawn(w, WidthShare(s), cropW) && Drawn(h, HeightShare(s), cropH)
    ensures s == SlightlyOffCenter ==> OffsetRange(w).NonEmpty() && OffsetRange(h).NonEmpty()
    ensures s == CutBottom || s == CutTop ==> EdgeRange(w, cropW).NonEmpty()
    ensures s == CutSide ==> EdgeRange(h, cropH).NonEmpty()
    ensures s == AwkwardButNotExtreme ==> MarginRange(w, cropW).NonEmpty() && MarginRange(h, cropH).NonEmpty()
  {
    if s == AwkwardButNotExtreme {
      MarginRangeKeepsMargins(w, cropW, 0);
      MarginRangeKeepsMargins(h, cropH, 0);
    }
  }

  /** The clamp of lines 54-55 never takes effect: with a crop of 65-80% of
      the side and an offset of at most a tenth of it, the shifted centred
      position always fits. */
  lemma OffCenterClampInert(side: nat, crop: int, offset: int)
    requires Drawn(side, WidthShare(SlightlyOffCenter), crop)
    requires OffsetRange(side).Contains(offset)
    ensures 0 <= side / 2 - crop / 2 + offset
    ensures side / 2 - crop / 2 + offset + crop <= side
  {
    assert crop * 100 <= side * 80;
    assert side * 65 < (crop + 1) * 100;
  }

  /** One axis of lines 50-55: the centred position shifted by the offset and
      clamped into the image. The position fits, it is exactly the shifted
      centred position, and it lies within a tenth of the side of the centred
      position. */
  lemma OffCenterAxis(side: nat, crop: int, offset: int)
    requires Drawn(side, WidthShare(SlightlyOffCenter), crop)
    requires OffsetRange(side).Contains(offset)
    ensures var p := Clamp(side / 2 - crop / 2 + offset, 0, side - crop);
      && 0 <= p && p + crop <= side
      && p == side / 2 - crop / 2 + offset
      && Abs(p - (side / 2 - crop / 2)) <= side / 10
  {
    OffCenterClampInert(side, crop, offset);
  }

  /** Lines 46-55: a crop of 65-80% of each side, centred, shifted by the
      drawn offsets and clamped into the image. The clamp never takes effect,
      so the crop sits exactly at the shifted centred position, within a tenth
      of each side of the centre, and never leaves the image. */
  function OffCenterCrop(w: nat, h: nat, cropW: int, cropH: int, offsetX: int, offsetY: int): (r: Rect)
    requires Drawn(w, WidthShare(SlightlyOffCenter), cropW)
    requires Drawn(h, HeightShare(SlightlyOffCenter), cropH)
    requires OffsetRange(w).Contains(offsetX) && OffsetRange(h).Contains(offsetY)
    ensures r.width == cropW && r.height == cropH
    ensures Contained(r, w, h)
    ensures Abs(r.x - (w / 2 - cropW / 2)) <= w / 10
    ensures Abs(r.y - (h / 2 - cropH / 2)) <= h / 10
    ensures r.x == w / 2 - cropW / 2 + offsetX
    ensures r.y == h / 2 - cropH / 2 + offsetY
  {
    OffCenterAxis(w, cropW, offsetX);
    OffCenterAxis(h, cropH, offsetY);
    var centerX, centerY := w / 2, h / 2;
    var x := Clamp(centerX - cropW / 2 + offsetX, 0, w - cropW);
    var y := Clamp(centerY - cropH / 2 + offsetY, 0, h - cropH);
    Rect(x, y, cropW, cropH)
  }

  /** Lines 59-63: the crop keeps the top edge and slides horizontally. */
  function CutBottomCrop(w: nat, h: nat, cropW: int, cropH: int, pickX: int): (r: Rect)
    requires Drawn(w, WidthShare(CutBottom), cropW)
    requires Drawn(h, HeightShare(CutBottom), cropH)
    requires EdgeRange(w, cropW).Contains(pickX)
    ensures r.width == cropW && r.height == cropH
    ensures r.y == 0
    ensures 1 <= w ==> Contained(r, w, h)
  {
    Rect(pickX, 0, cropW, cropH)
  }

  /** Lines 67-71: the crop keeps the bottom edge and slides horizontally. */
  function CutTopCrop(w: nat, h: nat, cropW: int, cropH: int, pickX: int): (r: Rect)
    requires Drawn(w, WidthShare(CutTop), cropW)
    requires Drawn(h, HeightShare(CutTop), cropH)
    requires EdgeRange(w, cropW).Contains(pickX)
    ensures r.width == cropW && r.height == cropH
    ensures 0 <= r.y && r.y + r.height == h
    ensures 1 <= w ==> Contained(r, w, h)
  {
    Rect(pickX, h - cropH, cropW, cropH)
  }

  /** Lines 75-82: the crop keeps the left edge or the right edge, as the coin
      says, and slides vertically. */
  function CutSideCrop(w: nat, h: nat, cropW: int, cropH: int, pickY: int, fromLeft: bool): (r: Rect)
    requires Drawn(w, WidthShare(CutSide), cropW)
    requires Drawn(h, HeightShare(CutSide), cropH)
    requires EdgeRange(h, cropH).Contains(pickY)
    ensures r.width == cropW && r.height == cropH
    ensures fromLeft ==> r.x == 0
    ensures !fromLeft ==> 0 <= r.x && r.x + r.width == w
    ensures 1 <= h ==> Contained(r, w, h)
  {
    var x := if fromLeft then 0 else w - cropW;
    Rect(x, pickY, cropW, cropH)
  }

  /** Lines 86-91: the crop keeps a margin of at least 5% (truncated) of each
      side on all four sides. */
  function AwkwardCrop(w: nat, h: nat, cropW: int, cropH: int, pickX: int, pickY: int): (r: Rect)
    requires Drawn(w, WidthShare(AwkwardButNotExtreme), cropW)
    requires Drawn(h, HeightShare(AwkwardButNotExtreme), cropH)
    requires MarginRange(w, cropW).Contains(pickX) && MarginRange(h, cropH).Contains(pickY)
    ensures r.width == cropW && r.height == cropH
    ensures 0 <= r.x && 0 <= r.y
    ensures 1 <= w ==> w / 20 <= r.x && r.x + r.width + w / 20 <= w
    ensures 1 <= h ==> h / 20 <= r.y && r.y + r.height + h / 20 <= h
    ensures 1 <= w && 1 <= h ==> Contained(r, w, h)
  {
    MarginRangeKeepsMargins(w, cropW, pickX);
    MarginRangeKeepsMargins(h, cropH, pickY);
    Rect(pickX, pickY, cropW, cropH)
  }

  /** The random draws of one call. `choice` is the index `random.choice`
      returns; `cropW` and `cropH` are the truncated `uniform` products;
      `offsetX`/`offsetY` are the centre offsets of `slightly_off_center`;
      `pickX`/`pickY` are the other `randint` results; `fromLeft` is the coin
      of `cut_side`. A branch ignores the draws it does not make. */
  datatype Draws = Draws(
    choice: int,
    cropW: int,
    cropH: int,
    offsetX: int,
    offsetY: int,
    pickX: int,
    pickY: int,
    fromLeft: bool)

  /** Each draw lies in the range the source draws it from, for the branch
      the strategy draw selects. */
  predicate ValidDraws(w: nat, h: nat, d: Draws) {
    && 0 <= d.choice < |StrategyNames|
    && Drawn(w, WidthShare(Select(d.choice)), d.cropW)
    && Drawn(h, HeightShare(Select(d.choice)), d.cropH)
    && match Select(d.choice)
       case SlightlyOffCenter => OffsetRange(w).Contains(d.offsetX) && OffsetRange(h).Contains(d.offsetY)
       case CutBottom => EdgeRange(w, d.cropW).Contains(d.pickX)
       case CutTop => EdgeRange(w, d.cropW).Contains(d.pickX)
       case CutSide => EdgeRange(h, d.cropH).Contains(d.pickY)
       case AwkwardButNotExtreme => MarginRange(w, d.cropW).Contains(d.pickX) && MarginRange(h, d.cropH).Contains(d.pickY)
  }

  /** The edge rule of each strategy, stated on the rectangle alone. */
  predicate KeepsShape(s: Strategy, r: Rect, w: nat, h: nat) {
    match s
    case SlightlyOffCenter =>
      Abs(r.x - (w / 2 - r.width / 2)) <= w / 10 && Abs(r.y - (h / 2 - r.height / 2)) <= h / 10
    case CutBottom => r.y == 0
    case CutTop => r.y + r.height == h
    case CutSide => r.x == 0 || r.x + r.width == w
    case AwkwardButNotExtreme =>
      (1 <= w ==> w / 20 <= r.x && r.x + r.width + w / 20 <= w)
      && (1 <= h ==> h / 20 <= r.y && r.y + r.height + h / 20 <= h)
  }

  /** Lines 31-91: the rectangle of the branch the strategy draw selects. The
      crop has the drawn size, its corner is never negative (so the slice
      never wraps around), it lies inside any non-empty image, it is strictly
      smaller than the image on every non-empty axis, it is non-empty on every
      axis of 2 pixels or more. */
  function Generate(w: nat, h: nat, d: Draws): (r: Rect)
    requires ValidDraws(w, h, d)
    ensures r.width == d.cropW && r.height == d.cropH
    ensures 0 <= r.x && 0 <= r.y && 0 <= r.width && 0 <= r.height
    ensures 1 <= w && 1 <= h ==> Contained(r, w, h)
    ensures 1 <= w ==> r.width <= w - 1
    ensures 1 <= h ==> r.height <= h - 1
    ensures 2 <= w ==> 1 <= r.width
    ensures 2 <= h ==> 1 <= r.height
  {
    var s := Select(d.choice);
    DrawnBounds(w, WidthShare(s), d.cropW);
    DrawnBounds(h, HeightShare(s), d.cropH);
    match s
    case SlightlyOffCenter => OffCenterCrop(w, h, d.cropW, d.cropH, d.offsetX, d.offsetY)
    case CutBottom => CutBottomCrop(w, h, d.cropW, d.cropH, d.pickX)
    case CutTop => CutTopCrop(w, h, d.cropW, d.cropH, d.pickX)
    case CutSide => CutSideCrop(w, h, d.cropW, d.cropH, d.pickY, d.fromLeft)
    case AwkwardButNotExtreme => AwkwardCrop(w, h, d.cropW, d.cropH, d.pickX, d.pickY)
  }

  /** Lines 44-91: whichever branch the strategy draw selects, the rectangle
      obeys that branch's edge rule. */
  lemma GenerateKeepsShape(w: nat, h: nat, d: Draws)
    requires ValidDraws(w, h, d)
    ensures KeepsShape(Select(d.choice), Generate(w, h, d), w, h)
  {
    var r := Generate(w, h, d);
    match Select(d.choice)
    case SlightlyOffCenter => assert r == OffCenterCrop(w, h, d.cropW, d.cropH, d.offsetX, d.offsetY);
    case CutBottom => assert r == CutBottomCrop(w, h, d.cropW, d.cropH, d.pickX);
    case CutTop => assert r == CutTopCrop(w, h, d.cropW, d.cropH, d.pickX);
    case CutSide => assert r == CutSideCrop(w, h, d.cropW, d.cropH, d.pickY, d.fromLeft);
    case AwkwardButNotExtreme => assert r == AwkwardCrop(w, h, d.cropW, d.cropH, d.pickX, d.pickY);
  }

  /** Valid draws exist for every image size and every strategy: the crop
      ratios and every `randint` range are non-empty, so no draw can fail. */
  function SomeDraws(w: nat, h: nat, choice: int): (d: Draws)
    requires 0 <= choice < |StrategyNames|
    ensures d.choice == choice && ValidDraws(w, h, d)
  {
    var s := Select(choice);
    var cropW := w * WidthShare(s).lo / 100;
    var cropH := h * HeightShare(s).lo / 100;
    MulMonotone(w, WidthShare(s).lo, WidthShare(s).hi);
    MulMonotone(h, HeightShare(s).lo, HeightShare(s).hi);
    RandIntRangesNonEmpty(w, h, s, cropW, cropH);
    var pickX := if s == AwkwardButNotExtreme then w / 20 else 0;
    var pickY := if s == AwkwardButNotExtreme then h / 20 else 0;
    Draws(choice, cropW, cropH, 0, 0, pickX, pickY, true)
  }

  /** An image side of one pixel gets a crop of zero pixels on that axis,
      whatever the strategy: `int(1 * ratio)` is 0 for every ratio below 1. */
  lemma OnePixelSideCropsNothing(w: nat, h: nat, d: Draws)
    requires ValidDraws(w, h, d)
    ensures w == 1 ==> Generate(w, h, d).width == 0
    ensures h == 1 ==> Generate(w, h, d).height == 0
  {
    var s := Select(d.choice);
    DrawnBounds(w, WidthShare(s), d.cropW);
    DrawnBounds(h, HeightShare(s), d.cropH);
  }

  /** An 800 by 600 image, `cut_bottom`, crop 640 by 420, x drawn as 50. */
  lemma CutBottomExample()
    ensures ValidDraws(800, 600, Draws(1, 640, 420, 0, 0, 50, 0, false))
    ensures Generate(800, 600, Draws(1, 640, 420, 0, 0, 50, 0, false)) == Rect(50, 0, 640, 420)
  {
  }

  /** A 600 by 800 image, `cut_top`, crop 480 by 560: the crop starts at row
      800 - 560 = 240. */
  lemma CutTopExample(pickX: int)
    requires 0 <= pickX <= 120
    ensures ValidDraws(600, 800, Draws(2, 480, 560, 0, 0, pickX, 0, false))
    ensures Generate(600, 800, Draws(2, 480, 560, 0, 0, pickX, 0, false)) == Rect(pickX, 240, 480, 560)
  {
  }

  /** The crop sits exactly in the middle of the image: the space left and
      right of it is equal, and so is the space above and below it. */
  predicate Centred(r: Rect, w: nat, h: nat) {
    r.x == w - (r.x + r.width) && r.y == h - (r.y + r.height)
  }

  /** `awkward_but_not_extreme` can land exactly in the middle, although the
      comment on line 89 says its position is never perfectly centred: a
      100 by 100 image, crop 70 by 70, both picks drawn as 15. */
  lemma AwkwardCanBeCentred()
    ensures ValidDraws(100, 100, Draws(4, 70, 70, 0, 0, 15, 15, false))
    ensures Select(4) == AwkwardButNotExtreme
    ensures Generate(100, 100, Draws(4, 70, 70, 0, 0, 15, 15, false)) == Rect(15, 15, 70, 70)
    ensures Centred(Rect(15, 15, 70, 70), 100, 100)
  {
  }

  /** `slightly_off_center` can land exactly in the middle, although the
      comments on lines 45 and 49 call it off-centre: both offsets are drawn
      from a range that contains 0. */
  lemma OffCenterCanBeCentred()
    ensures ValidDraws(100, 100, Draws(0, 70, 70, 0, 0, 0, 0, false))
    ensures Select(0) == SlightlyOffCenter
    ensures Generate(100, 100, Draws(0, 70, 70, 0, 0, 0, 0, false)) == Rect(15, 15, 70, 70)
    ensures Centred(Rect(15, 15, 70, 70), 100, 100)
  {
  }

  /** The shape `image.shape[:2]` of a loaded image; its pixels are not
      modelled. */
  datatype Image = Image(width: nat, height: nat)

  /** `cv2.imread`'s result: `None` when the file cannot be read. */
  datatype Option<T> = None | Some(value: T)

  datatype CropError = CouldNotLoad(path: string)

  datatype Result<T> = Success(value: T) | Failure(error: CropError)

  /** The array `image[y:y+crop_h, x:x+crop_w]` returned at line 93: the
      rectangle it was cut with and the rows and columns it holds. */
  datatype Cropped = Cropped(rect: Rect, rows: nat, cols: nat)

  /** Line 93: slicing a loaded image with a rectangle whose corner and size
      are non-negative. The slice has exactly the rectangle's size when the
      rectangle lies inside the image, and is clipped otherwise. */
  function Slice(img: Image, r: Rect): (c: Cropped)
    requires 0 <= r.x && 0 <= r.y && 0 <= r.width && 0 <= r.height
    ensures c.rect == r
    ensures c.rows <= img.height && c.cols <= img.width
    ensures Contained(r, img.width, img.height) ==> c.rows == r.height && c.cols == r.width
  {
    Cropped(r, SliceLength(img.height, r.y, r.y + r.height), SliceLength(img.width, r.x, r.x + r.width))
  }

  /** Lines 26-93, `generate_subtle_bad_crop` with the random draws given.
      It fails, with the path, exactly when the image could not be loaded;
      otherwise the returned array holds exactly the rectangle computed from
      the draws, of the drawn size, which lies inside the image and is strictly smaller than it, and it has at
      least one pixel once both sides are 2 pixels or more. */
  function GenerateSubtleBadCrop(path: string, image: Option<Image>, d: Draws): (res: Result<Cropped>)
    requires image.Some? ==> ValidDraws(image.value.width, image.value.height, d)
    ensures res.Success? <==> image.Some?
    ensures res.Failure? ==> res.error == CouldNotLoad(path)
    ensures image.None? <==> res == Failure(CouldNotLoad(path))
    ensures res.Success? ==>
      var w, h, c := image.value.width, image.value.height, res.value;
      && (1 <= w && 1 <= h ==> Contained(c.rect, w, h) && c.rows == c.rect.height && c.cols == c.rect.width)
      && (1 <= w && 1 <= h ==> c.rows < h && c.cols < w)
      && (2 <= w && 2 <= h ==> 1 <= c.rows && 1 <= c.cols)
      && c.rect.width == d.cropW && c.rect.height == d.cropH
      && c.rect == Generate(w, h, d)
      && KeepsShape(Select(d.choice), c.rect, w, h)
  {
    match image
    case None => Failure(CouldNotLoad(path))
    case Some(img) =>
      var r := Generate(img.width, img.height, d);
      GenerateKeepsShape(img.width, img.height, d);
      Success(Slice(img, r))
  }
}
