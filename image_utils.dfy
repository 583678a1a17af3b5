/** stan_meme_creator/utils/image_utils.py: locating the transparent slot of a template
    from its alpha channel, and fitting the user image to the slot's size. */
module ImageUtils {
  import opened Wrappers
  import opened Raster

  /** The tuple (left, top, right, bottom, width, height) the slot finders return. */
  datatype Area = Area(left: nat, top: nat, right: nat, bottom: nat, width: nat, height: nat)

  /** Why a composition fails: no pixel of the template has alpha 0 (the `ValueError`
      of the image processor), the aspect branch divided by a zero image width, or
      `resize` was asked for a size PIL refuses (its `ValueError`). */
  datatype Failure = NoTransparentArea | ZeroDivision | EmptyResize

  // ---------------------------------------------------------------------------
  // find_transparent_area

  /** Pixel (x, y) exists and its alpha is exactly 0. */
  predicate Transparent(img: Image, x: int, y: int)
    requires img.Valid()
  {
    0 <= x < img.width && 0 <= y < img.height && img.rows[y][x].a == 0
  }

  predicate ColumnHit(img: Image, x: int)
    requires img.Valid()
  {
    exists y :: 0 <= y < img.height && Transparent(img, x, y)
  }

  predicate RowHit(img: Image, y: int)
    requires img.Valid()
  {
    exists x :: 0 <= x < img.width && Transparent(img, x, y)
  }

  /** `a` is the bounding box of the transparent pixels: it lies inside the image, every
      transparent pixel lies in [left, right] x [top, bottom], each of the four edges
      holds a transparent pixel, and width and height are right - left and bottom - top. */
  ghost predicate BoundingBox(img: Image, a: Area)
    requires img.Valid()
  {
    a.left <= a.right < img.width && a.top <= a.bottom < img.height &&
    a.width == a.right - a.left && a.height == a.bottom - a.top &&
    (forall x, y :: Transparent(img, x, y) ==> a.left <= x <= a.right && a.top <= y <= a.bottom) &&
    ColumnHit(img, a.left) && ColumnHit(img, a.right) && RowHit(img, a.top) && RowHit(img, a.bottom)
  }

  /** The index of the first true entry at or after `from`, or |s| when there is none. */
  function FirstTrue(s: seq<bool>, from: nat): (i: nat)
    requires from <= |s|
    ensures from <= i <= |s| && (i < |s| ==> s[i])
    ensures forall j :: from <= j < i ==> !s[j]
    decreases |s| - from
  {
    if from == |s| || s[from] then from else FirstTrue(s, from + 1)
  }

  /** The index of the last true entry before `upto`. */
  function LastTrue(s: seq<bool>, upto: nat): (i: nat)
    requires upto <= |s| && exists j :: 0 <= j < upto && s[j]
    ensures i < upto && s[i]
    ensures forall j :: i < j < upto ==> !s[j]
    decreases upto
  {
    if s[upto - 1] then upto - 1 else LastTrue(s, upto - 1)
  }

  /** For each column, whether it holds a transparent pixel. */
  function ColumnMask(img: Image): (m: seq<bool>)
    requires img.Valid()
    ensures |m| == img.width && forall x :: 0 <= x < img.width ==> m[x] == ColumnHit(img, x)
  {
    seq(img.width, x requires 0 <= x < img.width => ColumnHit(img, x))
  }

  /** For each row, whether it holds a transparent pixel. */
  function RowMask(img: Image): (m: seq<bool>)
    requires img.Valid()
    ensures |m| == img.height && forall y :: 0 <= y < img.height ==> m[y] == RowHit(img, y)
  {
    seq(img.height, y requires 0 <= y < img.height => RowHit(img, y))
  }

  lemma MasksMarkHits(img: Image)
    requires img.Valid()
    ensures forall x, y :: Transparent(img, x, y) ==> ColumnMask(img)[x] && RowMask(img)[y]
  {
    forall x, y | Transparent(img, x, y) ensures ColumnMask(img)[x] && RowMask(img)[y] {
      assert ColumnHit(img, x) && RowHit(img, y);
    }
  }

  /** The four extreme marked columns and rows form the bounding box. */
  lemma MaskExtremesBound(img: Image, a: Area)
    requires img.Valid()
    requires a.left == FirstTrue(ColumnMask(img), 0) < img.width
    requires a.top == FirstTrue(RowMask(img), 0) < img.height
    requires (exists j :: 0 <= j < img.width && ColumnMask(img)[j]) && a.right == LastTrue(ColumnMask(img), img.width)
    requires (exists j :: 0 <= j < img.height && RowMask(img)[j]) && a.bottom == LastTrue(RowMask(img), img.height)
    requires a.width == a.right - a.left && a.height == a.bottom - a.top
    ensures BoundingBox(img, a)
  {
    MasksMarkHits(img);
  }

  /** `find_transparent_area`: the bounding box of the pixels whose alpha is exactly 0,
      taken as the least and greatest row and column among them, or None when the
      template has no such pixel. */
  function FindTransparentArea(img: Image): (r: Option<Area>)
    requires img.Valid()
    ensures r.None? <==> forall x, y :: !Transparent(img, x, y)
    ensures r.Some? ==> BoundingBox(img, r.value)
  {
    var cols, rows := ColumnMask(img), RowMask(img);
    MasksMarkHits(img);
    var left := FirstTrue(cols, 0);
    if left == img.width then None
    else
      assert ColumnHit(img, left);
      var y0 :| 0 <= y0 < img.height && Transparent(img, left, y0);
      assert rows[y0];
      var top := FirstTrue(rows, 0);
      var right := LastTrue(cols, img.width);
      var bottom := LastTrue(rows, img.height);
      var a := Area(left, top, right, bottom, right - left, bottom - top);
      MaskExtremesBound(img, a);
      Some(a)
  }

  /** Every column and row that holds a transparent pixel lies within the bounding box. */
  lemma HitsInsideBox(img: Image, a: Area)
    requires img.Valid() && BoundingBox(img, a)
    ensures forall x :: ColumnHit(img, x) ==> a.left <= x <= a.right
    ensures forall y :: RowHit(img, y) ==> a.top <= y <= a.bottom
  {
    forall x | ColumnHit(img, x)
      ensures a.left <= x <= a.right
    {
      var y :| 0 <= y < img.height && Transparent(img, x, y);
    }
    forall y | RowHit(img, y)
      ensures a.top <= y <= a.bottom
    {
      var x :| 0 <= x < img.width && Transparent(img, x, y);
    }
  }

  /** The bounding box is unique, so the function's contract determines its result. */
  lemma BoundingBoxUnique(img: Image, a: Area, b: Area)
    requires img.Valid() && BoundingBox(img, a) && BoundingBox(img, b)
    ensures a == b
  {
    var y1 :| 0 <= y1 < img.height && Transparent(img, a.left, y1);
    var y2 :| 0 <= y2 < img.height && Transparent(img, b.left, y2);
    var y3 :| 0 <= y3 < img.height && Transparent(img, a.right, y3);
    var y4 :| 0 <= y4 < img.height && Transparent(img, b.right, y4);
    var x1 :| 0 <= x1 < img.width && Transparent(img, x1, a.top);
    var x2 :| 0 <= x2 < img.width && Transparent(img, x2, b.top);
    var x3 :| 0 <= x3 < img.width && Transparent(img, x3, a.bottom);
    var x4 :| 0 <= x4 < img.width && Transparent(img, x4, b.bottom);
  }

  /** Pixels whose alpha is anywhere in 1..255 never influence the result: two templates
      of one size that are transparent at the same places have the same area. */
  lemma OnlyZeroAlphaMatters(img1: Image, img2: Image)
    requires img1.Valid() && img2.Valid()
    requires img1.width == img2.width && img1.height == img2.height
    requires forall x, y :: 0 <= x < img1.width && 0 <= y < img1.height ==>
               (img1.rows[y][x].a == 0 <==> img2.rows[y][x].a == 0)
    ensures FindTransparentArea(img1) == FindTransparentArea(img2)
  {
    assert forall x, y :: Transparent(img1, x, y) <==> Transparent(img2, x, y);
    var r1, r2 := FindTransparentArea(img1), FindTransparentArea(img2);
    if r1.Some? && r2.Some? {
      assert forall x :: ColumnHit(img1, x) <==> ColumnHit(img2, x);
      assert forall y :: RowHit(img1, y) <==> RowHit(img2, y);
      assert BoundingBox(img1, r2.value);
      BoundingBoxUnique(img1, r1.value, r2.value);
    }
  }

  /** A template whose transparent pixels form exactly the rectangle [l, r] x [t, b]
      yields exactly that rectangle. */
  lemma RectangleSlot(img: Image, l: nat, t: nat, r: nat, b: nat)
    requires img.Valid() && l <= r < img.width && t <= b < img.height
    requires forall x, y :: 0 <= x < img.width && 0 <= y < img.height ==>
               (img.rows[y][x].a == 0 <==> l <= x <= r && t <= y <= b)
    ensures FindTransparentArea(img) == Some(Area(l, t, r, b, r - l, b - t))
  {
    var a := Area(l, t, r, b, r - l, b - t);
    assert Transparent(img, l, t) && Transparent(img, r, b);
    assert BoundingBox(img, a);
    BoundingBoxUnique(img, FindTransparentArea(img).value, a);
  }

  /** A single transparent pixel yields a zero-size box, not None. */
  lemma SinglePixelSlot(img: Image, x0: nat, y0: nat)
    requires img.Valid() && x0 < img.width && y0 < img.height
    requires forall x, y :: 0 <= x < img.width && 0 <= y < img.height ==>
               (img.rows[y][x].a == 0 <==> x == x0 && y == y0)
    ensures FindTransparentArea(img) == Some(Area(x0, y0, x0, y0, 0, 0))
  {
    RectangleSlot(img, x0, y0, x0, y0);
  }

  // ---------------------------------------------------------------------------
  // resize_image_to_fit_area

  lemma MulMono(a: nat, b: nat, c: nat)
    requires a <= b
    ensures a * c <= b * c
  {
  }

  lemma DivBounds(a: nat, c: nat)
    requires c > 0
    ensures (a / c) * c <= a < (a / c) * c + c
  {
  }

  /** The aspect branch's scaled size: the slot's width with the height it implies, or,
      when that height overflows the slot, the slot's height with the width it implies.
      Python's `int(p / q)` on non-negative integers is floor division. The result fits
      the slot and fills it along one side. */
  function TargetSize(imgWidth: nat, imgHeight: nat, areaWidth: nat, areaHeight: nat): (size: (nat, nat))
    requires imgWidth > 0
    ensures size.0 <= areaWidth && size.1 <= areaHeight
    ensures size.0 == areaWidth || size.1 == areaHeight
  {
    var h := imgHeight * areaWidth / imgWidth;
    if h > areaHeight then
      FallbackFits(imgWidth, imgHeight, areaWidth, areaHeight);
      (imgWidth * areaHeight / imgHeight, areaHeight)
    else
      (areaWidth, h)
  }

  lemma FallbackFits(iw: nat, ih: nat, aw: nat, ah: nat)
    requires iw > 0 && ih * aw / iw > ah
    ensures ih > 0 && iw * ah / ih <= aw
  {
    var h := ih * aw / iw;
    DivBounds(ih * aw, iw);
    MulMono(ah + 1, h, iw);
    assert iw * ah < ih * aw;
    assert ih > 0;
    var w := iw * ah / ih;
    DivBounds(iw * ah, ih);
    if w > aw {
      MulMono(aw + 1, w, ih);
      assert false;
    }
  }

  /** The scaled size keeps the user image's aspect ratio to within one pixel: the
      cross products w * imgHeight and h * imgWidth differ by less than one image
      width (when the width was fixed) or one image height (when the height was). */
  lemma TargetSizeKeepsAspect(imgWidth: nat, imgHeight: nat, areaWidth: nat, areaHeight: nat)
    requires imgWidth > 0
    ensures var (w, h) := TargetSize(imgWidth, imgHeight, areaWidth, areaHeight);
            (0 <= w * imgHeight - h * imgWidth < imgWidth) || (0 <= h * imgWidth - w * imgHeight < imgHeight)
  {
    var h0 := imgHeight * areaWidth / imgWidth;
    if h0 > areaHeight {
      FallbackFits(imgWidth, imgHeight, areaWidth, areaHeight);
      DivBounds(imgWidth * areaHeight, imgHeight);
    } else {
      DivBounds(imgHeight * areaWidth, imgWidth);
    }
  }

  /** Size and top-left offset of the scaled user image inside the slot-sized canvas. */
  datatype Placement = Placement(width: nat, height: nat, x: nat, y: nat)

  /** The scaled size, centred with `(slack) // 2` offsets. */
  function FitPlacement(imgWidth: nat, imgHeight: nat, areaWidth: nat, areaHeight: nat): (p: Placement)
    requires imgWidth > 0
  {
    var (w, h) := TargetSize(imgWidth, imgHeight, areaWidth, areaHeight);
    Placement(w, h, (areaWidth - w) / 2, (areaHeight - h) / 2)
  }

  /** The placed image lies inside the canvas, and along each axis the slack after it
      equals the slack before it or exceeds it by one pixel. */
  lemma FitPlacementCentred(imgWidth: nat, imgHeight: nat, areaWidth: nat, areaHeight: nat)
    requires imgWidth > 0
    ensures var p := FitPlacement(imgWidth, imgHeight, areaWidth, areaHeight);
            p.x + p.width <= areaWidth && p.y + p.height <= areaHeight &&
            0 <= (areaWidth - p.x - p.width) - p.x <= 1 &&
            0 <= (areaHeight - p.y - p.height) - p.y <= 1
  {
  }

  /** A 300x100 image fitted to a 100x100 slot becomes 100x33 at offset (0, 33). */
  lemma WideImageExample()
    ensures FitPlacement(300, 100, 100, 100) == Placement(100, 33, 0, 33)
  {
  }

  /** `resize_image_to_fit_area`: without aspect preservation, the image stretched to the
      slot's size; with it, the image scaled to `FitPlacement` and centred on a fully
      transparent slot-sized canvas. Python raises ZeroDivisionError for a zero-width
      image in the aspect branch, and PIL raises ValueError when the size handed to
      `resize` is one it refuses. */
  function FittedImage(img: Image, areaWidth: nat, areaHeight: nat, maintainAspectRatio: bool,
                       resize: Resampler): (r: Result<Image, Failure>)
    requires img.Valid()
    ensures r.Ok? ==> Sized(r.value, areaWidth, areaHeight)
  {
    if !maintainAspectRatio then
      match Resize(resize, img, areaWidth, areaHeight)
      case None => Err(EmptyResize)
      case Some(stretched) => Ok(stretched)
    else if img.width == 0 then Err(ZeroDivision)
    else
      var p := FitPlacement(img.width, img.height, areaWidth, areaHeight);
      match Resize(resize, img, p.width, p.height)
      case None => Err(EmptyResize)
      case Some(scaled) => Ok(Pasted(Blank(areaWidth, areaHeight), scaled, p.x, p.y))
  }

  /** The fitted image always has exactly the slot's size. In the aspect branch, a pixel
      inside the placed rectangle comes from the scaled image and every other pixel is
      fully transparent. It fails with the zero-width division exactly in the aspect
      branch on a zero-width image, and with the refused resize exactly when the size
      it resizes to (the slot's, or the scaled one) is refused. */
  lemma FittedImageShape(img: Image, areaWidth: nat, areaHeight: nat, maintainAspectRatio: bool,
                         resize: Resampler, x: nat, y: nat)
    requires img.Valid()
    ensures var r := FittedImage(img, areaWidth, areaHeight, maintainAspectRatio, resize);
            (r == Err(ZeroDivision) <==> maintainAspectRatio && img.width == 0) &&
            (r == Err(EmptyResize) <==>
              if !maintainAspectRatio then RefusedSize(img, areaWidth, areaHeight)
              else img.width > 0 &&
                   var p := FitPlacement(img.width, img.height, areaWidth, areaHeight);
                   RefusedSize(img, p.width, p.height)) &&
            r != Err(NoTransparentArea) &&
            (r.Ok? ==> Sized(r.value, areaWidth, areaHeight)) &&
            (r.Ok? && maintainAspectRatio && x < areaWidth && y < areaHeight ==>
              var p := FitPlacement(img.width, img.height, areaWidth, areaHeight);
              r.value.rows[y][x] == if p.x <= x < p.x + p.width && p.y <= y < p.y + p.height
                                    then Resize(resize, img, p.width, p.height).value.rows[y - p.y][x - p.x]
                                    else Clear)
  {
  }

  /** A slot one column wide, whose width `right - left` is 0, given to the stretching
      branch, fails unless the user image is already 0 wide and the slot's height tall. */
  lemma NarrowSlotRefused(img: Image, areaHeight: nat, resize: Resampler)
    requires img.Valid() && !(img.width == 0 && img.height == areaHeight)
    ensures FittedImage(img, 0, areaHeight, false, resize) == Err(EmptyResize)
  {
  }

  /** With aspect preservation, a 1000x1 image in a 100x5 slot scales to 100x0, which
      PIL refuses. */
  lemma FlatImageExample(img: Image, resize: Resampler)
    requires Sized(img, 1000, 1)
    ensures FittedImage(img, 100, 5, true, resize) == Err(EmptyResize)
  {
    assert FitPlacement(1000, 1, 100, 5) == Placement(100, 0, 0, 2);
  }

  /** The method the compositor calls: new canvas, paste at the centring offset. */
  method ResizeImageToFitArea(img: Image, areaWidth: nat, areaHeight: nat, maintainAspectRatio: bool,
                              resize: Resampler) returns (r: Result<Image, Failure>)
    requires img.Valid()
    ensures r == FittedImage(img, areaWidth, areaHeight, maintainAspectRatio, resize)
  {
    if maintainAspectRatio {
      if img.width == 0 {
        return Err(ZeroDivision);
      }
      var p := FitPlacement(img.width, img.height, areaWidth, areaHeight);
      var resized := Resize(resize, img, p.width, p.height);
      if resized.None? {
        return Err(EmptyResize);
      }
      var canvas := new Canvas(areaWidth, areaHeight);
      canvas.Paste(resized.value, p.x, p.y);
      var out := canvas.Snapshot();
      return Ok(out);
    }
    var stretched := Resize(resize, img, areaWidth, areaHeight);
    if stretched.None? {
      return Err(EmptyResize);
    }
    return Ok(stretched.value);
  }
}
