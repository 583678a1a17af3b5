/** stan_meme_creator/utils.py: the older module-level pipeline. Its slot finder scans
    pixel by pixel, refuses slots one column wide or one row tall, and returns `left`
    in the place of `bottom`; its `process_image` returns None instead of raising, and
    its static compositor always stretches the user image to the slot. */
module LegacyUtils {
  import opened Wrappers
  import opened Raster
  import opened Compose
  import opened Text
  import ImageUtils
  import ImageProcessor

  // ---------------------------------------------------------------------------
  // find_transparent_area

  /** The running `left, right, top, bottom` of the scan. */
  datatype Bounds = Bounds(left: nat, right: nat, top: nat, bottom: nat)

  /** The scan's starting values: `left, right, top, bottom = width, 0, height, 0`. */
  function Initial(img: Image): Bounds {
    Bounds(img.width, 0, img.height, 0)
  }

  /** One step of the scan: a pixel with alpha exactly 0 widens the bounds to include it. */
  function Visit(b: Bounds, img: Image, x: nat, y: nat): Bounds
    requires img.Valid() && x < img.width && y < img.height
  {
    if img.rows[y][x].a == 0 then Bounds(Min(b.left, x), Max(b.right, x), Min(b.top, y), Max(b.bottom, y))
    else b
  }

  /** `c` only extends `b`. */
  ghost predicate Widens(b: Bounds, c: Bounds) {
    c.left <= b.left && b.right <= c.right && c.top <= b.top && b.bottom <= c.bottom
  }

  /** The inner loop: rows y, y+1, ... of column x, in order. */
  function ScanColumn(img: Image, x: nat, y: nat, b: Bounds): Bounds
    requires img.Valid() && x < img.width && y <= img.height
    decreases img.height - y
  {
    if y == img.height then b else ScanColumn(img, x, y + 1, Visit(b, img, x, y))
  }

  /** The outer loop: columns x, x+1, ... in order, each scanned top to bottom. */
  function ScanColumns(img: Image, x: nat, b: Bounds): Bounds
    requires img.Valid() && x <= img.width
    decreases img.width - x
  {
    if x == img.width then b else ScanColumns(img, x + 1, ScanColumn(img, x, 0, b))
  }

  /** `c` only extends `b`, and each bound of `c` either is `b`'s or sits on a column
      or row holding a transparent pixel. */
  ghost predicate Anchored(img: Image, b: Bounds, c: Bounds)
    requires img.Valid()
  {
    Widens(b, c) &&
    (c.left == b.left || ImageUtils.ColumnHit(img, c.left)) &&
    (c.right == b.right || ImageUtils.ColumnHit(img, c.right)) &&
    (c.top == b.top || ImageUtils.RowHit(img, c.top)) &&
    (c.bottom == b.bottom || ImageUtils.RowHit(img, c.bottom))
  }

  /** Pixel (x, y) lies within the bounds `c`. */
  predicate Encloses(c: Bounds, x: int, y: int) {
    c.left <= x <= c.right && c.top <= y <= c.bottom
  }

  /** `c` is anchored on `b` and encloses every transparent pixel in columns x.. (or,
      with `column`, only in rows y.. of column x). */
  ghost predicate ScanResult(img: Image, b: Bounds, c: Bounds, x: nat, y: nat, column: bool)
    requires img.Valid()
  {
    Anchored(img, b, c) &&
    forall x', y' :: (if column then x' == x && y <= y' else x <= x') && ImageUtils.Transparent(img, x', y') ==>
       Encloses(c, x', y')
  }

  /** One step is anchored, and encloses the visited pixel when it is transparent. */
  lemma VisitAnchored(b: Bounds, img: Image, x: nat, y: nat)
    requires img.Valid() && x < img.width && y < img.height
    ensures Anchored(img, b, Visit(b, img, x, y))
    ensures ImageUtils.Transparent(img, x, y) ==> Encloses(Visit(b, img, x, y), x, y)
  {
    if img.rows[y][x].a == 0 {
      assert ImageUtils.Transparent(img, x, y);
      assert ImageUtils.ColumnHit(img, x) && ImageUtils.RowHit(img, y);
    }
  }

  /** Anchoring composes. */
  lemma AnchoredTransitive(img: Image, a: Bounds, b: Bounds, c: Bounds)
    requires img.Valid() && Anchored(img, a, b) && Anchored(img, b, c)
    ensures Anchored(img, a, c)
  {
  }

  /** The inner loop only widens the bounds, encloses every transparent pixel it
      visits, and each bound it moves sits on a transparent pixel. */
  lemma {:induction false} ScanColumnCovers(img: Image, x: nat, y: nat, b: Bounds)
    requires img.Valid() && x < img.width && y <= img.height
    ensures ScanResult(img, b, ScanColumn(img, x, y, b), x, y, true)
    decreases img.height - y
  {
    if y < img.height {
      var v := Visit(b, img, x, y);
      var c := ScanColumn(img, x, y + 1, v);
      assert c == ScanColumn(img, x, y, b);
      VisitAnchored(b, img, x, y);
      ScanColumnCovers(img, x, y + 1, v);
      AnchoredTransitive(img, b, v, c);
      assert ScanResult(img, b, c, x, y, true);
    }
  }

  /** The outer loop: the same for every column from x on. */
  lemma {:induction false} ScanColumnsCover(img: Image, x: nat, b: Bounds)
    requires img.Valid() && x <= img.width
    ensures ScanResult(img, b, ScanColumns(img, x, b), x, 0, false)
    decreases img.width - x
  {
    if x < img.width {
      var b' := ScanColumn(img, x, 0, b);
      ScanColumnCovers(img, x, 0, b);
      ScanColumnsCover(img, x + 1, b');
    }
  }

  /** `find_transparent_area` of utils.py: None unless `left < right` and `top < bottom`,
      otherwise the tuple `(left, top, right, left, right - left, bottom - top)`. */
  function ScannedArea(img: Image): (r: Option<ImageUtils.Area>)
    requires img.Valid()
    ensures r.Some? ==> r.value.width > 0 && r.value.height > 0
  {
    var c := ScanColumns(img, 0, Initial(img));
    if c.left >= c.right || c.top >= c.bottom then None
    else Some(ImageUtils.Area(c.left, c.top, c.right, c.left, c.right - c.left, c.bottom - c.top))
  }

  /** When the template has a transparent pixel, the scan ends on the bounding box's
      edges. */
  lemma ScanFindsBox(img: Image, a: ImageUtils.Area)
    requires img.Valid() && ImageUtils.BoundingBox(img, a)
    ensures ScanColumns(img, 0, Initial(img)) == Bounds(a.left, a.right, a.top, a.bottom)
  {
    var c := ScanColumns(img, 0, Initial(img));
    ScanColumnsCover(img, 0, Initial(img));
    ImageUtils.HitsInsideBox(img, a);
    var y1 :| 0 <= y1 < img.height && ImageUtils.Transparent(img, a.left, y1);
    var y2 :| 0 <= y2 < img.height && ImageUtils.Transparent(img, a.right, y2);
    var x1 :| 0 <= x1 < img.width && ImageUtils.Transparent(img, x1, a.top);
    var x2 :| 0 <= x2 < img.width && ImageUtils.Transparent(img, x2, a.bottom);
    assert c.left <= a.left && a.right <= c.right && c.top <= a.top && a.bottom <= c.bottom;
  }

  /** When it has none, the scan keeps its starting values. */
  lemma ScanFindsNothing(img: Image)
    requires img.Valid() && forall x, y :: !ImageUtils.Transparent(img, x, y)
    ensures ScanColumns(img, 0, Initial(img)) == Initial(img)
  {
    ScanColumnsCover(img, 0, Initial(img));
    assert forall x :: !ImageUtils.ColumnHit(img, x);
    assert forall y :: !ImageUtils.RowHit(img, y);
  }

  /** The scanning finder against the bulk one: it answers None whenever the bulk box
      has zero width or zero height (a fully opaque template, but also a slot one column
      wide or one row tall), and otherwise agrees with it on every element except the
      fourth, which repeats `left` instead of giving `bottom`. */
  lemma ScannedVersusBulk(img: Image)
    requires img.Valid()
    ensures ScannedArea(img) ==
            match ImageUtils.FindTransparentArea(img)
            case None => None
            case Some(a) => if a.width == 0 || a.height == 0 then None else Some(a.(bottom := a.left))
  {
    match ImageUtils.FindTransparentArea(img)
    case None => ScanFindsNothing(img);
    case Some(a) => ScanFindsBox(img, a);
  }

  /** `find_transparent_area` of utils.py: nested loops over columns and then rows,
      folding min and max over the pixels whose alpha is exactly 0. */
  method FindTransparentArea(img: Image) returns (area: Option<ImageUtils.Area>)
    requires img.Valid()
    ensures area == ScannedArea(img)
  {
    ghost var scanned := ScanColumns(img, 0, Initial(img));
    var left, right, top, bottom := img.width, 0, img.height, 0;
    for x := 0 to img.width
      invariant ScanColumns(img, x, Bounds(left, right, top, bottom)) == scanned
    {
      for y := 0 to img.height
        invariant ScanColumns(img, x + 1, ScanColumn(img, x, y, Bounds(left, right, top, bottom))) == scanned
      {
        ghost var before := Bounds(left, right, top, bottom);
        if img.rows[y][x].a == 0 {
          left := Min(left, x);
          right := Max(right, x);
          top := Min(top, y);
          bottom := Max(bottom, y);
        }
        assert Bounds(left, right, top, bottom) == Visit(before, img, x, y);
      }
      assert ScanColumn(img, x, img.height, Bounds(left, right, top, bottom)) == Bounds(left, right, top, bottom);
    }
    assert ScanColumns(img, img.width, Bounds(left, right, top, bottom)) == Bounds(left, right, top, bottom);
    assert scanned == Bounds(left, right, top, bottom);
    if left >= right || top >= bottom {
      return None;
    }
    return Some(ImageUtils.Area(left, top, right, left, right - left, bottom - top));
  }

  // ---------------------------------------------------------------------------
  // process_image and the compositors

  /** `insert_image`: the user image stretched to `(area[4], area[5])`, pasted at
      `(area[0], area[1])` under the template, on a canvas the template's size. Its one
      caller hands it only slots the scan accepted, whose width and height are
      positive, so `resize` does not raise. */
  method InsertImage(user: Image, template: Template, area: ImageUtils.Area, resize: Resampler, blend: Blend)
    returns (out: Image)
    requires user.Valid() && template.Valid() && area.width > 0 && area.height > 0
    ensures out == Composite(template.frames[0].width, template.frames[0].height,
                             Resize(resize, user, area.width, area.height).value, area.left, area.top,
                             template.frames[0], blend)
  {
    var frame := template.frames[0];
    var resized := Resize(resize, user, area.width, area.height);
    out := ComposeFrame(frame.width, frame.height, resized.value, area.left, area.top, frame, blend);
  }

  /** `process_gif_template`. */
  method ProcessGifTemplate(user: Image, template: Template, area: ImageUtils.Area, resize: Resampler, blend: Blend)
    returns (out: Option<Output>)
    requires user.Valid() && template.Valid()
    ensures out == AnimationOutput(user, template, area.left, area.top, area.width, area.height, resize, blend)
  {
    out := ComposeAnimation(user, template, area.left, area.top, area.width, area.height, resize, blend);
  }

  /** `process_image` of utils.py: None when the scan finds no slot, otherwise the
      animated or the stretched still composite, chosen by the `.gif` suffix. The
      scan's slot has positive width and height, so neither path's `resize` raises. */
  function LegacyProcessed(user: Image, template: Template, resize: Resampler, blend: Blend): Option<Output>
    requires user.Valid() && template.Valid()
  {
    var frame := template.frames[0];
    match ScannedArea(frame)
    case None => None
    case Some(a) =>
      if IsGifPath(template.path) then
        Some(AnimationOutput(user, template, a.left, a.top, a.width, a.height, resize, blend).value)
      else
        Some(Still(Composite(frame.width, frame.height, Resize(resize, user, a.width, a.height).value,
                             a.left, a.top, frame, blend)))
  }

  /** The two pipelines agree wherever the older one produces something: its output is
      exactly what `ImageProcessor.process_image` makes without aspect preservation. It
      gives up exactly where the newer one raises or finds a slot of zero width or height. */
  lemma LegacyAgreesWithProcessor(user: Image, template: Template, resize: Resampler, blend: Blend)
    requires user.Valid() && template.Valid()
    ensures var legacy := LegacyProcessed(user, template, resize, blend);
            legacy.Some? ==> ImageProcessor.Processed(user, template, false, resize, blend) == Ok(legacy.value)
    ensures LegacyProcessed(user, template, resize, blend).None? <==>
            match ImageUtils.FindTransparentArea(template.frames[0])
            case None => true
            case Some(a) => a.width == 0 || a.height == 0
  {
    ScannedVersusBulk(template.frames[0]);
  }

  /** `process_image` of utils.py. */
  method ProcessImage(user: Image, template: Template, resize: Resampler, blend: Blend) returns (r: Option<Output>)
    requires user.Valid() && template.Valid()
    ensures r == LegacyProcessed(user, template, resize, blend)
  {
    var area := FindTransparentArea(template.frames[0]);
    if area.None? {
      return None;
    }
    if IsGifImage(template.path) {
      var gif := ProcessGifTemplate(user, template, area.value, resize, blend);
      return Some(gif.value);
    }
    var still := InsertImage(user, template, area.value, resize, blend);
    return Some(Still(still));
  }

  /** `is_gif_image`: the last four characters, lower-cased, are ".gif". */
  predicate IsGifImage(templatePath: string): (b: bool)
    ensures b <==> |templatePath| >= 4 && Lower(templatePath[|templatePath| - 4..]) == ".gif"
  {
    IsGifPathSuffix(templatePath);
    IsGifPath(templatePath)
  }
}
