/** stan_meme_creator/core/image_processor.py: `ImageProcessor`, whose static methods
    find the template's slot, refuse a template without one, and composite the user
    image into a still or an animated template. */
module ImageProcessor {
  import opened Wrappers
  import opened Raster
  import opened Compose
  import opened ImageUtils

  /** `_process_static_template`: the user image fitted to the slot's size (with or
      without aspect preservation), pasted at the slot's top-left corner on a transparent
      canvas the template's size, under the template laid on through its own alpha. */
  function StaticComposite(user: Image, template: Image, area: Area, maintainAspectRatio: bool,
                           resize: Resampler, blend: Blend): (r: Result<Image, Failure>)
    requires user.Valid() && template.Valid()
    ensures r.Ok? <==> FittedImage(user, area.width, area.height, maintainAspectRatio, resize).Ok?
    ensures r.Ok? ==> Sized(r.value, template.width, template.height)
  {
    match FittedImage(user, area.width, area.height, maintainAspectRatio, resize)
    case Err(e) => Err(e)
    case Ok(fitted) => Ok(Composite(template.width, template.height, fitted, area.left, area.top, template, blend))
  }

  /** `process_image`: no slot raises `ValueError` before anything is resized; a path
      ending in `.gif` in any letter case takes the animated path, which ignores
      `maintain_aspect_ratio` and fails when its `resize` does; anything else takes the
      static path. */
  function Processed(user: Image, template: Template, maintainAspectRatio: bool,
                     resize: Resampler, blend: Blend): Result<Output, Failure>
    requires user.Valid() && template.Valid()
  {
    match FindTransparentArea(template.frames[0])
    case None => Err(NoTransparentArea)
    case Some(area) =>
      if IsGifPath(template.path) then
        match AnimationOutput(user, template, area.left, area.top, area.width, area.height, resize, blend)
        case None => Err(EmptyResize)
        case Some(gif) => Ok(gif)
      else
        match StaticComposite(user, template.frames[0], area, maintainAspectRatio, resize, blend)
        case Ok(image) => Ok(Still(image))
        case Err(e) => Err(e)
  }

  /** The "no transparent area" `ValueError` is raised exactly when the template has no
      pixel of alpha 0. Otherwise the ZeroDivisionError comes exactly from the aspect
      branch on a zero-width user image, and PIL's `ValueError` from `resize` exactly
      when the size resized to is one it refuses: the slot's own size on the GIF path
      and on the stretching path, the scaled size on the aspect path. */
  lemma ProcessedFailures(user: Image, template: Template, maintainAspectRatio: bool,
                          resize: Resampler, blend: Blend)
    requires user.Valid() && template.Valid()
    ensures var r := Processed(user, template, maintainAspectRatio, resize, blend);
            (r == Err(NoTransparentArea) <==> forall x, y :: !Transparent(template.frames[0], x, y)) &&
            (r == Err(ZeroDivision) <==>
              FindTransparentArea(template.frames[0]).Some? && !IsGifPath(template.path) &&
              maintainAspectRatio && user.width == 0) &&
            (r == Err(EmptyResize) <==>
              FindTransparentArea(template.frames[0]).Some? &&
              var a := FindTransparentArea(template.frames[0]).value;
              if IsGifPath(template.path) || !maintainAspectRatio then RefusedSize(user, a.width, a.height)
              else user.width > 0 &&
                   var p := FitPlacement(user.width, user.height, a.width, a.height);
                   RefusedSize(user, p.width, p.height))
  {
    var area := FindTransparentArea(template.frames[0]);
    if area.Some? {
      var a := area.value;
      if IsGifPath(template.path) {
        AnimationOutputShape(user, template, a.left, a.top, a.width, a.height, resize, blend);
      } else {
        FittedImageShape(user, a.width, a.height, maintainAspectRatio, resize, 0, 0);
      }
    }
  }

  /** On the animated path the aspect flag makes no difference. */
  lemma GifIgnoresAspectRatio(user: Image, template: Template, resize: Resampler, blend: Blend)
    requires user.Valid() && template.Valid() && IsGifPath(template.path)
    ensures Processed(user, template, true, resize, blend) == Processed(user, template, false, resize, blend)
  {
  }

  /** A still output has exactly the template's size; an animated one has one frame per
      template frame, each of that frame's size. */
  lemma ProcessedShape(user: Image, template: Template, maintainAspectRatio: bool,
                       resize: Resampler, blend: Blend)
    requires user.Valid() && template.Valid()
    ensures var r := Processed(user, template, maintainAspectRatio, resize, blend);
            (r.Ok? && r.value.Still? ==>
              !IsGifPath(template.path) && Sized(r.value.image, template.frames[0].width, template.frames[0].height)) &&
            (r.Ok? && r.value.Animation? ==>
              IsGifPath(template.path) && |r.value.frames| == |template.frames| &&
              forall i :: 0 <= i < |template.frames| ==>
                Sized(r.value.frames[i], template.frames[i].width, template.frames[i].height))
  {
    var r := Processed(user, template, maintainAspectRatio, resize, blend);
    var area := FindTransparentArea(template.frames[0]);
    if area.Some? {
      var a := area.value;
      if IsGifPath(template.path) {
        AnimationOutputShape(user, template, a.left, a.top, a.width, a.height, resize, blend);
      } else {
        FittedImageShape(user, a.width, a.height, maintainAspectRatio, resize, 0, 0);
      }
    }
  }

  /** Where the template is fully transparent, the static output shows the user image
      exactly on [left, right) x [top, bottom), one column and one row short of the
      detected maximum, and a fully transparent pixel everywhere else. */
  lemma StaticSlotCoverage(user: Image, template: Image, maintainAspectRatio: bool,
                           resize: Resampler, blend: Blend, x: nat, y: nat)
    requires user.Valid() && template.Valid()
    requires FindTransparentArea(template).Some?
    requires StaticComposite(user, template, FindTransparentArea(template).value, maintainAspectRatio, resize, blend).Ok?
    requires Transparent(template, x, y)
    ensures var a := FindTransparentArea(template).value;
            var fitted := FittedImage(user, a.width, a.height, maintainAspectRatio, resize).value;
            var out := StaticComposite(user, template, a, maintainAspectRatio, resize, blend).value;
            out.rows[y][x] == if a.left <= x < a.right && a.top <= y < a.bottom
                              then fitted.rows[y - a.top][x - a.left] else Clear
  {
    var a := FindTransparentArea(template).value;
    var fitted := FittedImage(user, a.width, a.height, maintainAspectRatio, resize).value;
    CompositeMaskRule(template.width, template.height, fitted, a.left, a.top, template, blend, x, y);
  }

  /** Consequence of the one-short placement: the slot's rightmost transparent column
      and its lowest transparent row each keep a pixel that stays fully transparent in
      the output. */
  lemma SlotEdgesShowThrough(user: Image, template: Image, maintainAspectRatio: bool,
                             resize: Resampler, blend: Blend)
    requires user.Valid() && template.Valid()
    requires FindTransparentArea(template).Some?
    requires StaticComposite(user, template, FindTransparentArea(template).value, maintainAspectRatio, resize, blend).Ok?
    ensures var a := FindTransparentArea(template).value;
            var out := StaticComposite(user, template, a, maintainAspectRatio, resize, blend).value;
            (exists y :: 0 <= y < template.height && Transparent(template, a.right, y) && out.rows[y][a.right] == Clear) &&
            (exists x :: 0 <= x < template.width && Transparent(template, x, a.bottom) && out.rows[a.bottom][x] == Clear)
  {
    var a := FindTransparentArea(template).value;
    var out := StaticComposite(user, template, a, maintainAspectRatio, resize, blend).value;
    var y :| 0 <= y < template.height && Transparent(template, a.right, y);
    StaticSlotCoverage(user, template, maintainAspectRatio, resize, blend, a.right, y);
    var x :| 0 <= x < template.width && Transparent(template, x, a.bottom);
    StaticSlotCoverage(user, template, maintainAspectRatio, resize, blend, x, a.bottom);
  }

  /** `ImageProcessor._process_static_template`. */
  method ProcessStaticTemplate(user: Image, template: Template, area: Area, maintainAspectRatio: bool,
                               resize: Resampler, blend: Blend) returns (r: Result<Image, Failure>)
    requires user.Valid() && template.Valid()
    ensures r == StaticComposite(user, template.frames[0], area, maintainAspectRatio, resize, blend)
  {
    var frame := template.frames[0];
    var fitted := ResizeImageToFitArea(user, area.width, area.height, maintainAspectRatio, resize);
    if fitted.Err? {
      return Err(fitted.error);
    }
    var out := ComposeFrame(frame.width, frame.height, fitted.value, area.left, area.top, frame, blend);
    return Ok(out);
  }

  /** `ImageProcessor._process_gif_template`. */
  method ProcessGifTemplate(user: Image, template: Template, area: Area, resize: Resampler, blend: Blend)
    returns (out: Option<Output>)
    requires user.Valid() && template.Valid()
    ensures out == AnimationOutput(user, template, area.left, area.top, area.width, area.height, resize, blend)
  {
    out := ComposeAnimation(user, template, area.left, area.top, area.width, area.height, resize, blend);
  }

  /** `ImageProcessor.process_image`. */
  method ProcessImage(user: Image, template: Template, maintainAspectRatio: bool,
                      resize: Resampler, blend: Blend) returns (r: Result<Output, Failure>)
    requires user.Valid() && template.Valid()
    ensures r == Processed(user, template, maintainAspectRatio, resize, blend)
  {
    var area := FindTransparentArea(template.frames[0]);
    if area.None? {
      return Err(NoTransparentArea);
    }
    if IsGifPath(template.path) {
      var gif := ProcessGifTemplate(user, template, area.value, resize, blend);
      if gif.None? {
        return Err(EmptyResize);
      }
      return Ok(gif.value);
    }
    var still := ProcessStaticTemplate(user, template, area.value, maintainAspectRatio, resize, blend);
    match still
    case Ok(image) => r := Ok(Still(image));
    case Err(e) => r := Err(e);
  }
}
