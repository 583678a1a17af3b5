/** The layering step every compositor of the meme creator performs, and the template
    and output values they share: a transparent canvas the size of the template (or
    of one of its frames), the fitted user image pasted at the slot's corner, and the
    template laid on top through its own alpha. */
module Compose {
  import opened Wrappers
  import opened Raster
  import opened Text

  /** A decoded template: its path, its frames converted to RGBA (a still image has one)
      and the frame duration the decoder declares, if any. */
  datatype Template = Template(path: string, frames: seq<Image>, duration: Option<nat>) {
    ghost predicate Valid() {
      |frames| > 0 && forall i :: 0 <= i < |frames| ==> frames[i].Valid()
    }
  }

  /** What a compositor hands back: one image, or the frames of an animated GIF with
      its `loop` and `duration` save parameters. */
  datatype Output = Still(image: Image) | Animation(frames: seq<Image>, loop: nat, duration: nat)

  /** The duration used when the template declares none. */
  const DefaultDuration: nat := 100

  /** `template_path.lower().endswith('.gif')`. */
  predicate IsGifPath(path: string) {
    EndsWith(Lower(path), ".gif")
  }

  /** The GIF test looks at the last four characters only, in any letter case. */
  lemma IsGifPathSuffix(path: string)
    ensures IsGifPath(path) <==> |path| >= 4 && Lower(path[|path| - 4..]) == ".gif"
  {
    if |path| >= 4 {
      assert Lower(path)[|path| - 4..] == Lower(path[|path| - 4..]);
    }
  }

  /** `template.info.get('duration', 100)`. */
  function FrameDuration(t: Template): nat {
    match t.duration
    case Some(d) => d
    case None => DefaultDuration
  }

  /** A `width` x `height` transparent canvas, `placed` pasted at (left, top), then
      `layer` pasted over it with its own alpha as the mask. */
  function Composite(width: nat, height: nat, placed: Image, left: nat, top: nat, layer: Image, blend: Blend): (r: Image)
    requires placed.Valid() && layer.Valid()
    ensures Sized(r, width, height)
  {
    Overlaid(Pasted(Blank(width, height), placed, left, top), layer, blend)
  }

  /** Where the layer is fully opaque the output shows the layer; where it is fully
      transparent it shows the placed image inside the pasted rectangle and a fully
      transparent pixel outside it. */
  lemma CompositeMaskRule(width: nat, height: nat, placed: Image, left: nat, top: nat, layer: Image, blend: Blend, x: nat, y: nat)
    requires placed.Valid() && layer.Valid()
    requires x < width && y < height && x < layer.width && y < layer.height
    ensures var out := Composite(width, height, placed, left, top, layer, blend).rows[y][x];
            var over := layer.rows[y][x];
            (over.a == 255 ==> out == over) &&
            (over.a == 0 && Covers(placed, left, top, x, y) ==> out == placed.rows[y - top][x - left]) &&
            (over.a == 0 && !Covers(placed, left, top, x, y) ==> out == Clear)
  {
  }

  /** The shared body of every compositor: new canvas, paste, masked paste. */
  method ComposeFrame(width: nat, height: nat, placed: Image, left: nat, top: nat, layer: Image, blend: Blend)
    returns (out: Image)
    requires placed.Valid() && layer.Valid()
    ensures out == Composite(width, height, placed, left, top, layer, blend)
  {
    var canvas := new Canvas(width, height);
    canvas.Paste(placed, left, top);
    canvas.PasteMasked(layer, blend);
    out := canvas.Snapshot();
  }

  /** The frames of the animated output: frame i is the user image stretched to the slot
      size, composited under frame i of the template on a canvas of that frame's size. */
  function AnimationFrames(user: Image, t: Template, left: nat, top: nat, width: nat, height: nat,
                           resize: Resampler, blend: Blend): (frames: seq<Image>)
    requires user.Valid() && t.Valid() && !RefusedSize(user, width, height)
    ensures |frames| == |t.frames|
    ensures forall i :: 0 <= i < |frames| ==> Sized(frames[i], t.frames[i].width, t.frames[i].height)
  {
    var fitted := Resize(resize, user, width, height).value;
    seq(|t.frames|, i requires 0 <= i < |t.frames| =>
      Composite(t.frames[i].width, t.frames[i].height, fitted, left, top, t.frames[i], blend))
  }

  /** The GIF the compositor saves: its frames in template order, looping forever, with
      the template's declared duration or 100. None where the first frame's `resize`
      raises, which happens for every frame alike. */
  function AnimationOutput(user: Image, t: Template, left: nat, top: nat, width: nat, height: nat,
                           resize: Resampler, blend: Blend): Option<Output>
    requires user.Valid() && t.Valid()
  {
    if RefusedSize(user, width, height) then None
    else Some(Animation(AnimationFrames(user, t, left, top, width, height, resize, blend), 0, FrameDuration(t)))
  }

  /** The GIF fails exactly when the slot size is one PIL refuses; otherwise it has one
      output frame per template frame, in order, each of its source frame's size;
      `loop=0`; duration from the template, 100 when it declares none. */
  lemma AnimationOutputShape(user: Image, t: Template, left: nat, top: nat, width: nat, height: nat,
                             resize: Resampler, blend: Blend)
    requires user.Valid() && t.Valid()
    ensures var r := AnimationOutput(user, t, left, top, width, height, resize, blend);
            (r.None? <==> RefusedSize(user, width, height)) &&
            (r.Some? ==>
              var out := r.value;
              out.Animation? && |out.frames| == |t.frames| && out.loop == 0 &&
              (forall i :: 0 <= i < |t.frames| ==> Sized(out.frames[i], t.frames[i].width, t.frames[i].height)) &&
              (forall i :: 0 <= i < |t.frames| ==>
                 out.frames[i] == Composite(t.frames[i].width, t.frames[i].height, Resize(resize, user, width, height).value,
                                            left, top, t.frames[i], blend)) &&
              out.duration == (if t.duration.Some? then t.duration.value else 100))
  {
  }

  /** Output frame i is drawn from template frame i: where that frame is opaque it
      shows the frame, where it is fully transparent it shows the stretched user image
      inside [left, left + width) x [top, top + height) and transparent black outside. */
  lemma AnimationFrameMaskRule(user: Image, t: Template, left: nat, top: nat, width: nat, height: nat,
                               resize: Resampler, blend: Blend, i: nat, x: nat, y: nat)
    requires user.Valid() && t.Valid() && !RefusedSize(user, width, height)
    requires i < |t.frames| && x < t.frames[i].width && y < t.frames[i].height
    ensures var out := AnimationOutput(user, t, left, top, width, height, resize, blend).value.frames[i].rows[y][x];
            var over := t.frames[i].rows[y][x];
            var fitted := Resize(resize, user, width, height).value;
            (over.a == 255 ==> out == over) &&
            (over.a == 0 && left <= x < left + width && top <= y < top + height ==>
               out == fitted.rows[y - top][x - left]) &&
            (over.a == 0 && !(left <= x < left + width && top <= y < top + height) ==> out == Clear)
  {
    var fitted := Resize(resize, user, width, height).value;
    CompositeMaskRule(t.frames[i].width, t.frames[i].height, fitted, left, top, t.frames[i], blend, x, y);
  }

  /** The frame loop shared by both GIF compositors. */
  method ComposeAnimation(user: Image, t: Template, left: nat, top: nat, width: nat, height: nat,
                          resize: Resampler, blend: Blend) returns (out: Option<Output>)
    requires user.Valid() && t.Valid()
    ensures out == AnimationOutput(user, t, left, top, width, height, resize, blend)
  {
    var frames: seq<Image> := [];
    for i := 0 to |t.frames|
      invariant i == 0 ==> frames == []
      invariant i > 0 ==> !RefusedSize(user, width, height) &&
                          frames == AnimationFrames(user, t, left, top, width, height, resize, blend)[..i]
    {
      var frame := t.frames[i];
      var fitted := Resize(resize, user, width, height);
      if fitted.None? {
        return None;
      }
      var composed := ComposeFrame(frame.width, frame.height, fitted.value, left, top, frame, blend);
      frames := frames + [composed];
    }
    assert frames == AnimationFrames(user, t, left, top, width, height, resize, blend);
    out := Some(Animation(frames, 0, FrameDuration(t)));
  }
}
