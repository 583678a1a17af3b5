/** The raster operations the compositors call on their imaging library: a blank RGBA
    canvas, a plain rectangular `paste`, a `paste` masked by the pasted image's own
    alpha, and `resize`. Only dimensions, placement and the fully-opaque and
    fully-transparent mask cases are modelled; resampling and partial-alpha blending
    are parameters. */
module Raster {
  import opened Wrappers

  newtype byte = x: int | 0 <= x < 256

  /** One RGBA pixel. */
  datatype Pixel = Pixel(r: byte, g: byte, b: byte, a: byte)

  /** The colour of a freshly created RGBA canvas. */
  const Clear := Pixel(0, 0, 0, 0)

  /** A raster of `height` rows of `width` pixels; `rows[y][x]` is the pixel at column x, row y. */
  datatype Image = Image(width: nat, height: nat, rows: seq<seq<Pixel>>) {
    ghost predicate Valid() {
      |rows| == height && forall y :: 0 <= y < height ==> |rows[y]| == width
    }
  }

  ghost predicate Sized(img: Image, w: nat, h: nat) {
    img.Valid() && img.width == w && img.height == h
  }

  /** `image.resize((w, h))`: whatever the resampling filter does, the result has the
      requested size. */
  type Resampler = f: (Image, nat, nat) -> Image | forall src, w, h :: Sized(f(src, w, h), w, h)
    witness (src: Image, w: nat, h: nat) => Blank(w, h)

  /** PIL refuses to resize to a zero width or height (`ValueError`), except that
      asking for the size the image already has returns a copy before that test. */
  predicate RefusedSize(src: Image, w: nat, h: nat) {
    (w == 0 || h == 0) && !(w == src.width && h == src.height)
  }

  /** `src.resize((w, h))`: None where PIL raises, `src` itself when the size does
      not change, otherwise the resampler's image. */
  function Resize(resize: Resampler, src: Image, w: nat, h: nat): (r: Option<Image>)
    requires src.Valid()
    ensures r.None? <==> RefusedSize(src, w, h)
    ensures r.Some? ==> Sized(r.value, w, h)
  {
    if w == src.width && h == src.height then Some(src)
    else if w == 0 || h == 0 then None
    else Some(resize(src, w, h))
  }

  /** What a masked paste makes of an underlying and an overlaid pixel when the mask is
      strictly between 0 and 255. */
  type Blend = (Pixel, Pixel, byte) -> Pixel

  /** `Image.new("RGBA", (w, h))`: every pixel fully transparent black. */
  function Blank(w: nat, h: nat): (img: Image)
    ensures Sized(img, w, h)
    ensures forall y, x :: 0 <= y < h && 0 <= x < w ==> img.rows[y][x] == Clear
  {
    Image(w, h, seq(h, _ => seq(w, _ => Clear)))
  }

  /** Pixel (x, y) of a canvas lies under `src` pasted with its top-left corner at (left, top). */
  predicate Covers(src: Image, left: nat, top: nat, x: int, y: int) {
    left <= x < left + src.width && top <= y < top + src.height
  }

  /** `base.paste(src, (left, top))`: a rectangular copy clipped to the canvas. */
  function Pasted(base: Image, src: Image, left: nat, top: nat): (r: Image)
    requires base.Valid() && src.Valid()
    ensures Sized(r, base.width, base.height)
    ensures forall y, x :: 0 <= y < base.height && 0 <= x < base.width ==>
      r.rows[y][x] == if Covers(src, left, top, x, y) then src.rows[y - top][x - left] else base.rows[y][x]
  {
    Image(base.width, base.height,
      seq(base.height, y requires 0 <= y < base.height =>
        seq(base.width, x requires 0 <= x < base.width =>
          if Covers(src, left, top, x, y) then src.rows[y - top][x - left] else base.rows[y][x])))
  }

  /** One pixel of a paste masked by the pasted pixel's alpha: alpha 0 keeps what was
      below, alpha 255 takes the pasted pixel, anything between is the library's blend. */
  function Masked(under: Pixel, over: Pixel, blend: Blend): Pixel {
    if over.a == 0 then under else if over.a == 255 then over else blend(under, over, over.a)
  }

  /** `base.paste(layer, (0, 0), layer)`: `layer` laid over `base` at the origin, using
      its own alpha as the mask, clipped to the canvas. */
  function Overlaid(base: Image, layer: Image, blend: Blend): (r: Image)
    requires base.Valid() && layer.Valid()
    ensures Sized(r, base.width, base.height)
    ensures forall y, x :: 0 <= y < base.height && 0 <= x < base.width ==>
      r.rows[y][x] == if Covers(layer, 0, 0, x, y) then Masked(base.rows[y][x], layer.rows[y][x], blend) else base.rows[y][x]
  {
    Image(base.width, base.height,
      seq(base.height, y requires 0 <= y < base.height =>
        seq(base.width, x requires 0 <= x < base.width =>
          if Covers(layer, 0, 0, x, y) then Masked(base.rows[y][x], layer.rows[y][x], blend) else base.rows[y][x])))
  }

  function Min(a: nat, b: nat): nat {
    if a < b then a else b
  }

  function Max(a: nat, b: nat): nat {
    if a < b then b else a
  }

  /** An RGBA image of fixed size whose pixels are updated in place by `paste`. */
  class Canvas {
    ghost var Contents: Image

    const width: nat
    const height: nat
    const pixels: array2<Pixel>

    ghost predicate Valid()
      reads this, pixels
    {
      pixels.Length0 == height && pixels.Length1 == width &&
      Sized(Contents, width, height) &&
      forall y, x :: 0 <= y < height && 0 <= x < width ==> pixels[y, x] == Contents.rows[y][x]
    }

    /** `Image.new("RGBA", (width, height))`. */
    constructor (width: nat, height: nat)
      ensures Valid() && fresh(pixels)
      ensures Contents == Blank(width, height)
    {
      this.width := width;
      this.height := height;
      pixels := new Pixel[height, width]((y, x) => Clear);
      Contents := Blank(width, height);
    }

    /** `paste(src, (left, top))`. */
    method Paste(src: Image, left: nat, top: nat)
      requires Valid() && src.Valid()
      modifies this, pixels
      ensures Valid() && Contents == Pasted(old(Contents), src, left, top)
    {
      ghost var target := Pasted(Contents, src, left, top);
      var yEnd, xEnd := Min(height, top + src.height), Min(width, left + src.width);
      var y := top;
      while y < yEnd
        invariant top <= y && (y <= yEnd || y == top)
        invariant forall yy, xx :: 0 <= yy < height && 0 <= xx < width ==>
          pixels[yy, xx] == if top <= yy < y && left <= xx < xEnd then target.rows[yy][xx] else Contents.rows[yy][xx]
        modifies pixels
      {
        var x := left;
        while x < xEnd
          invariant left <= x && (x <= xEnd || x == left)
          invariant forall yy, xx :: 0 <= yy < height && 0 <= xx < width ==>
            pixels[yy, xx] == if (top <= yy < y && left <= xx < xEnd) || (yy == y && left <= xx < x)
                              then target.rows[yy][xx] else Contents.rows[yy][xx]
          modifies pixels
        {
          pixels[y, x] := src.rows[y - top][x - left];
          x := x + 1;
        }
        y := y + 1;
      }
      Contents := target;
    }

    /** `paste(layer, (0, 0), layer)`. */
    method PasteMasked(layer: Image, blend: Blend)
      requires Valid() && layer.Valid()
      modifies this, pixels
      ensures Valid() && Contents == Overlaid(old(Contents), layer, blend)
    {
      ghost var target := Overlaid(Contents, layer, blend);
      var yEnd, xEnd := Min(height, layer.height), Min(width, layer.width);
      var y := 0;
      while y < yEnd
        invariant y <= yEnd
        invariant forall yy, xx :: 0 <= yy < height && 0 <= xx < width ==>
          pixels[yy, xx] == if yy < y && xx < xEnd then target.rows[yy][xx] else Contents.rows[yy][xx]
        modifies pixels
      {
        var x := 0;
        while x < xEnd
          invariant x <= xEnd
          invariant forall yy, xx :: 0 <= yy < height && 0 <= xx < width ==>
            pixels[yy, xx] == if (yy < y && xx < xEnd) || (yy == y && xx < x)
                              then target.rows[yy][xx] else Contents.rows[yy][xx]
          modifies pixels
        {
          pixels[y, x] := Masked(pixels[y, x], layer.rows[y][x], blend);
          x := x + 1;
        }
        y := y + 1;
      }
      Contents := target;
    }

    /** The canvas as an image value. */
    method Snapshot() returns (img: Image)
      requires Valid()
      ensures img == Contents
    {
      var rows: seq<seq<Pixel>> := [];
      var y := 0;
      while y < height
        invariant y <= height && rows == Contents.rows[..y]
      {
        var row: seq<Pixel> := [];
        var x := 0;
        while x < width
          invariant x <= width && row == Contents.rows[y][..x]
        {
          row := row + [pixels[y, x]];
          x := x + 1;
        }
        assert row == Contents.rows[y];
        assert Contents.rows[..y + 1] == Contents.rows[..y] + [Contents.rows[y]];
        rows := rows + [row];
        y := y + 1;
      }
      assert rows == Contents.rows;
      img := Image(width, height, rows);
    }
  }
}
