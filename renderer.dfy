/** The software compositor and glyph cache of src/renderer.rs: integer alpha
    blending, clip-clamped rectangle fill and image blit into a width x height
    pixel array, the lazily built 256-page glyph cache with its doubling atlas
    bake, and text measurement.  The rasteriser is an oracle (`Rasterizer`),
    the window surface a caller-supplied pixel array. */
module Renderer {
  import opened Bytes
  import opened Arith

  datatype Option<T> = None | Some(value: T)

  /** `RenColor`, in its memory order b, g, r, a. */
  datatype RenColor = RenColor(b: byte, g: byte, r: byte, a: byte)

  /** `RenRect`: integer rectangle; width or height <= 0 means empty. */
  datatype RenRect = RenRect(x: int, y: int, width: int, height: int)

  /** The global `CLIP`, as edges. */
  datatype Clip = Clip(left: int, top: int, right: int, bottom: int)

  function Min(a: int, b: int): int { if a < b then a else b }
  function Max(a: int, b: int): int { if a > b then a else b }

  // ---------------------------------------------------------------------------
  // Blending

  /** Lower and upper bound of the weighted sum used by `blend_pixel`. */
  lemma WeightedSumBounds(s: byte, d: byte, a: byte)
    ensures 255 * Min(s, d) <= s * a + d * (255 - a) <= 255 * Max(s, d)
  {
    var lo, hi := Min(s, d), Max(s, d);
    MulLe(lo, s, a);
    MulLe(s, hi, a);
    MulLe(lo, d, 255 - a);
    MulLe(d, hi, 255 - a);
    DistribLeft(lo, a, 255 - a);
    DistribLeft(hi, a, 255 - a);
  }

  /** One colour channel of `blend_pixel`: `(src*a + dst*(255-a)) >> 8`.  The
      result lies between the two inputs (at most one unit below the smaller,
      because of the final shift), so the `as u8` cast never wraps. */
  function BlendChannel(s: byte, d: byte, a: byte): (v: byte)
    ensures Min(s, d) - 1 <= v <= Max(s, d)
  {
    WeightedSumBounds(s, d, a);
    (s * a + d * (255 - a)) / 256
  }

  /** `blend_pixel(dst, src)`: each RGB channel moves towards `src` by `src.a`;
      the destination alpha is kept. */
  function BlendPixel(dst: RenColor, src: RenColor): (res: RenColor)
    ensures res.a == dst.a
    ensures Min(src.r, dst.r) - 1 <= res.r <= Max(src.r, dst.r)
    ensures Min(src.g, dst.g) - 1 <= res.g <= Max(src.g, dst.g)
    ensures Min(src.b, dst.b) - 1 <= res.b <= Max(src.b, dst.b)
  {
    dst.(r := BlendChannel(src.r, dst.r, src.a),
         g := BlendChannel(src.g, dst.g, src.a),
         b := BlendChannel(src.b, dst.b, src.a))
  }

  /** A concrete case: half-transparent red over black. */
  lemma BlendHalfRedOverBlack()
    ensures BlendPixel(RenColor(0, 0, 0, 255), RenColor(0, 0, 255, 128)) == RenColor(0, 0, 127, 255)
  {
  }

  lemma TintedSumBound(s: byte, c: byte, d: byte, a: byte)
    requires a < 255
    ensures 0 <= (s * c * a) / 65536 && 0 <= (d * (255 - a)) / 256
    ensures (s * c * a) / 65536 + (d * (255 - a)) / 256 <= Max(c, d)
  {
    var m := Max(c, d);
    MulNonNeg(s, c);
    MulNonNeg(s * c, a);
    MulNonNeg(d, 255 - a);
    MulLe(s, 255, c);
    MulLe(s * c, 255 * c, a);
    MulAssoc(255, c, a);
    MulLe(c, m, a);
    MulLe(d, m, 255 - a);
    DistribLeft(m, 255 - a, a);
    MulNonNeg(m, a);
  }

  /** One channel of `blend_pixel2`: `((src*col*a') >> 16) + ((dst*(255-a')) >> 8)`
      where `a'` is the already scaled source alpha.  The tinted result never
      exceeds the brighter of the tint and the background, so it fits a byte. */
  function TintChannel(s: byte, c: byte, d: byte, a: byte): (v: byte)
    requires a < 255
    ensures v <= Max(c, d)
  {
    var tint := (s * c * a) / 65536;
    var back := (d * (255 - a)) / 256;
    TintedSumBound(s, c, d, a);
    tint + back
  }

  /** Scaled source alpha of `blend_pixel2`: `(src.a * color.a) >> 8`. */
  function ScaledAlpha(srcA: byte, colorA: byte): (a: byte)
    ensures a < 255
    ensures a <= srcA && a <= colorA
    ensures srcA == 0 || colorA == 0 ==> a == 0
  {
    MulLe(srcA, 255, colorA);
    MulLe(colorA, 255, srcA);
    MulComm(srcA, colorA);
    (srcA * colorA) / 256
  }

  /** `blend_pixel2(dst, src, color)`: the source pixel (a white glyph-atlas
      pixel with coverage in alpha) is tinted by `color` and blended onto `dst`;
      the destination alpha is kept. */
  function BlendPixel2(dst: RenColor, src: RenColor, color: RenColor): (res: RenColor)
    ensures res.a == dst.a
    ensures res.r <= Max(color.r, dst.r) && res.g <= Max(color.g, dst.g) && res.b <= Max(color.b, dst.b)
  {
    var a := ScaledAlpha(src.a, color.a);
    dst.(r := TintChannel(src.r, color.r, dst.r, a),
         g := TintChannel(src.g, color.g, dst.g, a),
         b := TintChannel(src.b, color.b, dst.b, a))
  }

  // ---------------------------------------------------------------------------
  // Pixel buffers

  /** Index of the first pixel of row py in a row-major buffer: py rows of
      `width` pixels.  Counted row by row, so that the solver meets the
      product `py * width` only through `RowStartIsProduct`. */
  function RowStart(width: int, py: nat): int
  {
    if py == 0 then 0 else RowStart(width, py - 1) + width
  }

  lemma {:induction false} RowStartIsProduct(width: int, py: nat)
    ensures RowStart(width, py) == py * width
  {
    if py > 0 {
      RowStartIsProduct(width, py - 1);
      Distrib(py - 1, 1, width);
    }
  }

  /** Rows further down start further on, by at least one row per row. */
  lemma {:induction false} RowStartMono(width: nat, py: nat, qy: nat)
    requires py < qy
    ensures RowStart(width, py) + width <= RowStart(width, qy)
    decreases qy
  {
    if py + 1 < qy {
      RowStartMono(width, py, qy - 1);
    }
  }

  /** Offset of pixel (px, py) in a row-major buffer of the given width. */
  function Offset(width: int, px: int, py: nat): int { RowStart(width, py) + px }

  lemma OffsetInRange(width: int, height: int, px: int, py: int)
    requires 0 <= px < width && 0 <= py < height
    ensures 0 <= Offset(width, px, py) < width * height
  {
    RowStartIsProduct(width, py);
    MulNonNeg(py, width);
    MulLe(py + 1, height, width);
    Distrib(py, 1, width);
    MulComm(height, width);
  }

  /** Which pixels of a row-major buffer a span [x1, x2) of row y covers. */
  lemma RowSpan(width: nat, px: int, py: nat, x1: int, x2: int, y: nat)
    requires 0 <= px < width && 0 <= x1 <= x2 <= width
    ensures Offset(width, x1, y) <= Offset(width, px, py) < Offset(width, x1, y) + (x2 - x1) <==>
      py == y && x1 <= px < x2
  {
    if py < y {
      RowStartMono(width, py, y);
    } else if y < py {
      RowStartMono(width, y, py);
    }
  }

  /** Distinct pixels have distinct offsets. */
  lemma OffsetDistinct(width: nat, px: int, py: nat, qx: int, qy: nat)
    requires 0 <= px < width && 0 <= qx < width
    requires px != qx || py != qy
    ensures Offset(width, px, py) != Offset(width, qx, qy)
  {
    if py < qy {
      RowStartMono(width, py, qy);
    } else if qy < py {
      RowStartMono(width, qy, py);
    }
  }

  /** `RenImage`: a width x height picture of `RenColor`s, kept as the raw bytes
      (b, g, r, a per pixel) because the atlas bake first writes one coverage
      byte per pixel into the same memory. */
  class Image {
    const width: int
    const height: int
    const pixels: array<byte>

    ghost predicate Valid()
    {
      0 < width && 0 < height && pixels.Length == 4 * (width * height)
    }

    /** `ren_new_image`: asserts a positive size and returns a zeroed buffer. */
    constructor (width: int, height: int)
      requires width > 0 && height > 0
      ensures this.width == width && this.height == height
      ensures Valid() && fresh(pixels)
      ensures forall i :: 0 <= i < pixels.Length ==> pixels[i] == 0
    {
      this.width := width;
      this.height := height;
      assert width * height > 0;
      pixels := new byte[4 * (width * height)](_ => 0);
    }

    /** The `RenColor` at column px of row py. */
    function Pixel(px: int, py: int): RenColor
      reads pixels
      requires Valid() && 0 <= px < width && 0 <= py < height
    {
      OffsetInRange(width, height, px, py);
      ColorAt(Offset(width, px, py))
    }

    /** The `RenColor` stored at pixel index i. */
    function ColorAt(i: int): RenColor
      reads pixels
      requires Valid() && 0 <= i < width * height
    {
      PixelAt(pixels, i)
    }
  }

  /** The pixel value of buffer `a` at pixel i, reading its four bytes. */
  function PixelAt(a: array<byte>, i: int): RenColor
    reads a
    requires 0 <= i && 4 * i + 3 < a.Length
  {
    RenColor(a[4 * i], a[4 * i + 1], a[4 * i + 2], a[4 * i + 3])
  }

  /** A 4-byte store of one `RenColor` at pixel index i of a byte buffer. */
  method StorePixel(buf: array<byte>, i: int, c: RenColor)
    requires 0 <= i && 4 * i + 3 < buf.Length
    modifies buf
    ensures PixelAt(buf, i) == c
    ensures forall j :: 0 <= j < buf.Length && (j < 4 * i || 4 * i + 3 < j) ==> buf[j] == old(buf[j])
    ensures forall k :: 0 <= k && 4 * k + 3 < buf.Length && k != i ==> PixelAt(buf, k) == old(PixelAt(buf, k))
  {
    buf[4 * i] := c.b;
    buf[4 * i + 1] := c.g;
    buf[4 * i + 2] := c.r;
    buf[4 * i + 3] := c.a;
  }

  /** The tail of `load_glyphset`: turns n coverage bytes, stored one per byte at
      the start of the buffer, into n pixels `(255, 255, 255, coverage)`, in
      place.  Walking from the last pixel down means pixel i (bytes 4i..4i+3) is
      written only after every coverage byte at index <= 4i has been read. */
  method ExpandCoverage(buf: array<byte>, n: int)
    requires 0 <= n && 4 * n <= buf.Length
    modifies buf
    ensures forall i :: 0 <= i < n ==> PixelAt(buf, i) == RenColor(255, 255, 255, old(buf[i]))
    ensures forall j :: 4 * n <= j < buf.Length ==> buf[j] == old(buf[j])
  {
    var i := n;
    while i > 0
      invariant 0 <= i <= n
      invariant forall j :: 0 <= j < 4 * i ==> buf[j] == old(buf[j])
      invariant forall j :: 4 * n <= j < buf.Length ==> buf[j] == old(buf[j])
      invariant forall k :: i <= k < n ==> PixelAt(buf, k) == RenColor(255, 255, 255, old(buf[k]))
    {
      i := i - 1;
      var c := buf[i];
      StorePixel(buf, i, RenColor(255, 255, 255, c));
    }
  }

  // ---------------------------------------------------------------------------
  // The compositor

  /** Pixel (px, py) lies in the half-open box [x1, x2) x [y1, y2). */
  predicate InBox(px: int, py: int, x1: int, y1: int, x2: int, y2: int)
  {
    x1 <= px < x2 && y1 <= py < y2
  }

  /** The box `ren_draw_rect` fills: `rect` with its left/top raised to the clip
      and its right/bottom lowered to it. */
  function ClampToClip(rect: RenRect, clip: Clip): (box: Clip)
    ensures forall px, py :: InBox(px, py, box.left, box.top, box.right, box.bottom) <==>
      InBox(px, py, rect.x, rect.y, rect.x + rect.width, rect.y + rect.height) &&
      InBox(px, py, clip.left, clip.top, clip.right, clip.bottom)
  {
    Clip(if rect.x < clip.left then clip.left else rect.x,
         if rect.y < clip.top then clip.top else rect.y,
         if rect.x + rect.width > clip.right then clip.right else rect.x + rect.width,
         if rect.y + rect.height > clip.bottom then clip.bottom else rect.y + rect.height)
  }

  /** What `ren_draw_rect(rect, color)` leaves at pixel (px, py), given its old value. */
  function RectPixel(old_: RenColor, px: int, py: int, rect: RenRect, clip: Clip, color: RenColor): (r: RenColor)
    ensures r == old_ || r == color || r == BlendPixel(old_, color)
    ensures r == color || r.a == old_.a
  {
    var box := ClampToClip(rect, clip);
    if color.a != 0 && InBox(px, py, box.left, box.top, box.right, box.bottom) then
      (if color.a == 255 then color else BlendPixel(old_, color))
    else old_
  }

  /** A fill never touches a pixel outside the clip, and a transparent one
      touches nothing. */
  lemma {:induction false} RectPixelStaysInClip(old_: RenColor, px: int, py: int, rect: RenRect, clip: Clip, color: RenColor)
    ensures !InBox(px, py, clip.left, clip.top, clip.right, clip.bottom) ==> RectPixel(old_, px, py, rect, clip, color) == old_
    ensures color.a == 0 ==> RectPixel(old_, px, py, rect, clip, color) == old_
    ensures (color.a == 255 && InBox(px, py, rect.x, rect.y, rect.x + rect.width, rect.y + rect.height) &&
             InBox(px, py, clip.left, clip.top, clip.right, clip.bottom)) ==> RectPixel(old_, px, py, rect, clip, color) == color
  {
    var box := ClampToClip(rect, clip);
    assert InBox(px, py, box.left, box.top, box.right, box.bottom) <==>
      InBox(px, py, rect.x, rect.y, rect.x + rect.width, rect.y + rect.height) &&
      InBox(px, py, clip.left, clip.top, clip.right, clip.bottom);
  }

  /** The four-side adjustment at the head of `ren_draw_image`: the source
      sub-rectangle and the destination origin are shrunk and shifted so that the
      destination block starts inside the clip and ends inside it.  The result is
      (adjusted sub, x, y); a non-empty result lies in the clip and in `sub`. */
  function ClipSub(sub: RenRect, x: int, y: int, clip: Clip): (res: (RenRect, int, int))
    ensures res.0.width <= sub.width && res.0.height <= sub.height
    ensures res.0.width > 0 && res.0.height > 0 ==>
      clip.left <= res.1 && res.1 + res.0.width <= clip.right &&
      clip.top <= res.2 && res.2 + res.0.height <= clip.bottom &&
      sub.x <= res.0.x && res.0.x + res.0.width <= sub.x + sub.width &&
      sub.y <= res.0.y && res.0.y + res.0.height <= sub.y + sub.height
    ensures res.0.x - sub.x == res.1 - x && res.0.y - sub.y == res.2 - y
  {
    var n1 := clip.left - x;
    var s1 := if n1 > 0 then sub.(width := sub.width - n1, x := sub.x + n1) else sub;
    var x1 := if n1 > 0 then x + n1 else x;
    var n2 := clip.top - y;
    var s2 := if n2 > 0 then s1.(height := s1.height - n2, y := s1.y + n2) else s1;
    var y1 := if n2 > 0 then y + n2 else y;
    var n3 := x1 + s2.width - clip.right;
    var s3 := if n3 > 0 then s2.(width := s2.width - n3) else s2;
    var n4 := y1 + s3.height - clip.bottom;
    var s4 := if n4 > 0 then s3.(height := s3.height - n4) else s3;
    (s4, x1, y1)
  }

  /** The surface the renderer draws on (the SDL window surface in the source,
      here a caller-supplied width x height array) and the global `CLIP`. */
  class Surface {
    const width: int
    const height: int
    const pixels: array<RenColor>
    var clip: Clip

    ghost predicate Valid()
    {
      0 <= width && 0 <= height && pixels.Length == width * height &&
      forall px, py :: OnSurface(px, py) ==> 0 <= Offset(width, px, py) < pixels.Length
    }

    /**
     * The clip starts at a non-negative corner and is either empty or lies
     * on the surface. An empty clip past the right or bottom edge is allowed:
     * the render cache sets one when a SET_CLIP rectangle misses the screen,
     * and the fill and blit then write nothing.
     */
    ghost predicate ClipOnSurface()
      reads this
    {
      0 <= clip.left && 0 <= clip.top &&
      (clip.right <= clip.left || clip.bottom <= clip.top ||
       (clip.right <= width && clip.bottom <= height))
    }

    ghost predicate OnSurface(px: int, py: int)
    {
      0 <= px < width && 0 <= py < height
    }

    /** `ren_init`'s part that concerns this model: the clip starts as the whole surface. */
    constructor (pixels: array<RenColor>, width: int, height: int)
      requires 0 <= width && 0 <= height && pixels.Length == width * height
      ensures this.pixels == pixels && this.width == width && this.height == height
      ensures Valid() && ClipOnSurface()
      ensures clip == Clip(0, 0, width, height)
    {
      this.pixels := pixels;
      this.width := width;
      this.height := height;
      clip := Clip(0, 0, width, height);
      forall px, py | 0 <= px < width && 0 <= py < height
        ensures 0 <= Offset(width, px, py) < pixels.Length
      {
        OffsetInRange(width, height, px, py);
      }
    }

    /** `ren_set_clip_rect`: the clip becomes the rectangle's edges. */
    method SetClipRect(rect: RenRect)
      modifies this
      ensures clip == Clip(rect.x, rect.y, rect.x + rect.width, rect.y + rect.height)
    {
      clip := Clip(rect.x, rect.y, rect.x + rect.width, rect.y + rect.height);
    }

    /** `ren_draw_rect`: nothing for a transparent colour; otherwise every pixel
        of rect clamped to the clip becomes `color` (opaque) or
        `blend_pixel(old, color)`, and no other pixel changes.  The source's
        two identical loop nests (opaque / blended) are one loop here, whose
        inner row is `PaintRow`. */
    method DrawRect(rect: RenRect, color: RenColor)
      requires Valid() && ClipOnSurface()
      modifies pixels
      ensures forall px, py :: OnSurface(px, py) ==>
        pixels[Offset(width, px, py)] == RectPixel(old(pixels[Offset(width, px, py)]), px, py, rect, clip, color)
    {
      if color.a == 0 {
        return;
      }
      var x1 := if rect.x < clip.left then clip.left else rect.x;
      var y1 := if rect.y < clip.top then clip.top else rect.y;
      var x2 := rect.x + rect.width;
      var y2 := rect.y + rect.height;
      x2 := if x2 > clip.right then clip.right else x2;
      y2 := if y2 > clip.bottom then clip.bottom else y2;
      ghost var box := ClampToClip(rect, clip);
      assert box == Clip(x1, y1, x2, y2);
      ghost var orig := pixels[..];
      RowStartIsProduct(width, y1);
      var d := x1 + y1 * width;
      var dr := width - (x2 - x1);
      var y := y1;
      while y < y2
        invariant y1 <= y <= Max(y1, y2)
        invariant x1 < x2 ==> d == Offset(width, x1, y)
        invariant forall px, py :: OnSurface(px, py) ==>
          pixels[Offset(width, px, py)] ==
            (if InBox(px, py, x1, y1, x2, y) then Painted(orig[Offset(width, px, py)], color)
             else orig[Offset(width, px, py)])
      {
        if x1 < x2 {
          d := PaintRow(d, x1, x2, y, color);
        }
        d := d + dr;
        y := y + 1;
      }
      forall px, py | OnSurface(px, py)
        ensures pixels[Offset(width, px, py)] == RectPixel(orig[Offset(width, px, py)], px, py, rect, clip, color)
      {
        assert InBox(px, py, x1, y1, x2, y) <==> InBox(px, py, box.left, box.top, box.right, box.bottom);
      }
    }

    /** One row of `ren_draw_rect`'s loop nest: the pixels x1 .. x2-1 of row y,
        starting at cursor d0, are painted; the cursor after the row is
        returned. */
    method PaintRow(d0: int, x1: int, x2: int, y: int, color: RenColor) returns (d: int)
      requires Valid() && 0 <= x1 < x2 <= width && 0 <= y < height && d0 == Offset(width, x1, y)
      modifies pixels
      ensures d == d0 + (x2 - x1)
      ensures forall px, py :: OnSurface(px, py) ==>
        pixels[Offset(width, px, py)] ==
          (if py == y && x1 <= px < x2 then Painted(old(pixels[Offset(width, px, py)]), color)
           else old(pixels[Offset(width, px, py)]))
    {
      OffsetInRange(width, height, x2 - 1, y);
      d := d0;
      while d < d0 + (x2 - x1)
        invariant d0 <= d <= d0 + (x2 - x1)
        invariant forall i :: 0 <= i < pixels.Length ==>
          pixels[i] == if d0 <= i < d then Painted(old(pixels[i]), color) else old(pixels[i])
      {
        pixels[d] := Painted(pixels[d], color);
        d := d + 1;
      }
      forall px, py | OnSurface(px, py)
        ensures pixels[Offset(width, px, py)] ==
          (if py == y && x1 <= px < x2 then Painted(old(pixels[Offset(width, px, py)]), color)
           else old(pixels[Offset(width, px, py)]))
      {
        RowSpan(width, px, py, x1, x2, y);
      }
    }

    /** `ren_draw_image(image, sub, x, y, color)`: nothing for a transparent
        colour; otherwise `sub` and (x, y) are adjusted to the clip
        (`ClipSub`), and if the adjusted block is non-empty each of its pixels
        becomes `blend_pixel2(old, image pixel, color)`; no other pixel
        changes.  Returns the adjusted `*sub`. */
    method DrawImage(image: Image, sub: RenRect, x: int, y: int, color: RenColor) returns (adjusted: RenRect)
      requires Valid() && ClipOnSurface() && image.Valid()
      requires 0 <= sub.x && 0 <= sub.y && sub.x + sub.width <= image.width && sub.y + sub.height <= image.height
      modifies pixels
      ensures adjusted == if color.a == 0 then sub else ClipSub(sub, x, y, clip).0
      ensures forall px, py :: OnSurface(px, py) ==>
        pixels[Offset(width, px, py)] == BlitPixel(old(pixels[Offset(width, px, py)]), px, py, image, sub, x, y, clip, color)
    {
      adjusted := sub;
      if color.a == 0 {
        return;
      }
      var res := ClipSub(sub, x, y, clip);
      var s0, x0, y0 := res.0, res.1, res.2;
      adjusted := s0;
      if s0.width <= 0 || s0.height <= 0 {
        return;
      }
      BlitBlock(image, s0, x0, y0, color);
      forall px, py | OnSurface(px, py)
        ensures pixels[Offset(width, px, py)] == BlitPixel(old(pixels[Offset(width, px, py)]), px, py, image, sub, x, y, clip, color)
      {
      }
    }

    /** The loop nest of `ren_draw_image`, once the block is known to be
        non-empty and inside both the surface and the image: each pixel of the
        block at (x0, y0) is blended with the matching pixel of `sub`. */
    method BlitBlock(image: Image, sub: RenRect, x0: int, y0: int, color: RenColor)
      requires Valid() && image.Valid()
      requires 0 < sub.width && 0 < sub.height
      requires 0 <= x0 && x0 + sub.width <= width && 0 <= y0 && y0 + sub.height <= height
      requires 0 <= sub.x && sub.x + sub.width <= image.width && 0 <= sub.y && sub.y + sub.height <= image.height
      modifies pixels
      ensures forall px, py :: OnSurface(px, py) ==>
        pixels[Offset(width, px, py)] ==
          (if InBox(px, py, x0, y0, x0 + sub.width, y0 + sub.height)
           then BlendPixel2(old(pixels[Offset(width, px, py)]), image.Pixel(sub.x + px - x0, sub.y + py - y0), color)
           else old(pixels[Offset(width, px, py)]))
    {
      RowStartIsProduct(image.width, sub.y);
      RowStartIsProduct(width, y0);
      var s := sub.x + sub.y * image.width;
      var d := x0 + y0 * width;
      var sr := image.width - sub.width;
      var dr := width - sub.width;
      var row := 0;
      while row < sub.height
        invariant 0 <= row <= sub.height
        invariant d == Offset(width, x0, y0 + row)
        invariant s == Offset(image.width, sub.x, sub.y + row)
        invariant forall px, py :: OnSurface(px, py) ==>
          pixels[Offset(width, px, py)] ==
            (if InBox(px, py, x0, y0, x0 + sub.width, y0 + row)
             then BlendPixel2(old(pixels[Offset(width, px, py)]), image.Pixel(sub.x + px - x0, sub.y + py - y0), color)
             else old(pixels[Offset(width, px, py)]))
      {
        d, s := BlitRow(d, s, x0, y0 + row, sub.x, sub.y + row, sub.width, image, color);
        d := d + dr;
        s := s + sr;
        row := row + 1;
      }
    }

    /** One row of `ren_draw_image`'s loop nest: the n surface pixels from
        (x0, y) on, at cursor d0, are blended with the n image pixels from
        (sx, sy) on, at cursor s0; both cursors after the row are returned. */
    method BlitRow(d0: int, s0: int, x0: int, y: int, sx: int, sy: int, n: int, image: Image, color: RenColor)
      returns (d: int, s: int)
      requires Valid() && image.Valid() && 0 < n
      requires 0 <= x0 && x0 + n <= width && 0 <= y < height && d0 == Offset(width, x0, y)
      requires 0 <= sx && sx + n <= image.width && 0 <= sy < image.height && s0 == Offset(image.width, sx, sy)
      modifies pixels
      ensures d == d0 + n && s == s0 + n
      ensures forall px, py :: OnSurface(px, py) ==>
        pixels[Offset(width, px, py)] ==
          (if py == y && x0 <= px < x0 + n
           then BlendPixel2(old(pixels[Offset(width, px, py)]), image.Pixel(sx + px - x0, sy), color)
           else old(pixels[Offset(width, px, py)]))
    {
      OffsetInRange(width, height, x0 + n - 1, y);
      OffsetInRange(image.width, image.height, sx, sy);
      OffsetInRange(image.width, image.height, sx + n - 1, sy);
      d, s := d0, s0;
      while d < d0 + n
        invariant d0 <= d <= d0 + n && s == s0 + (d - d0)
        invariant forall i :: 0 <= i < pixels.Length ==>
          pixels[i] == if d0 <= i < d then BlendPixel2(old(pixels[i]), image.ColorAt(s0 + i - d0), color) else old(pixels[i])
      {
        pixels[d] := BlendPixel2(pixels[d], image.ColorAt(s), color);
        d, s := d + 1, s + 1;
      }
      forall px, py | OnSurface(px, py)
        ensures pixels[Offset(width, px, py)] ==
          (if py == y && x0 <= px < x0 + n
           then BlendPixel2(old(pixels[Offset(width, px, py)]), image.Pixel(sx + px - x0, sy), color)
           else old(pixels[Offset(width, px, py)]))
      {
        RowSpan(width, px, py, x0, x0 + n, y);
      }
    }

    /** `ren_draw_text`: for each character, its glyph page is fetched
        (loading it if needed), its glyph's atlas box is blitted at
        (x + xoff, y + yoff), and x advances by the glyph's advance.  The
        result is x plus the text's width, the same width `GetFontWidth`
        reports; nothing outside the clip changes. */
    method DrawText(font: RenFont, text: seq<char>, x0: int, y: int, color: RenColor) returns (x: int)
      requires Valid() && ClipOnSurface() && font.Valid()
      modifies pixels, font
      ensures font.Valid() && Extends(old(font.sets), font.sets) && Loaded(font.sets, text)
      ensures x == x0 + TextWidth(font.sets, text)
      ensures forall px, py :: OnSurface(px, py) && !InBox(px, py, clip.left, clip.top, clip.right, clip.bottom) ==>
        pixels[Offset(width, px, py)] == old(pixels[Offset(width, px, py)])
    {
      x := x0;
      var i := 0;
      while i < |text|
        invariant 0 <= i <= |text|
        invariant font.Valid() && Extends(old(font.sets), font.sets) && Loaded(font.sets, text[..i])
        invariant x == x0 + TextWidth(font.sets, text[..i])
        invariant forall px, py :: OnSurface(px, py) && !InBox(px, py, clip.left, clip.top, clip.right, clip.bottom) ==>
          pixels[Offset(width, px, py)] == old(pixels[Offset(width, px, py)])
      {
        var c := text[i];
        ghost var before := font.sets;
        var gs := font.GetGlyphSet(c);
        TextWidthStable(before, font.sets, text[..i]);
        var g := gs.glyphs[GlyphIndex(c)];
        var rect := RenRect(g.x0, g.y0, g.x1 - g.x0, g.y1 - g.y0);
        label Blit:
        rect := DrawImage(gs.image, rect, x + g.xoff, y + g.yoff, color);
        forall px, py | OnSurface(px, py) && !InBox(px, py, clip.left, clip.top, clip.right, clip.bottom)
          ensures pixels[Offset(width, px, py)] == old@Blit(pixels[Offset(width, px, py)])
        {
          BlitPixelStaysInClip(old@Blit(pixels[Offset(width, px, py)]), px, py, gs.image,
            RenRect(g.x0, g.y0, g.x1 - g.x0, g.y1 - g.y0), x + g.xoff, y + g.yoff, clip, color);
        }
        x := x + g.xadvance;
        assert text[..i + 1][..i] == text[..i];
        i := i + 1;
      }
      assert text[..|text|] == text;
    }
  }

  /** The value a fill leaves in a pixel of its box. */
  function Painted(old_: RenColor, color: RenColor): RenColor
  {
    if color.a == 255 then color else BlendPixel(old_, color)
  }

  /** What `ren_draw_image` leaves at surface pixel (px, py), given its old value. */
  ghost function BlitPixel(old_: RenColor, px: int, py: int, image: Image, sub: RenRect, x: int, y: int, clip: Clip, color: RenColor): (r: RenColor)
    reads image.pixels
    requires image.Valid()
    requires 0 <= sub.x && 0 <= sub.y && sub.x + sub.width <= image.width && sub.y + sub.height <= image.height
    ensures r.a == old_.a
  {
    var res := ClipSub(sub, x, y, clip);
    var s := res.0;
    if color.a != 0 && s.width > 0 && s.height > 0 && InBox(px, py, res.1, res.2, res.1 + s.width, res.2 + s.height) then
      BlendPixel2(old_, image.Pixel(s.x + px - res.1, s.y + py - res.2), color)
    else old_
  }

  /** A blit never touches a pixel outside the clip. */
  lemma {:induction false} BlitPixelStaysInClip(old_: RenColor, px: int, py: int, image: Image, sub: RenRect, x: int, y: int, clip: Clip, color: RenColor)
    requires image.Valid()
    requires 0 <= sub.x && 0 <= sub.y && sub.x + sub.width <= image.width && sub.y + sub.height <= image.height
    requires !InBox(px, py, clip.left, clip.top, clip.right, clip.bottom)
    ensures BlitPixel(old_, px, py, image, sub, x, y, clip, color) == old_
  {
    var res := ClipSub(sub, x, y, clip);
    if res.0.width > 0 && res.0.height > 0 {
      assert clip.left <= res.1 && res.1 + res.0.width <= clip.right;
      assert clip.top <= res.2 && res.2 + res.0.height <= clip.bottom;
    }
  }
  // ---------------------------------------------------------------------------
  // The glyph cache

  /** `stbtt_bakedchar`: the glyph's box in the atlas, its drawing offset and
      its advance.  The offsets and the advance are floats in the source (the
      advance floored when its page is loaded); here they are integers. */
  datatype BakedChar = BakedChar(x0: int, y0: int, x1: int, y1: int, xoff: int, yoff: int, xadvance: int)

  /** The glyph's box lies in a width x height atlas. */
  predicate GlyphFits(g: BakedChar, width: int, height: int)
  {
    0 <= g.x0 <= g.x1 <= width && 0 <= g.y0 <= g.y1 <= height
  }

  /** Outcome of `stbtt_BakeFontBitmap` for one page into a square atlas: one
      coverage byte per atlas pixel and the page's 256 glyph records, or a
      negative result, "the atlas is too small". */
  datatype Bake = TooSmall | Baked(coverage: seq<byte>, chars: seq<BakedChar>)

  /** The rasteriser, as an oracle: `bake(page, side)` bakes the codepoints
      256*page .. 256*page+255 into a side x side atlas. */
  type Rasterizer = (int, int) -> Bake

  /** Side of the atlas after k failed bakes: 128 * 2^k. */
  function AtlasSide(k: nat): (side: int)
    ensures side >= 128
  {
    if k == 0 then 128 else 2 * AtlasSide(k - 1)
  }

  /** A bake into a side x side atlas is well formed. */
  predicate BakeOk(b: Bake, side: int)
  {
    b.Baked? ==>
      |b.coverage| == side * side && |b.chars| == 256 &&
      forall j :: 0 <= j < 256 ==> GlyphFits(b.chars[j], side, side)
  }

  /** What the model needs of the rasteriser: every bake it reports is well
      formed, and every page fits some atlas of the doubling sequence (without
      that, the source's retry loop never ends). */
  ghost predicate RasterizerOk(bake: Rasterizer)
  {
    (forall page, k: nat :: BakeOk(bake(page, AtlasSide(k)), AtlasSide(k))) &&
    forall page :: 0 <= page < 256 ==> PageFits(bake, page)
  }

  /** Some atlas of the doubling sequence is large enough for the page. */
  ghost predicate PageFits(bake: Rasterizer, page: int)
  {
    exists k: nat :: bake(page, AtlasSide(k)).Baked?
  }

  /** The bake of `page` succeeds first at the k-th atlas of the doubling sequence. */
  ghost predicate FirstFit(bake: Rasterizer, page: int, k: nat)
  {
    bake(page, AtlasSide(k)).Baked? && forall j: nat :: j < k ==> bake(page, AtlasSide(j)).TooSmall?
  }

  /** `GlyphSet`: one page's atlas image and its 256 glyph records. */
  datatype GlyphSet = GlyphSet(image: Image, glyphs: seq<BakedChar>)

  /** A glyph set as the renderer relies on it: a valid atlas holding all 256 glyph boxes. */
  ghost predicate SetOk(gs: GlyphSet)
  {
    gs.image.Valid() && |gs.glyphs| == 256 &&
    forall j :: 0 <= j < 256 ==> GlyphFits(gs.glyphs[j], gs.image.width, gs.image.height)
  }

  /** The page of a codepoint, `(codepoint >> 8) % 256`. */
  function Page(c: char): (p: int)
    ensures 0 <= p < 256
  {
    (c as int / 256) % 256
  }

  /** The glyph of a codepoint within its page, `codepoint & 0xff`. */
  function GlyphIndex(c: char): (j: int)
    ensures 0 <= j < 256
  {
    c as int % 256
  }

  /** Page and glyph index see only the low 16 bits of the codepoint, so a
      codepoint beyond U+FFFF is measured and drawn with the glyph of the
      codepoint 65536 below it: U+1F600 with that of U+F600. */
  lemma AstralCodepointAliases()
    ensures Page('\U{1F600}') == Page('\U{F600}') && GlyphIndex('\U{1F600}') == GlyphIndex('\U{F600}')
  {
  }

  /** Every page loaded in `before` is still loaded, with the same glyph set, in `after`. */
  ghost predicate Extends(before: seq<Option<GlyphSet>>, after: seq<Option<GlyphSet>>)
  {
    |before| == |after| &&
    forall i :: 0 <= i < |before| && before[i].Some? ==> after[i] == before[i]
  }

  /** The page of character c is loaded. */
  ghost predicate HasGlyph(sets: seq<Option<GlyphSet>>, c: char)
  {
    |sets| == 256 && sets[Page(c)].Some? && |sets[Page(c)].value.glyphs| == 256
  }

  /** Every character of `text` has its page loaded. */
  ghost predicate Loaded(sets: seq<Option<GlyphSet>>, text: seq<char>)
  {
    |sets| == 256 && forall i :: 0 <= i < |text| ==> HasGlyph(sets, text[i])
  }

  /** The loaded glyph of a character. */
  ghost function Glyph(sets: seq<Option<GlyphSet>>, c: char): BakedChar
    requires HasGlyph(sets, c)
  {
    sets[Page(c)].value.glyphs[GlyphIndex(c)]
  }

  /** Width of a text: the sum of its characters' advances. */
  ghost function TextWidth(sets: seq<Option<GlyphSet>>, text: seq<char>): (w: int)
    requires Loaded(sets, text)
    ensures (forall i :: 0 <= i < |text| ==> Glyph(sets, text[i]).xadvance >= 0) ==> w >= 0
  {
    if text == [] then 0
    else
      TextWidth(sets, text[..|text| - 1]) + Glyph(sets, text[|text| - 1]).xadvance
  }

  /** Widths add up over concatenation. */
  lemma {:induction false} TextWidthAppend(sets: seq<Option<GlyphSet>>, a: seq<char>, b: seq<char>)
    requires Loaded(sets, a + b)
    ensures Loaded(sets, a) && Loaded(sets, b)
    ensures TextWidth(sets, a + b) == TextWidth(sets, a) + TextWidth(sets, b)
    decreases |b|
  {
    assert forall i :: 0 <= i < |a| ==> a[i] == (a + b)[i];
    assert forall i :: 0 <= i < |b| ==> b[i] == (a + b)[|a| + i];
    if b == [] {
      assert a + b == a;
    } else {
      assert (a + b)[..|a + b| - 1] == a + b[..|b| - 1];
      TextWidthAppend(sets, a, b[..|b| - 1]);
    }
  }

  /** Loading more pages does not change the width of a text whose pages were loaded. */
  lemma {:induction false} TextWidthStable(before: seq<Option<GlyphSet>>, after: seq<Option<GlyphSet>>, text: seq<char>)
    requires Loaded(before, text) && Extends(before, after)
    ensures Loaded(after, text) && TextWidth(after, text) == TextWidth(before, text)
  {
    if text != [] {
      TextWidthStable(before, after, text[..|text| - 1]);
    }
  }

  /** What `ren_load_font` finds in the file: nothing readable, data
      `stbtt_InitFont` rejects, or a font, given by its rasteriser, its scaled
      ascent and its line height. */
  datatype FontFile = Unreadable | Malformed | FontData(bake: Rasterizer, ascent: int, height: int)

  /** The tab/newline patch of `ren_load_font`: glyphs '\t' and '\n' get an
      empty box (x1 = x0) and keep everything else. */
  function PatchTabNewline(glyphs: seq<BakedChar>): (res: seq<BakedChar>)
    requires |glyphs| == 256
    ensures |res| == 256
    ensures res[9].x1 == res[9].x0 && res[10].x1 == res[10].x0
    ensures res[9] == glyphs[9].(x1 := glyphs[9].x0) && res[10] == glyphs[10].(x1 := glyphs[10].x0)
    ensures forall j :: 0 <= j < 256 && j != 9 && j != 10 ==> res[j] == glyphs[j]
  {
    glyphs[9 := glyphs[9].(x1 := glyphs[9].x0)][10 := glyphs[10].(x1 := glyphs[10].x0)]
  }

  /** The retry loop of `load_glyphset`: bake the page into a fresh 128 x 128
      atlas, doubling both sides until the bake fits. */
  method BakeToFit(bake: Rasterizer, idx: int) returns (image: Image, res: Bake, ghost k: nat)
    requires RasterizerOk(bake) && 0 <= idx < 256
    ensures FirstFit(bake, idx, k) && res == bake(idx, AtlasSide(k))
    ensures image.width == AtlasSide(k) && image.height == AtlasSide(k)
    ensures image.Valid() && fresh(image) && fresh(image.pixels)
  {
    assert PageFits(bake, idx);
    ghost var last: nat :| bake(idx, AtlasSide(last)).Baked?;
    var width, height := 128, 128;
    k := 0;
    image := new Image(width, height);
    res := bake(idx, width);
    while res.TooSmall?
      invariant k <= last && width == AtlasSide(k) && height == width
      invariant image.width == width && image.height == height && image.Valid() && fresh(image) && fresh(image.pixels)
      invariant res == bake(idx, width)
      invariant forall j: nat :: j < k ==> bake(idx, AtlasSide(j)).TooSmall?
      decreases last - k
    {
      width, height := width * 2, height * 2;
      k := k + 1;
      image := new Image(width, height);
      res := bake(idx, width);
    }
  }

  /** The glyph loop of `load_glyphset`: every glyph of the page is lowered
      by the scaled ascent. */
  method LowerGlyphs(chars: seq<BakedChar>, ascent: int) returns (glyphs: seq<BakedChar>)
    ensures |glyphs| == |chars|
    ensures forall m :: 0 <= m < |chars| ==> glyphs[m] == chars[m].(yoff := chars[m].yoff + ascent)
  {
    glyphs := chars;
    var j := 0;
    while j < |chars|
      invariant 0 <= j <= |chars| && |glyphs| == |chars|
      invariant forall m :: 0 <= m < j ==> glyphs[m] == chars[m].(yoff := chars[m].yoff + ascent)
      invariant forall m :: j <= m < |chars| ==> glyphs[m] == chars[m]
    {
      glyphs := glyphs[j := glyphs[j].(yoff := glyphs[j].yoff + ascent)];
      j := j + 1;
    }
  }

  /** `RenFont`: the rasteriser standing for the font data and `stbtt_fontinfo`,
      the metrics, and the 256 lazily loaded glyph pages.  `id` stands for the
      font's address, which the render cache hashes. */
  class RenFont {
    const id: int
    const bake: Rasterizer
    const ascent: int
    const height: int
    var sets: seq<Option<GlyphSet>>

    ghost predicate Valid()
      reads this
    {
      RasterizerOk(bake) && |sets| == 256 &&
      forall i :: 0 <= i < 256 && sets[i].Some? ==> SetOk(sets[i].value)
    }

    /** The glyph set `load_glyphset` builds for a page: its atlas is the first
        of the doubling sequence the bake fits, and its glyphs are the baked
        ones lowered by the ascent. */
    ghost predicate PageBaked(gs: GlyphSet, page: int)
    {
      exists k: nat :: FirstFit(bake, page, k) &&
        gs.image.width == AtlasSide(k) && gs.image.height == AtlasSide(k) &&
        |bake(page, AtlasSide(k)).chars| == |gs.glyphs| &&
        forall j :: 0 <= j < |gs.glyphs| ==>
          gs.glyphs[j] == bake(page, AtlasSide(k)).chars[j].(yoff := bake(page, AtlasSide(k)).chars[j].yoff + ascent)
    }

    /** The part of `ren_load_font` after the file is read: no page loaded yet. */
    constructor (id: int, bake: Rasterizer, ascent: int, height: int)
      requires RasterizerOk(bake)
      ensures this.id == id && this.bake == bake && this.ascent == ascent && this.height == height
      ensures Valid() && sets == seq(256, _ => None)
    {
      this.id := id;
      this.bake := bake;
      this.ascent := ascent;
      this.height := height;
      sets := seq(256, _ => None);
    }

    /** `load_glyphset(font, idx)`: bake the page into a 128 x 128 atlas,
        doubling both sides until the bake fits; lower every glyph by the
        ascent; then turn the coverage bytes into white pixels whose alpha is
        the coverage, in place. */
    method LoadGlyphSet(idx: int) returns (gs: GlyphSet, ghost k: nat)
      requires RasterizerOk(bake) && 0 <= idx < 256
      ensures FirstFit(bake, idx, k) && PageBaked(gs, idx)
      ensures SetOk(gs) && fresh(gs.image) && fresh(gs.image.pixels)
      ensures gs.image.width == AtlasSide(k) && gs.image.height == AtlasSide(k)
      ensures forall i :: 0 <= i < AtlasSide(k) * AtlasSide(k) ==>
        gs.image.ColorAt(i) == RenColor(255, 255, 255, bake(idx, AtlasSide(k)).coverage[i])
    {
      var image, res;
      image, res, k := BakeToFit(bake, idx);
      var width, height := image.width, image.height;
      assert BakeOk(bake(idx, AtlasSide(k)), AtlasSide(k));
      MulNonNeg(width, height);
      forall i | 0 <= i < |res.coverage| {
        image.pixels[i] := res.coverage[i];
      }
      var glyphs := LowerGlyphs(res.chars, ascent);
      ExpandCoverage(image.pixels, width * height);
      gs := GlyphSet(image, glyphs);
    }

    /** `get_glyphset(font, codepoint)`: the set of the codepoint's page,
        loaded on first use; a page already loaded is returned as it is. */
    method GetGlyphSet(c: char) returns (gs: GlyphSet)
      requires Valid()
      modifies this
      ensures Valid() && Extends(old(sets), sets)
      ensures sets[Page(c)] == Some(gs)
      ensures old(sets[Page(c)]).Some? ==> sets == old(sets)
      ensures old(sets[Page(c)]).None? ==>
        sets == old(sets)[Page(c) := Some(gs)] && fresh(gs.image) && PageBaked(gs, Page(c))
    {
      var idx := Page(c);
      if sets[idx].None? {
        var loaded, _ := LoadGlyphSet(idx);
        sets := sets[idx := Some(loaded)];
      }
      gs := sets[idx].value;
    }

    /** `ren_set_font_tab_width(font, n)`: page 0 is loaded if it was not, and
        the advance of '\t' becomes n; nothing else changes. */
    method SetTabWidth(n: int)
      requires Valid()
      modifies this
      ensures Valid() && sets[0].Some?
      ensures forall i :: 0 < i < 256 ==> sets[i] == old(sets[i])
      ensures old(sets[0]).Some? ==>
        sets[0].value.image == old(sets[0].value.image) &&
        sets[0].value.glyphs == old(sets[0].value.glyphs)[9 := old(sets[0].value.glyphs[9]).(xadvance := n)]
      ensures old(sets[0]).None? ==>
        exists gs :: PageBaked(gs, 0) && sets[0] == Some(gs.(glyphs := gs.glyphs[9 := gs.glyphs[9].(xadvance := n)]))
    {
      var gs := GetGlyphSet('\t');
      sets := sets[0 := Some(gs.(glyphs := gs.glyphs[9 := gs.glyphs[9].(xadvance := n)]))];
    }

    /** `ren_get_font_width(font, text)`: the sum of the advances of the
        text's characters, loading their pages as needed. */
    method GetFontWidth(text: seq<char>) returns (x: int)
      requires Valid()
      modifies this
      ensures Valid() && Extends(old(sets), sets) && Loaded(sets, text)
      ensures x == TextWidth(sets, text)
    {
      x := 0;
      var i := 0;
      while i < |text|
        invariant 0 <= i <= |text|
        invariant Valid() && Extends(old(sets), sets) && Loaded(sets, text[..i])
        invariant x == TextWidth(sets, text[..i])
      {
        ghost var before := sets;
        var gs := GetGlyphSet(text[i]);
        TextWidthStable(before, sets, text[..i]);
        x := x + gs.glyphs[GlyphIndex(text[i])].xadvance;
        assert text[..i + 1][..i] == text[..i];
        i := i + 1;
      }
      assert text[..|text|] == text;
    }
  }

  /** `ren_load_font`: null when the file cannot be read or is not a font;
      otherwise a font whose page 0 is loaded at once and patched so that
      '\t' and '\n' draw nothing, every other page empty. */
  method LoadFont(file: FontFile, id: int) returns (font: RenFont?)
    requires file.FontData? ==> RasterizerOk(file.bake)
    ensures font == null <==> !file.FontData?
    ensures font != null ==>
      fresh(font) && font.Valid() && font.id == id && font.bake == file.bake &&
      font.ascent == file.ascent && font.height == file.height &&
      (forall i :: 0 < i < 256 ==> font.sets[i].None?) &&
      exists gs :: font.PageBaked(gs, 0) && font.sets[0] == Some(gs.(glyphs := PatchTabNewline(gs.glyphs)))
  {
    match file
    case Unreadable =>
      font := null;
    case Malformed =>
      font := null;
    case FontData(bake, ascent, height) =>
      font := new RenFont(id, bake, ascent, height);
      var gs := font.GetGlyphSet('\n');
      font.sets := font.sets[0 := Some(gs.(glyphs := PatchTabNewline(gs.glyphs)))];
  }
}
