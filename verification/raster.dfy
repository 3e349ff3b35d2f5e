/** The frame buffer and the clipped rectangle fill.

The host owns a row-major bitmap: `height` rows of `width` 32-bit pixels,
consecutive rows `pitch` bytes apart. The model keeps the pixels as a
sequence of rows and keeps `pitch` and `pixelBytes` for the byte-offset
arithmetic of `GetPixel`, which is what bounds every access the fill makes.
 */
module Raster {
  import opened Pixels
  import opened Math

  datatype Frame = Frame(width: int, height: int, pitch: int, pixelBytes: int,
                         pixels: seq<seq<Pixel>>)
  {
    /** What the host guarantees of the buffer it passes in: 4-byte pixels,
        rows at least a full row of pixels apart, and a pixel grid of the
        stated size. */
    predicate Valid()
    {
      && 0 <= width
      && 0 <= height
      && pixelBytes == 4
      && pitch >= width * pixelBytes
      && |pixels| == height
      && forall y :: 0 <= y < |pixels| ==> |pixels[y]| == width
    }

    /** `other` is this buffer with (possibly) different pixel values. */
    predicate SameShape(other: Frame)
    {
      && other.width == width
      && other.height == height
      && other.pitch == pitch
      && other.pixelBytes == pixelBytes
    }
  }

  /** An axis-aligned rectangle of pixels, `[minX, maxX) × [minY, maxY)`,
      with bounds already rounded to integers. */
  datatype Rect = Rect(minX: int, minY: int, maxX: int, maxY: int)
  {
    predicate IsEmpty()
    {
      minX >= maxX || minY >= maxY
    }

    predicate Contains(x: int, y: int)
    {
      InSpan(x, minX, maxX) && InSpan(y, minY, maxY)
    }
  }

  predicate InSpan(v: int, lo: int, hi: int)
  {
    lo <= v < hi
  }

  // ---------------------------------------------------------------------
  // Byte addressing

  /** Byte offset of pixel `(x, y)` from the start of the bitmap. */
  function GetPixel(fb: Frame, x: int, y: int): int
  {
    x * fb.pixelBytes + y * fb.pitch
  }

  lemma MulLeft(a: int, b: int, c: int)
    requires a <= b && 0 <= c
    ensures a * c <= b * c
  {
  }

  /** Every pixel of the buffer lies wholly inside the `height * pitch`
      bytes of the bitmap. */
  lemma GetPixelInBounds(fb: Frame, x: int, y: int)
    requires 0 <= x < fb.width && 0 <= y < fb.height
    requires 0 <= fb.pixelBytes && fb.width * fb.pixelBytes <= fb.pitch
    ensures 0 <= GetPixel(fb, x, y)
    ensures GetPixel(fb, x, y) + fb.pixelBytes <= fb.height * fb.pitch
  {
    MulLeft(0, x, fb.pixelBytes);
    MulLeft(0, y, fb.pitch);
    MulLeft(x + 1, fb.width, fb.pixelBytes);
    MulLeft(y + 1, fb.height, fb.pitch);
  }

  /** Pixels are laid out in row-major order and never overlap: a pixel that
      comes earlier (an earlier row, or the same row further left) ends at
      or before the byte where a later one starts. */
  lemma GetPixelOrdered(fb: Frame, x1: int, y1: int, x2: int, y2: int)
    requires 0 <= x1 < fb.width && 0 <= y1 < fb.height
    requires 0 <= x2 < fb.width && 0 <= y2 < fb.height
    requires 0 < fb.pixelBytes && fb.width * fb.pixelBytes <= fb.pitch
    requires y1 < y2 || (y1 == y2 && x1 < x2)
    ensures GetPixel(fb, x1, y1) + fb.pixelBytes <= GetPixel(fb, x2, y2)
  {
    if y1 == y2 {
      MulLeft(x1 + 1, x2, fb.pixelBytes);
    } else {
      MulLeft(y1 + 1, y2, fb.pitch);
      MulLeft(x1 + 1, fb.width, fb.pixelBytes);
      MulLeft(0, x2, fb.pixelBytes);
    }
  }

  /** FillRect finds pixel `(x, y)` by walking: it starts at the clipped
      corner, adds `pitch` bytes per row and steps a `uint32_t` pointer
      one pixel (four bytes) per column. The walk lands on the pixel that
      `GetPixel` addresses exactly when pixels are four bytes wide. */
  function WalkOffset(fb: Frame, x0: int, y0: int, x: int, y: int): (offset: int)
    requires fb.pixelBytes == 4
    ensures offset == GetPixel(fb, x, y)
  {
    GetPixel(fb, x0, y0) + (y - y0) * fb.pitch + (x - x0) * 4
  }

  // ---------------------------------------------------------------------
  // Clipping and the fill loop

  /** The rectangle the fill loop walks: `minX`/`minY` raised to 0,
      `maxX`/`maxY` lowered to the buffer's width/height. The two sides are
      not reconciled, so a rectangle off the buffer comes out empty. */
  function Clip(fb: Frame, rect: Rect): (c: Rect)
    requires 0 <= fb.width && 0 <= fb.height
    ensures 0 <= c.minX && 0 <= c.minY && c.maxX <= fb.width && c.maxY <= fb.height
    ensures forall x :: InSpan(x, c.minX, c.maxX) <==> InSpan(x, rect.minX, rect.maxX) && InSpan(x, 0, fb.width)
    ensures forall y :: InSpan(y, c.minY, c.maxY) <==> InSpan(y, rect.minY, rect.maxY) && InSpan(y, 0, fb.height)
  {
    Rect(if rect.minX < 0 then 0 else rect.minX,
         if rect.minY < 0 then 0 else rect.minY,
         Min(fb.width, rect.maxX),
         Min(fb.height, rect.maxY))
  }

  /** Every byte the fill writes lies inside the bitmap: for each pixel of
      the clipped rectangle, the four bytes the walk reaches from the
      clipped corner are within the `height * pitch` bytes of the buffer. */
  lemma FillStaysInBuffer(fb: Frame, rect: Rect, x: int, y: int)
    requires fb.Valid() && Clip(fb, rect).Contains(x, y)
    ensures 0 <= WalkOffset(fb, Clip(fb, rect).minX, Clip(fb, rect).minY, x, y)
    ensures WalkOffset(fb, Clip(fb, rect).minX, Clip(fb, rect).minY, x, y) + 4 <= fb.height * fb.pitch
  {
    GetPixelInBounds(fb, x, y);
  }

  /** Pixel `(x, y)` after the fill: the rule applied to its old value
      inside the requested rectangle, the old value elsewhere. */
  function Filled(fb: Frame, rect: Rect, shade: Pixel -> Pixel, x: int, y: int): Pixel
    requires fb.Valid() && 0 <= y < fb.height && 0 <= x < fb.width
  {
    if rect.Contains(x, y) then shade(fb.pixels[y][x]) else fb.pixels[y][x]
  }

  /** Fills the part of `rect` that lies on the buffer. `shade` is the
      per-pixel rule (overwrite or composite, see `ShadeAsWritten` and
      `Shade`): each covered pixel is replaced by the rule applied to its
      previous value, once; every other pixel keeps its value. */
  method FillRect(fb: Frame, rect: Rect, shade: Pixel -> Pixel) returns (r: Frame)
    requires fb.Valid()
    ensures r.Valid() && fb.SameShape(r)
    ensures forall y, x :: 0 <= y < fb.height && 0 <= x < fb.width ==>
              r.pixels[y][x] == Filled(fb, rect, shade, x, y)
    ensures Clip(fb, rect).IsEmpty() ==> r == fb
  {
    var c := Clip(fb, rect);
    var rows: seq<seq<Pixel>> := fb.pixels;
    var y := c.minY;
    while y < c.maxY
      invariant c.minY <= y && (y == c.minY || y <= c.maxY)
      invariant |rows| == fb.height
      invariant forall j :: 0 <= j < fb.height ==> |rows[j]| == fb.width
      invariant forall j, i :: 0 <= j < fb.height && 0 <= i < fb.width ==>
                  rows[j][i] == (if c.minY <= j < y && c.minX <= i < c.maxX
                                 then shade(fb.pixels[j][i]) else fb.pixels[j][i])
    {
      var row: seq<Pixel> := rows[y];
      assert 0 <= y < fb.height;
      forall i | 0 <= i < fb.width
        ensures row[i] == fb.pixels[y][i]
      {
        assert rows[y][i] == fb.pixels[y][i];
      }
      var x := c.minX;
      while x < c.maxX
        invariant c.minX <= x && (x == c.minX || x <= c.maxX)
        invariant |row| == fb.width
        invariant forall i :: 0 <= i < fb.width ==>
                    row[i] == (if c.minX <= i < x then shade(fb.pixels[y][i]) else fb.pixels[y][i])
      {
        row := row[x := shade(row[x])];
        x := x + 1;
      }
      assert forall i :: 0 <= i < fb.width ==>
        row[i] == (if c.minX <= i < c.maxX then shade(fb.pixels[y][i]) else fb.pixels[y][i]);
      rows := rows[y := row];
      y := y + 1;
    }
    r := fb.(pixels := rows);
    forall j, i | 0 <= j < fb.height && 0 <= i < fb.width
      ensures rows[j][i] == Filled(fb, rect, shade, i, j)
    {
      assert InSpan(j, c.minY, y) <==> InSpan(j, c.minY, c.maxY);
      assert InSpan(j, c.minY, c.maxY) && InSpan(i, c.minX, c.maxX) <==> rect.Contains(i, j);
    }
    if c.IsEmpty() {
      assert forall j, i :: 0 <= j < fb.height && 0 <= i < fb.width ==> rows[j][i] == fb.pixels[j][i];
      assert forall j :: 0 <= j < fb.height ==> rows[j] == fb.pixels[j];
      assert rows == fb.pixels;
    }
  }

  // ---------------------------------------------------------------------
  // Per-pixel rules

  /** The per-pixel rule of FillRect as written: a source whose alpha byte
      equals 1 overwrites the pixel; any other alpha composites the source
      over the pixel's current colour. */
  function ShadeAsWritten(src: Color, composite: Compositor, dst: Pixel): (p: Pixel)
    ensures Unpack(p) == if src.a == 1 then src else composite(src, Unpack(dst))
  {
    var c := if src.a == 1 then src else composite(src, Unpack(dst));
    UnpackPack(c);
    Pack(c)
  }

  /** The rule as evidently intended: only a fully opaque source (alpha
      byte 255) takes the overwrite path. */
  function Shade(src: Color, composite: Compositor, dst: Pixel): (p: Pixel)
    ensures Unpack(p) == if src.a == 255 then src else composite(src, Unpack(dst))
  {
    var c := if src.a == 255 then src else composite(src, Unpack(dst));
    UnpackPack(c);
    Pack(c)
  }

  /** A blend is faithful to opacity when a fully opaque source hides the
      destination completely. */
  ghost predicate OpaqueCovers(composite: Compositor)
  {
    forall s: Color, d: Color :: s.a == 255 ==> composite(s, d) == s
  }

  /** With the intended rule the fast path cannot be told apart from always
      compositing, whatever the destination, for every blend that is
      faithful to opacity; and an opaque source always covers. */
  lemma FastPathInvisible(src: Color, composite: Compositor, dst: Pixel)
    requires OpaqueCovers(composite)
    ensures Shade(src, composite, dst) == Pack(composite(src, Unpack(dst)))
    ensures src.a == 255 ==> Unpack(Shade(src, composite, dst)) == src
  {
  }

  /** The simplest blend faithful to opacity: an opaque source covers, any
      other source leaves the destination showing. */
  function CoverIfOpaque(s: Color, d: Color): Color
  {
    if s.a == 255 then s else d
  }

  /** A white source with alpha 1/255 over opaque black. */
  const FaintWhite := Color(1, 255, 255, 255)
  const OpaqueBlack := Color(255, 0, 0, 0)

  /** As written, the fast path is visible: under a blend faithful to
      opacity, a nearly transparent white drawn over black replaces the
      pixel with white, where compositing would have left it black. */
  lemma FastPathVisibleAsWritten()
    ensures OpaqueCovers(CoverIfOpaque)
    ensures ShadeAsWritten(FaintWhite, CoverIfOpaque, Pack(OpaqueBlack)) == Pack(FaintWhite)
    ensures Pack(CoverIfOpaque(FaintWhite, Unpack(Pack(OpaqueBlack)))) == Pack(OpaqueBlack)
    ensures Pack(FaintWhite) != Pack(OpaqueBlack)
  {
  }

  // ---------------------------------------------------------------------
  // Whole-buffer fills

  /** The background colour of every frame: the packed form of the
      normalized colour (1, 0.01, 0.02, 0.05), each channel times 255
      rounded to nearest (255, 2.55 -> 3, 5.1 -> 5, 12.75 -> 13). */
  const Background := Color(255, 3, 5, 13)

  /** Clears the frame to the background colour by filling the whole buffer
      with the intended per-pixel rule: every pixel ends up opaque
      background, whatever it held before and whatever the blend does. */
  method ClearBackground(fb: Frame, composite: Compositor) returns (r: Frame)
    requires fb.Valid()
    ensures r.Valid() && fb.SameShape(r)
    ensures forall y, x :: 0 <= y < fb.height && 0 <= x < fb.width ==>
              Unpack(r.pixels[y][x]) == Background
  {
    r := FillRect(fb, Rect(0, 0, fb.width, fb.height), p => Shade(Background, composite, p));
    UnpackPack(Background);
  }

  /** The clear as written: the background is opaque, so with the `a == 1`
      test it does not take the overwrite path, and every pixel becomes the
      blend of the background over that pixel's previous colour. When the
      blend leaves the background as it is over every colour, as each blend
      faithful to opacity does, every pixel ends up the background. */
  method ClearBackgroundAsWritten(fb: Frame, composite: Compositor) returns (r: Frame)
    requires fb.Valid()
    ensures r.Valid() && fb.SameShape(r)
    ensures forall y, x :: 0 <= y < fb.height && 0 <= x < fb.width ==>
              Unpack(r.pixels[y][x]) == composite(Background, Unpack(fb.pixels[y][x]))
    ensures OpaqueCovers(composite) ==>
              forall y, x :: 0 <= y < fb.height && 0 <= x < fb.width ==> Unpack(r.pixels[y][x]) == Background
    ensures (forall d: Color :: composite(Background, d) == Background) ==>
              forall y, x :: 0 <= y < fb.height && 0 <= x < fb.width ==> Unpack(r.pixels[y][x]) == Background
  {
    r := FillRect(fb, Rect(0, 0, fb.width, fb.height), p => ShadeAsWritten(Background, composite, p));
  }

  /** The colour of gradient pixel `(x, y)`: each channel is the low byte
      of an `int`, which is its value modulo 256 (two's complement). */
  function GradientColor(offset: int, x: int, y: int): Color
  {
    Color(0, offset % 0x100, (y + offset) % 0x100, (x + offset) % 0x100)
  }

  /** The debugging gradient: every pixel of the buffer is rewritten, row by
      row, with red the low byte of `offset`, green that of `y + offset`,
      blue that of `x + offset`, and alpha 0. */
  method RenderGradient(fb: Frame, offset: int) returns (r: Frame)
    requires fb.Valid()
    ensures r.Valid() && fb.SameShape(r)
    ensures forall y, x :: 0 <= y < fb.height && 0 <= x < fb.width ==>
              Unpack(r.pixels[y][x]) == GradientColor(offset, x, y)
  {
    var rows: seq<seq<Pixel>> := [];
    var y := 0;
    while y < fb.height
      invariant 0 <= y <= fb.height
      invariant |rows| == y
      invariant forall j :: 0 <= j < y ==> |rows[j]| == fb.width
      invariant forall j, i :: 0 <= j < y && 0 <= i < fb.width ==>
                  rows[j][i] == Pack(GradientColor(offset, i, j))
    {
      var row: seq<Pixel> := [];
      var x := 0;
      while x < fb.width
        invariant 0 <= x <= fb.width
        invariant |row| == x
        invariant forall i :: 0 <= i < x ==> row[i] == Pack(GradientColor(offset, i, y))
      {
        var red := offset % 0x100;
        var green := (y + offset) % 0x100;
        var blue := (x + offset) % 0x100;
        row := row + [red * 0x1_0000 + green * 0x100 + blue];
        x := x + 1;
      }
      rows := rows + [row];
      y := y + 1;
    }
    r := fb.(pixels := rows);
    forall j, i | 0 <= j < fb.height && 0 <= i < fb.width
      ensures Unpack(r.pixels[j][i]) == GradientColor(offset, i, j)
    {
      UnpackPack(GradientColor(offset, i, j));
    }
  }
}
