/** The display's off-screen frame buffer: 320 rows of 240 RGB565 pixels, the
    colour packer and the clipped drawing primitives that write into it.
    Sending the buffer to the panel is not part of this model. */
module Framebuffer {
  import opened Bytes

  const Width: nat := 240
  const Height: nat := 320

  /** A pixel in RGB565: red in bits 11-15, green in bits 5-10, blue in 0-4. */
  type Color = bv16

  predicate IsVram(v: seq<seq<Color>>)
  {
    |v| == Height && forall r :: 0 <= r < Height ==> |v[r]| == Width
  }

  /** The buffer, indexed `v[row][column]`, that is `v[y][x]`. */
  type Vram = v: seq<seq<Color>> | IsVram(v) witness Clear()

  /** Packs a 0x00RRGGBB colour into RGB565 by keeping the top five, six and
      five bits of red, green and blue. */
  function Rgb565(rgb: bv32): (p: Color)
    ensures p >> 11 == ((rgb >> 19) & 0x1F) as bv16
    ensures (p >> 5) & 0x3F == ((rgb >> 10) & 0x3F) as bv16
    ensures p & 0x1F == ((rgb >> 3) & 0x1F) as bv16
  {
    (((rgb >> 8) & 0xF800) | ((rgb >> 5) & 0x07E0) | ((rgb >> 3) & 0x001F)) as bv16
  }

  /** The bits of a 0x00RRGGBB colour that survive the packing. */
  const Kept: bv32 := 0x00F8_FCF8

  /** Two colours pack alike exactly when they agree on the kept bits: the
      top byte and the low three, two and three bits of the channels are
      ignored. */
  lemma PackingKeepsTopBits(a: bv32, b: bv32)
    ensures Rgb565(a) == Rgb565(b) <==> a & Kept == b & Kept
  {
    PackExpand(Rgb565(a), a);
    PackExpand(Rgb565(b), b);
  }

  /** Widens an RGB565 pixel back to 0x00RRGGBB, low channel bits zero. */
  function Expand(p: Color): (rgb: bv32)
    ensures rgb & Kept == rgb
  {
    ((p >> 11) as bv32 << 19) | (((p >> 5) & 0x3F) as bv32 << 10) | ((p & 0x1F) as bv32 << 3)
  }

  /** Packing inverts widening, and widening a packed colour recovers the
      kept bits. */
  lemma PackExpand(p: Color, rgb: bv32)
    ensures Rgb565(Expand(p)) == p
    ensures Expand(Rgb565(rgb)) == rgb & Kept
  {
  }

  /** A buffer with every pixel 0 (black), what clearing leaves. */
  function Clear(): (v: seq<seq<Color>>)
    ensures IsVram(v)
    ensures forall r, c :: 0 <= r < Height && 0 <= c < Width ==> v[r][c] == 0
  {
    seq(Height, _ => seq(Width, _ => 0))
  }

  /** Two buffers with the same pixels are the same buffer. */
  lemma SamePixels(a: Vram, b: Vram)
    requires forall r, c :: 0 <= r < Height && 0 <= c < Width ==> a[r][c] == b[r][c]
    ensures a == b
  {
    forall r | 0 <= r < Height
      ensures a[r] == b[r]
    {
      assert forall c :: 0 <= c < Width ==> a[r][c] == b[r][c];
    }
  }

  /** Whether column `c`, row `r` lies in the `w` by `h` rectangle whose top
      left corner is column `x`, row `y`. */
  predicate InRect(x: int, y: int, w: int, h: int, c: int, r: int)
  {
    x <= c < x + w && y <= r < y + h
  }

  /** The reference for every primitive: the pixels of the rectangle that lie
      on screen take `color`, all others keep their value. */
  function Fill(v: Vram, x: int, y: int, w: int, h: int, color: Color): (u: Vram)
    ensures forall r, c :: 0 <= r < Height && 0 <= c < Width ==>
              u[r][c] == if InRect(x, y, w, h, c, r) then color else v[r][c]
  {
    seq(Height, r requires 0 <= r < Height =>
      seq(Width, c requires 0 <= c < Width =>
        if InRect(x, y, w, h, c, r) then color else v[r][c]))
  }

  /** A rectangle with no pixel on screen leaves the buffer as it is. */
  lemma FillOffScreen(v: Vram, x: int, y: int, w: int, h: int, color: Color)
    requires x >= Width || y >= Height || w <= 0 || h <= 0
    ensures Fill(v, x, y, w, h, color) == v
  {
    SamePixels(Fill(v, x, y, w, h, color), v);
  }

  /** Clearing is filling the whole screen with 0, whatever was there. */
  lemma ClearFillsScreen(v: Vram)
    ensures Fill(v, 0, 0, Width, Height, 0) == Clear()
  {
    SamePixels(Fill(v, 0, 0, Width, Height, 0), Clear());
  }

  /** Sets one pixel; a position off screen is ignored. */
  function Pixel(v: Vram, x: uint16, y: uint16, color: Color): (u: Vram)
    ensures forall r, c :: 0 <= r < Height && 0 <= c < Width ==>
              u[r][c] == if r == y && c == x then color else v[r][c]
    ensures x >= Width || y >= Height ==> u == v
  {
    if x >= Width || y >= Height then v
    else v[y := v[y][x := color]]
  }

  /** A pixel is the one-by-one rectangle at its position. */
  lemma PixelIsUnitFill(v: Vram, x: uint16, y: uint16, color: Color)
    ensures Pixel(v, x, y, color) == Fill(v, x, y, 1, 1, color)
  {
    SamePixels(Pixel(v, x, y, color), Fill(v, x, y, 1, 1, color));
  }

  /** Visible extent of a run of `len` cells from `start < limit`: the run
      is cut at `limit`. */
  function Clip(start: nat, len: uint16, limit: nat): (n: nat)
    requires start < limit
    ensures n <= len && start + n <= limit
    ensures n == len || start + n == limit
  {
    if start + len > limit then limit - start else len
  }

  /** Paints `n` cells of a row from column `x`. */
  method PaintRun(row: seq<Color>, x: nat, n: nat, color: Color) returns (out: seq<Color>)
    requires x + n <= |row|
    ensures |out| == |row|
    ensures forall c :: 0 <= c < |row| ==> out[c] == if x <= c < x + n then color else row[c]
  {
    out := row;
    for i := 0 to n
      invariant |out| == |row|
      invariant forall c :: 0 <= c < |row| ==> out[c] == if x <= c < x + i then color else row[c]
    {
      out := out[x + i := color];
    }
  }

  /** A horizontal run of `w` pixels from (x, y), cut at the right edge; an
      origin off screen draws nothing. */
  method HLine(v: Vram, x: uint16, y: uint16, w: uint16, color: Color) returns (u: Vram)
    ensures u == Fill(v, x, y, w, 1, color)
    ensures forall r, c :: 0 <= r < Height && 0 <= c < Width ==>
              u[r][c] == if r == y && x <= c < x + w then color else v[r][c]
  {
    if x >= Width || y >= Height {
      FillOffScreen(v, x, y, w, 1, color);
      return v;
    }
    var n := Clip(x, w, Width);
    var row := PaintRun(v[y], x, n, color);
    u := v[y := row];
    SamePixels(u, Fill(v, x, y, w, 1, color));
  }

  /** A vertical run of `h` pixels from (x, y), cut at the bottom edge; an
      origin off screen draws nothing. */
  method VLine(v: Vram, x: uint16, y: uint16, h: uint16, color: Color) returns (u: Vram)
    ensures u == Fill(v, x, y, 1, h, color)
    ensures forall r, c :: 0 <= r < Height && 0 <= c < Width ==>
              u[r][c] == if c == x && y <= r < y + h then color else v[r][c]
  {
    if x >= Width || y >= Height {
      FillOffScreen(v, x, y, 1, h, color);
      return v;
    }
    var n := Clip(y, h, Height);
    u := v;
    for i := 0 to n
      invariant forall r, c :: 0 <= r < Height && 0 <= c < Width ==>
                  u[r][c] == if c == x && y <= r < y + i then color else v[r][c]
    {
      u := u[y + i := u[y + i][x := color]];
    }
    SamePixels(u, Fill(v, x, y, 1, h, color));
  }

  /** A filled `w` by `h` rectangle from (x, y), cut at the right and bottom
      edges; an origin off screen draws nothing. */
  method Bar(v: Vram, x: uint16, y: uint16, w: uint16, h: uint16, color: Color) returns (u: Vram)
    ensures u == Fill(v, x, y, w, h, color)
    ensures forall r, c :: 0 <= r < Height && 0 <= c < Width ==>
              u[r][c] == if x <= c < x + w && y <= r < y + h then color else v[r][c]
  {
    if x >= Width || y >= Height {
      FillOffScreen(v, x, y, w, h, color);
      return v;
    }
    var m := Clip(x, w, Width);
    var n := Clip(y, h, Height);
    u := v;
    for i := 0 to n
      invariant forall r, c :: 0 <= r < Height && 0 <= c < Width ==>
                  u[r][c] == if InRect(x, y, m, i, c, r) then color else v[r][c]
    {
      var row := PaintRun(u[y + i], x, m, color);
      u := u[y + i := row];
    }
    SamePixels(u, Fill(v, x, y, w, h, color));
  }
}
