/** Pixel buffers as values: a buffer of `w * h` 32-bit colour cells stored
    row-major with the origin at the top left, so that cell (x, y) is element
    `w * y + x`. Everything the compositor draws is described here as a
    function of the buffer it starts from. */
module Pixels {
  import opened Geometry

  /** An opaque 32-bit colour cell (`u32`). */
  type Color = c: int | 0 <= c < 0x1_0000_0000

  const Black: Color := 0x000000

  /** Cursor image cells of this colour are not drawn. */
  const TransparentKey: Color := 0xFF0000

  /** The colour `FrameBuffer::draw_rectangle` fills with. */
  const RectangleColor: Color := 0xF123999

  /** The clip applied by every screen-buffer write: strictly inside, so
      column 0 and row 0 are never written. */
  predicate Inside(w: int, h: int, x: int, y: int)
  {
    0 < x < w && 0 < y < h
  }

  // ---------------------------------------------------------------------
  // Row-major cell addressing

  lemma MulMonotone(a: nat, b: int, c: int)
    requires b <= c
    ensures a * b <= a * c
  {
    assert a * c - a * b == a * (c - b);
  }

  /** A cell of the grid has an index inside the buffer. */
  lemma IndexInRange(w: nat, h: nat, x: int, y: int)
    requires 0 <= x < w && 0 <= y < h
    ensures 0 <= w * y + x < w * h
  {
    MulMonotone(w, 0, y);
    MulMonotone(w, y + 1, h);
  }

  /** The index of cell (x, y) gives back x and y. */
  lemma CellCoords(w: nat, x: int, y: int)
    requires 0 <= x < w && 0 <= y
    ensures (w * y + x) / w == y && (w * y + x) % w == x
  {
    var k := w * y + x;
    var q, r := k / w, k % w;
    assert k == w * q + r && 0 <= r < w;
    assert w * (q - y) == x - r;
    if q > y {
      MulMonotone(w, 1, q - y);
    } else if q < y {
      MulMonotone(w, 1, y - q);
    }
  }

  /** Every index of a `w * h` buffer is the index of one cell of the grid. */
  lemma CoordsOf(w: nat, h: nat, k: int)
    requires 0 <= k < w * h
    ensures w > 0 && 0 <= k % w < w && 0 <= k / w < h && k == w * (k / w) + k % w
  {
    if k / w >= h {
      MulMonotone(w, h, k / w);
    }
  }

  // ---------------------------------------------------------------------
  // A clipped single-cell write

  /** `FrameBuffer::draw_something`: cell (x, y) receives `c` when it is
      strictly inside the buffer; otherwise nothing changes. */
  function Plot(s: seq<Color>, w: nat, h: nat, x: int, y: int, c: Color): (r: seq<Color>)
    requires |s| == w * h
    ensures |r| == |s|
  {
    if Inside(w, h, x, y) then
      IndexInRange(w, h, x, y);
      s[w * y + x := c]
    else
      s
  }

  /** Exactly cell (x, y) changes, and only when it is strictly inside; so
      row 0 and column 0 are never written. */
  lemma PlotAt(s: seq<Color>, w: nat, h: nat, x: int, y: int, c: Color, px: int, py: int)
    requires |s| == w * h && 0 <= px < w && 0 <= py < h
    ensures 0 <= w * py + px < |s|
    ensures Plot(s, w, h, x, y, c)[w * py + px]
            == if px == x && py == y && Inside(w, h, x, y) then c else s[w * py + px]
  {
    IndexInRange(w, h, px, py);
    if Inside(w, h, x, y) {
      IndexInRange(w, h, x, y);
      CellCoords(w, px, py);
      CellCoords(w, x, y);
    }
  }

  // ---------------------------------------------------------------------
  // Window surfaces

  /** What the compositor reads from a window: its rectangle, the row
      length of its own buffer, and that buffer's cells. The row length is
      the buffer's, which differs from `rect.width` while a resize is
      pending. */
  datatype Surface = Surface(rect: Rect, stride: nat, pixels: seq<Color>)

  /** Every cell (i, j) of the window's rectangle is addressable in its
      buffer (reading it otherwise is an out-of-bounds index). */
  predicate Readable(s: Surface)
  {
    s.rect.width == 0 || s.rect.height == 0
    || s.stride * (s.rect.height - 1) + s.rect.width <= |s.pixels|
  }

  lemma SurfaceIndexInRange(s: Surface, i: int, j: int)
    requires Readable(s) && 0 <= i < s.rect.width && 0 <= j < s.rect.height
    ensures 0 <= s.stride * j + i < |s.pixels|
  {
    MulMonotone(s.stride, 0, j);
    MulMonotone(s.stride, j, s.rect.height - 1);
  }

  /** `get_pixel(i, j)` on the window's own buffer. */
  function SurfacePixel(s: Surface, i: int, j: int): (c: Color)
    requires Readable(s) && 0 <= i < s.rect.width && 0 <= j < s.rect.height
  {
    SurfaceIndexInRange(s, i, j);
    s.pixels[s.stride * j + i]
  }

  /** A buffer whose row length is its rectangle's width is readable. */
  lemma ExactSurfaceReadable(s: Surface)
    requires s.stride == s.rect.width && |s.pixels| == s.rect.width * s.rect.height
    ensures Readable(s)
  {
    if s.rect.height > 0 {
      assert s.stride * (s.rect.height - 1) + s.rect.width == s.rect.width * s.rect.height;
    }
  }

  // ---------------------------------------------------------------------
  // Clipped painting of a rectangle, cell by cell

  /** What is painted over a rectangle: one colour (rectangle fills and
      clears), a window's buffer (the blit), or the cursor image, indexed
      `[column][row]`, whose key-coloured cells are skipped. */
  datatype Brush = Solid(color: Color) | Copy(surface: Surface) | Cursor(image: seq<seq<Color>>)

  predicate Fits(b: Brush, r: Rect)
  {
    match b
    case Solid(_) => true
    case Copy(s) => s.rect == r && Readable(s)
    case Cursor(img) =>
      |img| == r.width && forall i :: 0 <= i < |img| ==> |img[i]| == r.height
  }

  /** The colour the brush offers at screen cell (x, y) of the rectangle. */
  function Ink(b: Brush, r: Rect, x: int, y: int): (c: Color)
    requires Fits(b, r) && r.Contains(x, y)
  {
    match b
    case Solid(c) => c
    case Copy(s) => SurfacePixel(s, x - r.x, y - r.y)
    case Cursor(img) => img[x - r.x][y - r.y]
  }

  /** Whether the brush draws at (x, y) at all. */
  predicate Paints(b: Brush, r: Rect, x: int, y: int)
    requires Fits(b, r) && r.Contains(x, y)
  {
    !(b.Cursor? && Ink(b, r, x, y) == TransparentKey)
  }

  /** Cell (x, y) is changed by painting `b` over `r`. */
  predicate Painted(w: int, h: int, r: Rect, b: Brush, x: int, y: int)
    requires Fits(b, r)
  {
    Inside(w, h, x, y) && r.Contains(x, y) && Paints(b, r, x, y)
  }

  /** Painting in row-major order, stopped just before cell (xEnd, yEnd):
      the state of the buffer part-way through the two nested loops. */
  function PaintUpTo(dst: seq<Color>, w: nat, h: nat, r: Rect, b: Brush, yEnd: int, xEnd: int): (res: seq<Color>)
    requires |dst| == w * h && Fits(b, r)
    ensures |res| == |dst|
  {
    seq(|dst|, k requires 0 <= k < |dst| =>
      CoordsOf(w, h, k);
      var x, y := k % w, k / w;
      if Painted(w, h, r, b, x, y) && (y < yEnd || (y == yEnd && x < xEnd)) then Ink(b, r, x, y)
      else dst[k])
  }

  /** Painting the whole rectangle. */
  function Paint(dst: seq<Color>, w: nat, h: nat, r: Rect, b: Brush): (res: seq<Color>)
    requires |dst| == w * h && Fits(b, r)
    ensures |res| == |dst|
  {
    PaintUpTo(dst, w, h, r, b, r.EndY(), r.x)
  }

  /** Nothing is painted before the first cell of the rectangle. */
  lemma PaintStart(dst: seq<Color>, w: nat, h: nat, r: Rect, b: Brush)
    requires |dst| == w * h && Fits(b, r)
    ensures PaintUpTo(dst, w, h, r, b, r.y, r.x) == dst
  {
  }

  /** One step of the inner loop: cell (x, y) is written through the
      clipped write, or skipped. */
  lemma PaintStep(dst: seq<Color>, w: nat, h: nat, r: Rect, b: Brush, x: int, y: int)
    requires |dst| == w * h && Fits(b, r) && r.Contains(x, y)
    ensures PaintUpTo(dst, w, h, r, b, y, x + 1)
            == if Paints(b, r, x, y) then Plot(PaintUpTo(dst, w, h, r, b, y, x), w, h, x, y, Ink(b, r, x, y))
               else PaintUpTo(dst, w, h, r, b, y, x)
  {
    var before := PaintUpTo(dst, w, h, r, b, y, x);
    var after := PaintUpTo(dst, w, h, r, b, y, x + 1);
    var expected := if Paints(b, r, x, y) then Plot(before, w, h, x, y, Ink(b, r, x, y)) else before;
    forall k | 0 <= k < |dst|
      ensures after[k] == expected[k]
    {
      CoordsOf(w, h, k);
      PlotAt(before, w, h, x, y, Ink(b, r, x, y), k % w, k / w);
    }
  }

  /** Finishing a row of the rectangle is starting the next one. */
  lemma PaintRowEnd(dst: seq<Color>, w: nat, h: nat, r: Rect, b: Brush, y: int)
    requires |dst| == w * h && Fits(b, r)
    ensures PaintUpTo(dst, w, h, r, b, y, r.EndX()) == PaintUpTo(dst, w, h, r, b, y + 1, r.x)
  {
  }

  /** The meaning of a whole paint, cell by cell: exactly the cells of the
      rectangle that are strictly inside the buffer and that the brush
      draws take the brush's colour; every other cell keeps its value. */
  lemma PaintAt(dst: seq<Color>, w: nat, h: nat, r: Rect, b: Brush, x: int, y: int)
    requires |dst| == w * h && Fits(b, r) && 0 <= x < w && 0 <= y < h
    ensures 0 <= w * y + x < |dst|
    ensures Paint(dst, w, h, r, b)[w * y + x]
            == if Painted(w, h, r, b, x, y) then Ink(b, r, x, y) else dst[w * y + x]
  {
    IndexInRange(w, h, x, y);
    CellCoords(w, x, y);
  }

  /** The blit of a window, in the window's own coordinates: destination
      cell (rect.x + i, rect.y + j) takes window pixel (i, j) when it is
      strictly inside the destination. */
  lemma BlitAt(dst: seq<Color>, w: nat, h: nat, s: Surface, i: int, j: int)
    requires |dst| == w * h && Readable(s)
    requires 0 <= i < s.rect.width && 0 <= j < s.rect.height
    requires Inside(w, h, s.rect.x + i, s.rect.y + j)
    ensures 0 <= w * (s.rect.y + j) + (s.rect.x + i) < |dst|
    ensures Paint(dst, w, h, s.rect, Copy(s))[w * (s.rect.y + j) + (s.rect.x + i)] == SurfacePixel(s, i, j)
  {
    PaintAt(dst, w, h, s.rect, Copy(s), s.rect.x + i, s.rect.y + j);
  }

  // ---------------------------------------------------------------------
  // Compositing several windows in registry order

  predicate AllReadable(views: seq<Surface>)
  {
    forall i :: 0 <= i < |views| ==> Readable(views[i])
  }

  /** Blitting every window in turn, the first one first. */
  function BlitAll(dst: seq<Color>, w: nat, h: nat, views: seq<Surface>): (res: seq<Color>)
    requires |dst| == w * h && AllReadable(views)
    ensures |res| == |dst|
    decreases |views|
  {
    if views == [] then dst
    else
      var last := views[|views| - 1];
      Paint(BlitAll(dst, w, h, views[..|views| - 1]), w, h, last.rect, Copy(last))
  }

  /** Window `v` shows at screen cell (x, y) if it is placed over it. */
  predicate Covers(w: int, h: int, v: Surface, x: int, y: int)
  {
    Inside(w, h, x, y) && v.rect.Contains(x, y)
  }

  /** Occlusion: a cell shows the pixel of the last-registered window
      covering it. */
  lemma {:induction false} TopmostWins(dst: seq<Color>, w: nat, h: nat, views: seq<Surface>, t: int, x: int, y: int)
    requires |dst| == w * h && AllReadable(views)
    requires 0 <= x < w && 0 <= y < h
    requires 0 <= t < |views| && Covers(w, h, views[t], x, y)
    requires forall u :: t < u < |views| ==> !Covers(w, h, views[u], x, y)
    ensures 0 <= w * y + x < |dst|
    ensures BlitAll(dst, w, h, views)[w * y + x]
            == SurfacePixel(views[t], x - views[t].rect.x, y - views[t].rect.y)
    decreases |views|
  {
    var n := |views|;
    var last := views[n - 1];
    var prefix := views[..n - 1];
    PaintAt(BlitAll(dst, w, h, prefix), w, h, last.rect, Copy(last), x, y);
    if t < n - 1 {
      TopmostWins(dst, w, h, prefix, t, x, y);
    }
  }

  /** A cell no window covers keeps its value. */
  lemma {:induction false} UncoveredKept(dst: seq<Color>, w: nat, h: nat, views: seq<Surface>, x: int, y: int)
    requires |dst| == w * h && AllReadable(views)
    requires 0 <= x < w && 0 <= y < h
    requires forall u :: 0 <= u < |views| ==> !Covers(w, h, views[u], x, y)
    ensures 0 <= w * y + x < |dst|
    ensures BlitAll(dst, w, h, views)[w * y + x] == dst[w * y + x]
    decreases |views|
  {
    IndexInRange(w, h, x, y);
    if views != [] {
      var n := |views|;
      var last := views[n - 1];
      PaintAt(BlitAll(dst, w, h, views[..n - 1]), w, h, last.rect, Copy(last), x, y);
      UncoveredKept(dst, w, h, views[..n - 1], x, y);
    }
  }

  /** A write into a window's own buffer at window-local (x, y), as
      `Window::draw_something` does: negative coordinates are ignored, and
      there is no upper-bound check, so the caller keeps the index in range. */
  function LocalWrite(s: Surface, x: int, y: int, c: Color): (r: Surface)
    requires x >= 0 && y >= 0 ==> s.stride * y + x < |s.pixels|
    ensures r.rect == s.rect && r.stride == s.stride && |r.pixels| == |s.pixels|
  {
    if x >= 0 && y >= 0 then Surface(s.rect, s.stride, s.pixels[s.stride * y + x := c]) else s
  }

  /** Drawing relative to the window and compositing are inverse offsets:
      a colour written at the window-local image of screen cell (x, y) is
      what the blit puts at (x, y), when no resize is pending and (x, y) is
      strictly inside the screen and inside the window. */
  lemma RelativeWriteShowsOnScreen(dst: seq<Color>, w: nat, h: nat, s: Surface, x: int, y: int, c: Color)
    requires |dst| == w * h
    requires s.stride == s.rect.width && |s.pixels| == s.rect.width * s.rect.height
    requires Inside(w, h, x, y) && s.rect.Contains(x, y)
    ensures s.stride * (y - s.rect.y) + (x - s.rect.x) < |s.pixels|
    ensures 0 <= w * y + x < |dst|
    ensures var t := LocalWrite(s, x - s.rect.x, y - s.rect.y, c);
            Readable(t) && Paint(dst, w, h, s.rect, Copy(t))[w * y + x] == c
  {
    ExactSurfaceReadable(s);
    SurfaceIndexInRange(s, x - s.rect.x, y - s.rect.y);
    var t := LocalWrite(s, x - s.rect.x, y - s.rect.y, c);
    BlitAt(dst, w, h, t, x - s.rect.x, y - s.rect.y);
  }

  /** An all-black buffer of n cells. */
  function Cleared(n: nat): (s: seq<Color>)
    ensures |s| == n && forall k :: 0 <= k < n ==> s[k] == Black
  {
    seq(n, _ => Black)
  }
}
