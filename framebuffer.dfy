/** A pixel buffer owned by a window or by the window manager: `width *
    height` colour cells, row-major, written in place. */
module Framebuffers {
  import opened Geometry
  import opened Pixels

  class FrameBuffer {
    const width: nat
    const height: nat
    const buffer: array<Color>

    ghost predicate Valid()
    {
      buffer.Length == width * height
    }

    /** A fresh buffer of `w * h` cells. Mapping or allocating the memory
        is outside this model, and so are the cells' initial values. */
    constructor (w: nat, h: nat)
      ensures Valid() && width == w && height == h && fresh(buffer)
    {
      width, height := w, h;
      buffer := new Color[w * h];
    }

    /** The clipped single-cell write: only cells strictly inside change. */
    method DrawSomething(x: int, y: int, c: Color)
      requires Valid()
      modifies buffer
      ensures buffer[..] == Plot(old(buffer[..]), width, height, x, y, c)
    {
      if x > 0 && x < width && y > 0 && y < height {
        IndexInRange(width, height, x, y);
        buffer[width * y + x] := c;
      }
    }

    /** The unchecked read: the caller keeps (x, y) inside the buffer. */
    function GetPixel(x: int, y: int): (c: Color)
      reads buffer
      requires 0 <= x && 0 <= y && width * y + x < buffer.Length
      ensures var s := Surface(Rect(width, height, 0, 0), width, buffer[..]);
              Readable(s) && x < width && y < height ==> c == SurfacePixel(s, x, y)
    {
      buffer[width * y + x]
    }

    /** Clear every cell to black. */
    method Blank()
      modifies buffer
      ensures buffer[..] == Cleared(buffer.Length)
    {
      for k := 0 to buffer.Length
        invariant forall j :: 0 <= j < k ==> buffer[j] == Black
      {
        buffer[k] := Black;
      }
    }

    /** Fill the clipped part of `r` with the fixed rectangle colour. */
    method DrawRectangle(r: Rect)
      requires Valid()
      modifies buffer
      ensures buffer[..] == Paint(old(buffer[..]), width, height, r, Solid(RectangleColor))
    {
      ghost var start := buffer[..];
      PaintStart(start, width, height, r, Solid(RectangleColor));
      var y := r.y;
      while y < r.EndY()
        invariant r.y <= y <= r.EndY()
        invariant buffer[..] == PaintUpTo(start, width, height, r, Solid(RectangleColor), y, r.x)
      {
        var x := r.x;
        while x < r.EndX()
          invariant r.x <= x <= r.EndX()
          invariant buffer[..] == PaintUpTo(start, width, height, r, Solid(RectangleColor), y, x)
        {
          if x > 0 && x < width && y > 0 && y < height {
            DrawSomething(x, y, RectangleColor);
          }
          PaintStep(start, width, height, r, Solid(RectangleColor), x, y);
          x := x + 1;
        }
        PaintRowEnd(start, width, height, r, Solid(RectangleColor), y);
        y := y + 1;
      }
    }

    /** Clear the part of `r` that the clipped write reaches. */
    method BlankRect(r: Rect)
      requires Valid()
      modifies buffer
      ensures buffer[..] == Paint(old(buffer[..]), width, height, r, Solid(Black))
    {
      ghost var start := buffer[..];
      PaintStart(start, width, height, r, Solid(Black));
      var y := r.y;
      while y < r.EndY()
        invariant r.y <= y <= r.EndY()
        invariant buffer[..] == PaintUpTo(start, width, height, r, Solid(Black), y, r.x)
      {
        var x := r.x;
        while x < r.EndX()
          invariant r.x <= x <= r.EndX()
          invariant buffer[..] == PaintUpTo(start, width, height, r, Solid(Black), y, x)
        {
          DrawSomething(x, y, Black);
          PaintStep(start, width, height, r, Solid(Black), x, y);
          x := x + 1;
        }
        PaintRowEnd(start, width, height, r, Solid(Black), y);
        y := y + 1;
      }
    }

    /** Blit a window, given its rectangle and its own buffer, at the
        rectangle's offset, clipping every cell. */
    method CopyWindowOnly(windowRect: Rect, source: FrameBuffer)
      requires Valid() && source.buffer != buffer
      requires Readable(Surface(windowRect, source.width, source.buffer[..]))
      modifies buffer
      ensures buffer[..] == Paint(old(buffer[..]), width, height, windowRect,
                                  Copy(Surface(windowRect, source.width, source.buffer[..])))
    {
      ghost var start := buffer[..];
      ghost var surface := Surface(windowRect, source.width, source.buffer[..]);
      PaintStart(start, width, height, windowRect, Copy(surface));
      var j := 0;
      while j < windowRect.height
        invariant 0 <= j <= windowRect.height
        invariant buffer[..] == PaintUpTo(start, width, height, windowRect, Copy(surface), windowRect.y + j, windowRect.x)
      {
        var i := 0;
        while i < windowRect.width
          invariant 0 <= i <= windowRect.width
          invariant buffer[..] == PaintUpTo(start, width, height, windowRect, Copy(surface), windowRect.y + j, windowRect.x + i)
        {
          SurfaceIndexInRange(surface, i, j);
          var pixel := source.GetPixel(i, j);
          if i + windowRect.x > 0 && windowRect.x + i < width && j + windowRect.y > 0 && j + windowRect.y < height {
            DrawSomething(i + windowRect.x, j + windowRect.y, pixel);
          }
          PaintStep(start, width, height, windowRect, Copy(surface), windowRect.x + i, windowRect.y + j);
          i := i + 1;
        }
        PaintRowEnd(start, width, height, windowRect, Copy(surface), windowRect.y + j);
        j := j + 1;
      }
    }
  }
}
