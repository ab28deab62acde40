/** A window: an independently drawn surface with a position, its own
    buffer, and a flag that defers reallocating that buffer after a resize. */
module Windows {
  import opened Geometry
  import opened Pixels
  import opened Framebuffers
  import opened Motion

  class Window {
    var rect: Rect
    var frameBuffer: FrameBuffer
    var resized: bool

    /** The buffer matches the rectangle's size unless a resize is pending;
        the fill after a resize restores the match. */
    ghost predicate Valid()
      reads this
    {
      frameBuffer.Valid()
      && (!resized ==> frameBuffer.width == rect.width && frameBuffer.height == rect.height)
    }

    /** What the compositor reads from this window. */
    ghost function View(): Surface
      reads this, frameBuffer.buffer
    {
      Surface(rect, frameBuffer.width, frameBuffer.buffer[..])
    }

    /** A window with a fresh buffer sized to `r`. */
    constructor (r: Rect)
      ensures Valid() && rect == r && !resized
      ensures fresh(frameBuffer) && fresh(frameBuffer.buffer)
    {
      rect := r;
      frameBuffer := new FrameBuffer(r.width, r.height);
      resized := false;
    }

    /** Clear the window's own buffer. */
    method Blank()
      modifies frameBuffer.buffer
      ensures frameBuffer.buffer[..] == Cleared(frameBuffer.buffer.Length)
    {
      frameBuffer.Blank();
    }

    /** Write at window-local (x, y); negative coordinates are ignored and
        there is no upper-bound check (an index past the end panics). */
    method DrawSomething(x: int, y: int, c: Color)
      requires x >= 0 && y >= 0 ==> frameBuffer.width * y + x < frameBuffer.buffer.Length
      modifies frameBuffer.buffer
      ensures View() == LocalWrite(old(View()), x, y, c)
      ensures x >= 0 && y >= 0 ==> frameBuffer.buffer[..] == old(frameBuffer.buffer[..])[frameBuffer.width * y + x := c]
    {
      if x >= 0 && y >= 0 {
        frameBuffer.buffer[frameBuffer.width * y + x] := c;
      }
    }

    /** Write at screen coordinates: converted to window-local ones by
        subtracting the window's position. */
    method DrawRelative(x: int, y: int, c: Color)
      requires x - rect.x >= 0 && y - rect.y >= 0
               ==> frameBuffer.width * (y - rect.y) + (x - rect.x) < frameBuffer.buffer.Length
      modifies frameBuffer.buffer
      ensures View() == LocalWrite(old(View()), x - old(rect.x), y - old(rect.y), c)
    {
      DrawSomething(x - rect.x, y - rect.y, c);
    }

    /** Write at window-local (x, y) when it lies within the window's
        buffer. The guard here is strict; see `AbsoluteWriteAsWritten` for
        the inclusive one, which lets a write run past the row. */
    method DrawAbsolute(x: int, y: int, c: Color)
      requires Valid()
      modifies frameBuffer.buffer
      ensures View() == AbsoluteWrite(old(View()), frameBuffer.height, x, y, c)
    {
      if x < frameBuffer.width && y < frameBuffer.height {
        if x >= 0 && y >= 0 {
          IndexInRange(frameBuffer.width, frameBuffer.height, x, y);
        }
        DrawSomething(x, y, c);
      }
    }

    /** Fill the whole window with `c`, first reallocating the buffer to the
        rectangle's size if a resize is pending. */
    method DrawRectangle(c: Color)
      requires Valid()
      modifies this, frameBuffer.buffer
      ensures Valid() && !resized && rect == old(rect)
      ensures frameBuffer.width == rect.width && frameBuffer.height == rect.height
      ensures frameBuffer.buffer[..] == seq(rect.width * rect.height, _ => c)
      ensures old(resized) ==> fresh(frameBuffer) && fresh(frameBuffer.buffer)
      ensures !old(resized) ==> frameBuffer == old(frameBuffer)
    {
      if resized {
        ResizeFramebuffer();
        resized := false;
      }
      FillRows(c);
    }

    /** The two nested loops of the fill, over rows then columns, once the
        buffer has the rectangle's size. */
    method FillRows(c: Color)
      requires Valid() && !resized
      modifies frameBuffer.buffer
      ensures frameBuffer.buffer[..] == seq(rect.width * rect.height, _ => c)
    {
      var width, height := rect.width, rect.height;
      ghost var cells := frameBuffer.buffer;
      ghost var row := 0;
      var y := 0;
      while y < height
        invariant 0 <= y <= height && row == width * y && row <= cells.Length
        invariant forall k :: 0 <= k < row ==> cells[k] == c
      {
        if width > 0 {
          IndexInRange(width, height, width - 1, y);
        }
        var x := 0;
        while x < width
          invariant 0 <= x <= width && row + width <= cells.Length
          invariant forall k :: 0 <= k < row + x ==> cells[k] == c
        {
          IndexInRange(width, height, x, y);
          ghost var before := cells[..];
          DrawSomething(x, y, c);
          assert cells[..] == before[row + x := c];
          x := x + 1;
        }
        row := row + width;
        y := y + 1;
      }
      assert cells[..] == seq(width * height, _ => c);
    }

    /** Move the window; its buffer is not touched. */
    method SetPosition(x: int, y: int)
      requires Valid()
      modifies this`rect
      ensures Valid() && rect == old(rect).(x := x, y := y)
    {
      rect := rect.(x := x, y := y);
    }

    /** The left-button drag of this window: each axis moves by the whole
        displacement unless that would leave less than the margin of the
        window on a `screenWidth × screenHeight` screen. */
    method Drag(dx: int, dy: int, screenWidth: nat, screenHeight: nat)
      requires Valid()
      modifies this`rect
      ensures Valid() && rect == Dragged(old(rect), dx, dy, screenWidth, screenHeight)
    {
      var newX := rect.x + dx;
      var newY := rect.y - dy;
      if newX + (rect.width - DragMargin) < 0 {
        newX := rect.x;
      }
      if newX + DragMargin > screenWidth {
        newX := rect.x;
      }
      if newY <= 0 {
        newY := rect.y;
      }
      if newY + DragMargin > screenHeight {
        newY := rect.y;
      }
      rect := rect.(x := newX, y := newY);
    }

    /** The right-button resize of this window: wider by `dx`, shorter by
        `dy`, with the buffer's reallocation deferred to the next fill. */
    method Grow(dx: int, dy: int)
      requires Valid() && rect.width + dx >= 0 && rect.height - dy >= 0
      modifies this`rect, this`resized
      ensures Valid() && resized
      ensures rect == old(rect).(width := old(rect).width + dx, height := old(rect).height - dy)
    {
      rect := rect.(width := rect.width + dx, height := rect.height - dy);
      resized := true;
    }

    /** Replace the buffer by a fresh one sized to the rectangle. */
    method ResizeFramebuffer()
      modifies this`frameBuffer
      ensures fresh(frameBuffer) && fresh(frameBuffer.buffer) && frameBuffer.Valid()
      ensures frameBuffer.width == rect.width && frameBuffer.height == rect.height
    {
      frameBuffer := new FrameBuffer(rect.width, rect.height);
    }
  }

  /** The strict local-bounds write used by `Window.DrawAbsolute` on a
      buffer of `rows` rows of `stride` cells. */
  function AbsoluteWrite(s: Surface, rows: nat, x: int, y: int, c: Color): (r: Surface)
    requires |s.pixels| == s.stride * rows
  {
    if x < s.stride && y < rows then
      if x >= 0 && y >= 0 then
        IndexInRange(s.stride, rows, x, y);
        LocalWrite(s, x, y, c)
      else s
    else s
  }

  /** How a write ends: the new cells, or an index past the end of the
      buffer (a panic). */
  datatype WriteOutcome = Written(pixels: seq<Color>) | OutOfBounds

  /** `Window::draw_absolute` as the source writes it: the guard compares
      with the rectangle's size using `<=`. */
  function AbsoluteWriteAsWritten(s: Surface, x: int, y: int, c: Color): (r: WriteOutcome)
    ensures r.OutOfBounds? <==> x <= s.rect.width && y <= s.rect.height && x >= 0 && y >= 0
                                && s.stride * y + x >= |s.pixels|
  {
    if x <= s.rect.width && y <= s.rect.height then
      if x >= 0 && y >= 0 then
        if s.stride * y + x < |s.pixels| then Written(s.pixels[s.stride * y + x := c]) else OutOfBounds
      else Written(s.pixels)
    else Written(s.pixels)
  }

  /** On an exactly sized window the inclusive guard admits (width, height - 1),
      whose index is one past the end of the buffer. */
  lemma AbsoluteAsWrittenOverruns(s: Surface, c: Color)
    requires s.rect.width > 0 && s.rect.height > 0
    requires s.stride == s.rect.width && |s.pixels| == s.rect.width * s.rect.height
    ensures AbsoluteWriteAsWritten(s, s.rect.width, s.rect.height - 1, c) == OutOfBounds
  {
    assert s.stride * (s.rect.height - 1) + s.rect.width == |s.pixels|;
  }

  /** ... and it admits (width, 0), which lands on cell (0, 1) of the next row. */
  lemma AbsoluteAsWrittenWraps(s: Surface, c: Color)
    requires s.rect.width > 0 && s.rect.height > 1
    requires s.stride == s.rect.width && |s.pixels| == s.rect.width * s.rect.height
    ensures 0 <= s.stride * 1 + 0 < |s.pixels|
    ensures AbsoluteWriteAsWritten(s, s.rect.width, 0, c) == Written(s.pixels[s.stride * 1 + 0 := c])
  {
    IndexInRange(s.stride, s.rect.height, 0, 1);
  }

  /** The strict guard writes exactly cell (x, y), and only when it lies
      in [0, stride) × [0, rows): it never runs into the next row. */
  lemma AbsoluteWriteAt(s: Surface, rows: nat, x: int, y: int, c: Color, px: int, py: int)
    requires |s.pixels| == s.stride * rows && 0 <= px < s.stride && 0 <= py < rows
    ensures 0 <= s.stride * py + px < |s.pixels|
    ensures AbsoluteWrite(s, rows, x, y, c).pixels[s.stride * py + px]
            == if px == x && py == y then c else s.pixels[s.stride * py + px]
  {
    IndexInRange(s.stride, rows, px, py);
    CellCoords(s.stride, px, py);
    if 0 <= x < s.stride && 0 <= y < rows {
      IndexInRange(s.stride, rows, x, y);
      CellCoords(s.stride, x, y);
    }
  }

  /** `get_bit`: the glyph-row bit for column i, most significant bit
      first (`0x80 >> i`). */
  function GetBit(charFont: bv8, i: nat): (r: bv8)
    requires i < 8
    ensures r == 0 || r == (0x80 as bv8) >> i
    ensures r != 0 <==> (charFont >> (7 - i)) & 1 == 1
  {
    charFont & ((0x80 as bv8) >> i)
  }
}
