/** The compositor: a registry of windows in paint order, an off-screen
    back buffer, the displayed front buffer and the cursor rectangle. */
module Compositor {
  import opened Geometry
  import opened Pixels
  import opened Framebuffers
  import opened Windows
  import opened MouseEvents
  import opened Motion

  /** One finished frame as a value: black, then every window blitted in
      registry order, then the cursor image over everything. */
  function ComposedFrame(w: nat, h: nat, views: seq<Surface>, cursor: Rect, image: seq<seq<Color>>): (f: seq<Color>)
    requires AllReadable(views) && Fits(Cursor(image), cursor)
    ensures |f| == w * h
  {
    Paint(BlitAll(Cleared(w * h), w, h, views), w, h, cursor, Cursor(image))
  }

  /** The cursor is drawn over every window, except where its image has
      the key colour. */
  lemma FrameShowsCursor(w: nat, h: nat, views: seq<Surface>, cursor: Rect, image: seq<seq<Color>>, x: int, y: int)
    requires AllReadable(views) && Fits(Cursor(image), cursor)
    requires Inside(w, h, x, y) && cursor.Contains(x, y)
    requires image[x - cursor.x][y - cursor.y] != TransparentKey
    ensures 0 <= w * y + x < w * h
    ensures ComposedFrame(w, h, views, cursor, image)[w * y + x] == image[x - cursor.x][y - cursor.y]
  {
    PaintAt(BlitAll(Cleared(w * h), w, h, views), w, h, cursor, Cursor(image), x, y);
  }

  /** Away from the cursor's drawn cells, a cell shows the topmost window
      covering it, the one registered last. */
  lemma FrameShowsTopmostWindow(w: nat, h: nat, views: seq<Surface>, cursor: Rect, image: seq<seq<Color>>,
                                t: int, x: int, y: int)
    requires AllReadable(views) && Fits(Cursor(image), cursor)
    requires 0 <= x < w && 0 <= y < h
    requires !cursor.Contains(x, y) || image[x - cursor.x][y - cursor.y] == TransparentKey
    requires 0 <= t < |views| && Covers(w, h, views[t], x, y)
    requires forall u :: t < u < |views| ==> !Covers(w, h, views[u], x, y)
    ensures 0 <= w * y + x < w * h
    ensures ComposedFrame(w, h, views, cursor, image)[w * y + x]
            == SurfacePixel(views[t], x - views[t].rect.x, y - views[t].rect.y)
  {
    PaintAt(BlitAll(Cleared(w * h), w, h, views), w, h, cursor, Cursor(image), x, y);
    TopmostWins(Cleared(w * h), w, h, views, t, x, y);
  }

  /** A cell that neither a window nor the cursor covers is black. */
  lemma FrameBackgroundBlack(w: nat, h: nat, views: seq<Surface>, cursor: Rect, image: seq<seq<Color>>, x: int, y: int)
    requires AllReadable(views) && Fits(Cursor(image), cursor)
    requires 0 <= x < w && 0 <= y < h
    requires !cursor.Contains(x, y) || image[x - cursor.x][y - cursor.y] == TransparentKey
    requires forall u :: 0 <= u < |views| ==> !Covers(w, h, views[u], x, y)
    ensures 0 <= w * y + x < w * h
    ensures ComposedFrame(w, h, views, cursor, image)[w * y + x] == Black
  {
    PaintAt(BlitAll(Cleared(w * h), w, h, views), w, h, cursor, Cursor(image), x, y);
    UncoveredKept(Cleared(w * h), w, h, views, x, y);
  }

  class WindowManager {
    var windows: seq<Window>
    const backBuffer: FrameBuffer
    const frontBuffer: FrameBuffer
    var mouse: Rect

    /** Both buffers have the screen's size; no two of the buffers involved
        are the same array; registry entries are distinct windows; the
        cursor keeps its 11 × 18 size. */
    ghost predicate Valid()
      reads this, windows
    {
      && backBuffer.Valid() && frontBuffer.Valid()
      && backBuffer.width == frontBuffer.width && backBuffer.height == frontBuffer.height
      && backBuffer.buffer != frontBuffer.buffer
      && (forall i :: 0 <= i < |windows| ==> windows[i].Valid())
      && (forall i :: 0 <= i < |windows| ==>
            windows[i].frameBuffer.buffer != backBuffer.buffer && windows[i].frameBuffer.buffer != frontBuffer.buffer)
      && (forall i, j :: 0 <= i < j < |windows| ==>
            windows[i] != windows[j] && windows[i].frameBuffer.buffer != windows[j].frameBuffer.buffer)
      && mouse.width == InitialCursor.width && mouse.height == InitialCursor.height
    }

    ghost function Buffers(): set<array<Color>>
      reads this, windows
    {
      set i | 0 <= i < |windows| :: windows[i].frameBuffer.buffer
    }

    /** What the compositor reads from every window, in registry order. */
    ghost function Views(): (vs: seq<Surface>)
      reads this, windows, Buffers()
      ensures |vs| == |windows|
      ensures forall i :: 0 <= i < |windows| ==> vs[i] == windows[i].View()
    {
      seq(|windows|, i requires 0 <= i < |windows| reads this, windows, Buffers() => windows[i].View())
    }

    /** The manager for a `screenWidth × screenHeight` display, with the
        cursor at its default place and no windows. */
    constructor (screenWidth: nat, screenHeight: nat)
      ensures Valid() && windows == [] && mouse == InitialCursor
      ensures backBuffer.width == screenWidth && backBuffer.height == screenHeight
      ensures fresh(backBuffer) && fresh(backBuffer.buffer) && fresh(frontBuffer) && fresh(frontBuffer.buffer)
    {
      frontBuffer := new FrameBuffer(screenWidth, screenHeight);
      backBuffer := new FrameBuffer(screenWidth, screenHeight);
      mouse := InitialCursor;
      windows := [];
    }

    /** A new window with a fresh buffer, registered last (so painted on top). */
    method NewWindow(dimensions: Rect) returns (window: Window)
      requires Valid()
      modifies this`windows
      ensures Valid() && fresh(window) && fresh(window.frameBuffer.buffer)
      ensures window.rect == dimensions && !window.resized
      ensures windows == old(windows) + [window]
    {
      window := new Window(dimensions);
      windows := windows + [window];
    }

    /** Blit every window in registry order, then clear every window's own
        buffer. */
    method DrawWindows()
      requires Valid() && AllReadable(Views())
      modifies backBuffer.buffer, Buffers()
      ensures Valid()
      ensures backBuffer.buffer[..]
              == BlitAll(old(backBuffer.buffer[..]), backBuffer.width, backBuffer.height, old(Views()))
      ensures forall i :: 0 <= i < |windows| ==>
                windows[i].frameBuffer.buffer[..] == Cleared(windows[i].frameBuffer.buffer.Length)
    {
      BlitWindows();
      BlankWindows();
    }

    /** The first loop of `DrawWindows`: blit in registry order. */
    method BlitWindows()
      requires Valid() && AllReadable(Views())
      modifies backBuffer.buffer
      ensures backBuffer.buffer[..]
              == BlitAll(old(backBuffer.buffer[..]), backBuffer.width, backBuffer.height, old(Views()))
    {
      ghost var views := Views();
      ghost var start := backBuffer.buffer[..];
      var i := 0;
      while i < |windows|
        invariant 0 <= i <= |windows|
        invariant Views() == views
        invariant backBuffer.buffer[..] == BlitAll(start, backBuffer.width, backBuffer.height, views[..i])
      {
        var window := windows[i];
        backBuffer.CopyWindowOnly(window.rect, window.frameBuffer);
        assert views[..i + 1][..i] == views[..i];
        i := i + 1;
      }
      assert views[..|windows|] == views;
    }

    /** The second loop of `DrawWindows`: clear every window's buffer. */
    method BlankWindows()
      requires Valid()
      modifies Buffers()
      ensures forall i :: 0 <= i < |windows| ==>
                windows[i].frameBuffer.buffer[..] == Cleared(windows[i].frameBuffer.buffer.Length)
    {
      for i := 0 to |windows|
        invariant forall j :: 0 <= j < i ==>
                    windows[j].frameBuffer.buffer[..] == Cleared(windows[j].frameBuffer.buffer.Length)
      {
        windows[i].Blank();
      }
    }

    /** Draw the cursor image over the back buffer, skipping key-coloured
        cells. */
    method DrawMouse(image: seq<seq<Color>>)
      requires Valid() && Fits(Cursor(image), mouse)
      modifies backBuffer.buffer
      ensures backBuffer.buffer[..]
              == Paint(old(backBuffer.buffer[..]), backBuffer.width, backBuffer.height, mouse, Cursor(image))
    {
      var m := mouse;
      ghost var start := backBuffer.buffer[..];
      ghost var w, h := backBuffer.width, backBuffer.height;
      PaintStart(start, w, h, m, Cursor(image));
      var y := m.y;
      while y < m.y + m.height
        invariant m.y <= y <= m.EndY()
        invariant backBuffer.buffer[..] == PaintUpTo(start, w, h, m, Cursor(image), y, m.x)
      {
        var x := m.x;
        while x < m.x + m.width
          invariant m.x <= x <= m.EndX()
          invariant backBuffer.buffer[..] == PaintUpTo(start, w, h, m, Cursor(image), y, x)
        {
          var color := image[x - m.x][y - m.y];
          if color != TransparentKey {
            backBuffer.DrawSomething(x, y, color);
          }
          PaintStep(start, w, h, m, Cursor(image), x, y);
          x := x + 1;
        }
        PaintRowEnd(start, w, h, m, Cursor(image), y);
        y := y + 1;
      }
    }

    /** One compositing pass into the back buffer. */
    method Update(image: seq<seq<Color>>)
      requires Valid() && AllReadable(Views()) && Fits(Cursor(image), mouse)
      modifies backBuffer.buffer, Buffers()
      ensures Valid()
      ensures backBuffer.buffer[..]
              == ComposedFrame(backBuffer.width, backBuffer.height, old(Views()), mouse, image)
      ensures forall i :: 0 <= i < |windows| ==>
                windows[i].frameBuffer.buffer[..] == Cleared(windows[i].frameBuffer.buffer.Length)
    {
      backBuffer.Blank();
      DrawWindows();
      DrawMouse(image);
    }

    /** Show the back buffer: copy it into the front buffer. */
    method Render()
      requires Valid()
      modifies frontBuffer.buffer
      ensures frontBuffer.buffer[..] == backBuffer.buffer[..]
    {
      forall k | 0 <= k < frontBuffer.buffer.Length {
        frontBuffer.buffer[k] := backBuffer.buffer[k];
      }
    }

    /** Move the cursor by (dx, -dy), discarding an axis that would leave
        the screen. */
    method UpdateMousePosition(dx: int, dy: int)
      requires Valid()
      modifies this`mouse
      ensures Valid()
      ensures mouse == CursorStep(old(mouse), dx, dy, backBuffer.width, backBuffer.height)
    {
      var newX := mouse.x + dx;
      var newY := mouse.y - dy;
      if newX + mouse.width / 2 < 0 {
        newX := mouse.x;
      }
      if newX + mouse.width / 2 > backBuffer.width {
        newX := mouse.x;
      }
      if newY < 0 {
        newY := mouse.y;
      }
      if newY + mouse.height / 2 > backBuffer.height {
        newY := mouse.y;
      }
      mouse := mouse.(x := newX, y := newY);
    }

    /** Move (left button) or resize (right button only) every window whose
        rectangle collides with the cursor's. */
    method DragWindows(dx: int, dy: int, ev: MouseEvent)
      requires Valid()
      requires forall i :: 0 <= i < |windows| ==> ResizeDefined(windows[i].rect, mouse, ev, dx, dy)
      modifies windows
      ensures Valid()
      ensures forall i :: 0 <= i < |windows| ==>
                && windows[i].rect == DragEffect(old(windows[i].rect), mouse, ev, dx, dy, backBuffer.width, backBuffer.height)
                && windows[i].resized == (old(windows[i].resized) || ResizeHit(old(windows[i].rect), mouse, ev))
                && windows[i].frameBuffer == old(windows[i].frameBuffer)
    {
      if ev.leftButtonHold {
        MoveHitWindows(dx, dy);
      } else if ev.rightButtonHold {
        ResizeHitWindows(dx, dy);
      }
    }

    /** The left-button branch of `DragWindows`: drag every window the
        cursor hits. */
    method MoveHitWindows(dx: int, dy: int)
      requires Valid()
      modifies windows
      ensures Valid()
      ensures forall i :: 0 <= i < |windows| ==>
                && windows[i].rect == (if old(windows[i].rect).Collides(mouse)
                                       then Dragged(old(windows[i].rect), dx, dy, backBuffer.width, backBuffer.height)
                                       else old(windows[i].rect))
                && windows[i].resized == old(windows[i].resized)
                && windows[i].frameBuffer == old(windows[i].frameBuffer)
    {
      var cursor := Rect(mouse.width, mouse.height, mouse.x, mouse.y);
      for i := 0 to |windows|
        invariant Valid()
        invariant forall j :: 0 <= j < |windows| ==>
                    && windows[j].resized == old(windows[j].resized)
                    && windows[j].frameBuffer == old(windows[j].frameBuffer)
        invariant forall j :: 0 <= j < i ==>
                    windows[j].rect == (if old(windows[j].rect).Collides(mouse)
                                        then Dragged(old(windows[j].rect), dx, dy, backBuffer.width, backBuffer.height)
                                        else old(windows[j].rect))
        invariant forall j :: i <= j < |windows| ==> windows[j].rect == old(windows[j].rect)
      {
        if windows[i].rect.Collides(cursor) {
          windows[i].Drag(dx, dy, backBuffer.width, backBuffer.height);
        }
      }
    }

    /** The right-button branch of `DragWindows`: resize every window the
        cursor hits and mark it for reallocation. */
    method ResizeHitWindows(dx: int, dy: int)
      requires Valid()
      requires forall i :: 0 <= i < |windows| && windows[i].rect.Collides(mouse) ==>
                 windows[i].rect.width + dx >= 0 && windows[i].rect.height - dy >= 0
      modifies windows
      ensures Valid()
      ensures forall i :: 0 <= i < |windows| ==>
                && windows[i].rect == (if old(windows[i].rect).Collides(mouse)
                                       then old(windows[i].rect).(width := old(windows[i].rect).width + dx,
                                                                  height := old(windows[i].rect).height - dy)
                                       else old(windows[i].rect))
                && windows[i].resized == (old(windows[i].resized) || old(windows[i].rect).Collides(mouse))
                && windows[i].frameBuffer == old(windows[i].frameBuffer)
    {
      var cursor := Rect(mouse.width, mouse.height, mouse.x, mouse.y);
      for i := 0 to |windows|
        invariant Valid()
        invariant forall j :: 0 <= j < i ==>
                    && windows[j].rect == (if old(windows[j].rect).Collides(mouse)
                                           then old(windows[j].rect).(width := old(windows[j].rect).width + dx,
                                                                      height := old(windows[j].rect).height - dy)
                                           else old(windows[j].rect))
                    && windows[j].resized == (old(windows[j].resized) || old(windows[j].rect).Collides(mouse))
        invariant forall j :: i <= j < |windows| ==>
                    windows[j].rect == old(windows[j].rect) && windows[j].resized == old(windows[j].resized)
        invariant forall j :: 0 <= j < |windows| ==> windows[j].frameBuffer == old(windows[j].frameBuffer)
      {
        if windows[i].rect.Collides(cursor) {
          windows[i].Grow(dx, dy);
        }
      }
    }

    /** One pass of the frame loop's input step over the snapshot `queue`:
        pop one event; a movement event is summed with the movement events
        behind it, and a non-zero total moves the cursor and then drags or
        resizes the windows under the moved cursor. Any other event is
        dropped. Returns what is left of the queue. */
    method HandleMouseInput(queue: seq<Event>) returns (rest: seq<Event>)
      requires Valid()
      requires queue != [] && queue[0].MouseMovementEvent? ==>
                 var first := queue[0].mouse;
                 var r := CoalesceRest(first, queue[1..]);
                 var x := SignExtend(first.displacementX) + r.dx;
                 var y := SignExtend(first.displacementY) + r.dy;
                 forall i :: 0 <= i < |windows| ==>
                   ResizeDefined(windows[i].rect, CursorStep(mouse, x, y, backBuffer.width, backBuffer.height), first, x, y)
      modifies this`mouse, windows
      ensures Valid() && windows == old(windows)
      ensures queue == [] ==> rest == [] && mouse == old(mouse)
      ensures queue != [] && queue[0].OtherEvent? ==> rest == queue[1..] && mouse == old(mouse)
      ensures queue == [] || queue[0].OtherEvent? ==>
                forall i :: 0 <= i < |windows| ==>
                  && windows[i].rect == old(windows[i].rect)
                  && windows[i].resized == old(windows[i].resized)
                  && windows[i].frameBuffer == old(windows[i].frameBuffer)
      ensures queue != [] && queue[0].MouseMovementEvent? ==>
                var first := queue[0].mouse;
                var r := CoalesceRest(first, queue[1..]);
                var x := SignExtend(first.displacementX) + r.dx;
                var y := SignExtend(first.displacementY) + r.dy;
                var moved := x != 0 || y != 0;
                && rest == queue[1 + r.consumed..]
                && mouse == (if moved then CursorStep(old(mouse), x, y, backBuffer.width, backBuffer.height) else old(mouse))
                && forall i :: 0 <= i < |windows| ==>
                     && windows[i].rect == (if moved then DragEffect(old(windows[i].rect), mouse, first, x, y, backBuffer.width, backBuffer.height)
                                            else old(windows[i].rect))
                     && windows[i].resized == (old(windows[i].resized) || (moved && ResizeHit(old(windows[i].rect), mouse, first)))
                     && windows[i].frameBuffer == old(windows[i].frameBuffer)
    {
      if queue == [] {
        return [];
      }
      match queue[0] {
        case OtherEvent =>
          rest := queue[1..];
        case MouseMovementEvent(first) =>
          var x, y;
          x, y, rest := Coalesce(first, queue[1..]);
          assert rest == queue[1 + CoalesceRest(first, queue[1..]).consumed..];
          if x != 0 || y != 0 {
            UpdateMousePosition(x, y);
            DragWindows(x, y, first);
          }
      }
    }
  }
}
