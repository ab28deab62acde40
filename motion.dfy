/** How pointer motion changes the cursor and, with a button held, the
    windows under it. Each axis of a proposed move is discarded, not
    clamped, when it would cross a screen edge. */
module Motion {
  import opened Geometry
  import opened MouseEvents

  /** The cursor's default rectangle: 11 × 18 at (200, 200). */
  const InitialCursor: Rect := Rect(11, 18, 200, 200)

  /** The margin a dragged window keeps on screen. */
  const DragMargin: int := 20

  /** `update_mouse_position(dx, dy)` on a `screenWidth × screenHeight`
      screen: the vertical axis is inverted. */
  function CursorStep(m: Rect, dx: int, dy: int, screenWidth: nat, screenHeight: nat): (r: Rect)
  {
    var nx0 := m.x + dx;
    var ny0 := m.y - dy;
    var nx1 := if nx0 + m.width / 2 < 0 then m.x else nx0;
    var nx := if nx1 + m.width / 2 > screenWidth then m.x else nx1;
    var ny1 := if ny0 < 0 then m.y else ny0;
    var ny := if ny1 + m.height / 2 > screenHeight then m.y else ny1;
    m.(x := nx, y := ny)
  }

  /** Per-axis discard: each coordinate either takes its whole proposed
      value or keeps the old one, and which one is decided by that axis
      alone; the size never changes. */
  lemma CursorStepDiscards(m: Rect, dx: int, dy: int, screenWidth: nat, screenHeight: nat)
    ensures var r := CursorStep(m, dx, dy, screenWidth, screenHeight);
            && r.width == m.width && r.height == m.height
            && (r.x == m.x + dx <== 0 <= m.x + dx + m.width / 2 <= screenWidth)
            && (r.x == m.x <== !(0 <= m.x + dx + m.width / 2 <= screenWidth))
            && (r.y == m.y - dy <== 0 <= m.y - dy && m.y - dy + m.height / 2 <= screenHeight)
            && (r.y == m.y <== !(0 <= m.y - dy && m.y - dy + m.height / 2 <= screenHeight))
  {
  }

  /** The cursor's reference point (its horizontal middle and its top) is
      on screen. */
  predicate CursorOnScreen(m: Rect, screenWidth: nat, screenHeight: nat)
  {
    0 <= m.x + m.width / 2 <= screenWidth && 0 <= m.y && m.y + m.height / 2 <= screenHeight
  }

  /** Motion keeps an on-screen cursor on screen. */
  lemma CursorStepKeepsOnScreen(m: Rect, dx: int, dy: int, screenWidth: nat, screenHeight: nat)
    requires CursorOnScreen(m, screenWidth, screenHeight)
    ensures CursorOnScreen(CursorStep(m, dx, dy, screenWidth, screenHeight), screenWidth, screenHeight)
  {
  }

  /** A move that keeps the cursor on screen is applied exactly. */
  lemma CursorStepExact(m: Rect, dx: int, dy: int, screenWidth: nat, screenHeight: nat)
    requires CursorOnScreen(m.(x := m.x + dx, y := m.y - dy), screenWidth, screenHeight)
    ensures CursorStep(m, dx, dy, screenWidth, screenHeight) == m.(x := m.x + dx, y := m.y - dy)
  {
  }

  /** The left-button move of one window hit by the cursor, with the
      fixed margin deciding which axes are discarded. */
  function Dragged(w: Rect, dx: int, dy: int, screenWidth: nat, screenHeight: nat): (r: Rect)
  {
    var nx0 := w.x + dx;
    var ny0 := w.y - dy;
    var nx1 := if nx0 + (w.width - DragMargin) < 0 then w.x else nx0;
    var nx := if nx1 + DragMargin > screenWidth then w.x else nx1;
    var ny1 := if ny0 <= 0 then w.y else ny0;
    var ny := if ny1 + DragMargin > screenHeight then w.y else ny1;
    w.(x := nx, y := ny)
  }

  /** A window can still be grabbed: at least the margin of it lies on
      screen horizontally, and its top is below row 0 with the margin
      above the bottom edge. */
  predicate Grabbable(w: Rect, screenWidth: nat, screenHeight: nat)
  {
    w.x + w.width - DragMargin >= 0 && w.x + DragMargin <= screenWidth
    && 0 < w.y && w.y + DragMargin <= screenHeight
  }

  /** Dragging never makes a grabbable window ungrabbable, keeps its size,
      and moves each axis by the whole displacement or not at all. */
  lemma DraggedKeepsGrabbable(w: Rect, dx: int, dy: int, screenWidth: nat, screenHeight: nat)
    requires Grabbable(w, screenWidth, screenHeight)
    ensures var r := Dragged(w, dx, dy, screenWidth, screenHeight);
            && Grabbable(r, screenWidth, screenHeight)
            && r.width == w.width && r.height == w.height
            && (r.x == w.x || r.x == w.x + dx)
            && (r.y == w.y || r.y == w.y - dy)
  {
  }

  /** The right-button resize is defined (no unsigned underflow) for `w`. */
  predicate ResizeDefined(w: Rect, cursor: Rect, ev: MouseEvent, dx: int, dy: int)
  {
    (!ev.leftButtonHold && ev.rightButtonHold && w.Collides(cursor))
    ==> w.width + dx >= 0 && w.height - dy >= 0
  }

  /** Whether the event resizes window `w`. */
  predicate ResizeHit(w: Rect, cursor: Rect, ev: MouseEvent)
  {
    !ev.leftButtonHold && ev.rightButtonHold && w.Collides(cursor)
  }

  /** `drag_windows` as seen by one window: the left button moves it, the
      right button (without the left) grows it by `dx` and shrinks it by
      `dy`, both only when its rectangle collides with the cursor's. */
  function DragEffect(w: Rect, cursor: Rect, ev: MouseEvent, dx: int, dy: int, screenWidth: nat, screenHeight: nat): (r: Rect)
    requires ResizeDefined(w, cursor, ev, dx, dy)
  {
    if ev.leftButtonHold then
      if w.Collides(cursor) then Dragged(w, dx, dy, screenWidth, screenHeight) else w
    else if ev.rightButtonHold then
      if w.Collides(cursor) then w.(width := w.width + dx, height := w.height - dy) else w
    else w
  }

  /** A window the cursor does not hit is untouched, and so is every
      window when neither button is held. */
  lemma DragEffectUntouched(w: Rect, cursor: Rect, ev: MouseEvent, dx: int, dy: int, screenWidth: nat, screenHeight: nat)
    requires !w.Collides(cursor) || (!ev.leftButtonHold && !ev.rightButtonHold)
    ensures DragEffect(w, cursor, ev, dx, dy, screenWidth, screenHeight) == w
  {
  }

  /** A resize changes only the size: the position stays. A move changes
      only the position: the size stays. */
  lemma DragEffectSeparates(w: Rect, cursor: Rect, ev: MouseEvent, dx: int, dy: int, screenWidth: nat, screenHeight: nat)
    requires ResizeDefined(w, cursor, ev, dx, dy)
    ensures var r := DragEffect(w, cursor, ev, dx, dy, screenWidth, screenHeight);
            && (ResizeHit(w, cursor, ev) ==> r.x == w.x && r.y == w.y
                                             && r.width == w.width + dx && r.height == w.height - dy)
            && (ev.leftButtonHold ==> r.width == w.width && r.height == w.height)
  {
  }
}
