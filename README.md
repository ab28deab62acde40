# Porthole compositor — a Dafny model

Porthole is Theseus's small window compositor. A `WindowManager` keeps a
registry of windows in paint order, an off-screen back buffer, the
displayed front buffer and an 11 × 18 cursor rectangle. Every frame it
clears the back buffer and blits every window into it, in registry order,
clipping to the screen. It then clears each window's own buffer, draws
the cursor image over everything except where the image has the colour
key `0xFF0000`, and copies the back buffer to the front.

Mouse input drives the cursor. The frame loop pops a movement event, sums
the displacements of the movement events queued behind it, and moves the
cursor. Each axis of the move is discarded, not clamped, when it would
leave the screen. With the left button held, it then drags every window
under the cursor. With only the right button held, it resizes those
windows, and their buffers are reallocated at the next fill.

The model has seven modules:

- `Geometry`: the `Rect` value and its strict-overlap collision test.
- `Pixels`: one specification of painting a rectangle into a row-major
  buffer, with these parts:
  - The paint is parameterised by a brush: a solid colour, a copy of a
    window's surface, or the cursor image with its colour key.
  - `PaintUpTo` gives the state partway through the row-by-row loop.
  - `BlitAll` composites a whole stack of windows.
- `Framebuffers`: the `FrameBuffer` class over an `array`, with loops
  proved against `Paint`.
- `Windows`: the `Window` class. It also holds the as-written and the
  corrected absolute write, and the glyph `get_bit` mask.
- `MouseEvents`: mouse events and the coalescing scan of the frame loop.
- `Motion`: cursor motion, window dragging and resizing as functions on
  rectangles.
- `Compositor`: the `WindowManager` class and the value of a composed
  frame.

Pixels are 32-bit colours, modelled as integers in `[0, 2^32)`. Screen
coordinates are unbounded integers.

Three behaviours of the code are easy to misread:

- `blank_rect` draws through `draw_something`, so it clips to the screen
  and never touches row 0 or column 0. `FrameBuffer.BlankRect` models it
  that way.
- The coalescing loop does not stop at a movement event whose scroll or
  button flags differ from the first event's. It pops that event and does
  not add its displacement (`CoalesceRest`, `DifferingEventsIgnored`).
- The first non-movement event in the queue is popped and ends the scan.
  That event is lost.

## Model

| member | source | states |
|---|---|---|
| Geometry.Rect.EndX | applications/porthole/src/lib.rs:86-88 | the end column is never before the start column, and it is after it exactly when the rectangle has width |
| Geometry.Rect.EndY | applications/porthole/src/lib.rs:94-96 | the end row is never before the start row, and it is after it exactly when the rectangle has height |
| Geometry.Rect.Collides | applications/porthole/src/lib.rs:98-108 | a positive overlap length on both axes implies a collision; for non-empty rectangles a collision implies a positive overlap on both axes |
| Geometry.CollidesSymmetric | applications/porthole/src/lib.rs:98-108 | the collision test gives the same answer with its two rectangles swapped |
| Geometry.CollidesIffSharedCell | applications/porthole/src/lib.rs:98-108 | for non-empty rectangles, a collision happens exactly when some cell lies in both |
| Geometry.EdgeTouchingDoesNotCollide | applications/porthole/src/lib.rs:98-108 | rectangles that only share an edge (one ends where the other starts) do not collide |
| Geometry.ZeroWidthCanCollide | applications/porthole/src/lib.rs:98-108 | a zero-width rectangle with no cells can still collide with another rectangle, so the test is not cell overlap for empty rectangles |
| Geometry.CollidesSelfIffNonEmpty | applications/porthole/src/lib.rs:98-108 | a rectangle collides with itself exactly when it has a cell |
| Pixels.PlotAt | applications/porthole/src/lib.rs:180-184 | a guarded write changes exactly cell (x, y), and only when 0 < x < width and 0 < y < height; every other cell keeps its value |
| Pixels.PaintStep | applications/porthole/src/lib.rs:190-198 | one iteration of the row-by-row paint loop is one guarded write of the brush's ink, or no write where the cursor image has the colour key |
| Pixels.PaintRowEnd | applications/porthole/src/lib.rs:190-198 | finishing a row is the same state as starting the next one |
| Pixels.PaintAt | applications/porthole/src/lib.rs:190-198 | after a paint, each cell holds the brush's ink when it is inside the screen, inside the rectangle and not transparent; otherwise it holds its old value |
| Pixels.BlitAt | applications/porthole/src/lib.rs:214-233 | after blitting a window, the screen cell at window position plus (i, j) holds the window's pixel (i, j), whenever that cell is inside the screen |
| Pixels.TopmostWins | applications/porthole/src/lib.rs:300-305 | after blitting windows in registry order, a cell shows the pixel of the last window that covers it |
| Pixels.UncoveredKept | applications/porthole/src/lib.rs:300-305 | a cell that no window covers keeps its value through all the blits |
| Pixels.RelativeWriteShowsOnScreen | applications/porthole/src/lib.rs:471-483 | a window write at screen coordinates, followed by a blit, shows the colour at that screen cell |
| Pixels.ExactSurfaceReadable | applications/porthole/src/lib.rs:214-221 | a window whose buffer has exactly its rectangle's size can be read at every (i, j) of the rectangle |
| Framebuffers.FrameBuffer.constructor | applications/porthole/src/lib.rs:135-139 | the new buffer holds width × height cells |
| Framebuffers.FrameBuffer.GetPixel | applications/porthole/src/lib.rs:186-188 | an unchecked read; at a column and row inside the buffer it returns the surface pixel (x, y) that the blit specification reads |
| Framebuffers.FrameBuffer.DrawSomething | applications/porthole/src/lib.rs:180-184 | the buffer becomes the guarded write of the colour at (x, y) |
| Framebuffers.FrameBuffer.Blank | applications/porthole/src/lib.rs:200-204 | every cell becomes black |
| Framebuffers.FrameBuffer.DrawRectangle | applications/porthole/src/lib.rs:190-198 | the buffer becomes the paint of the rectangle in colour 0xF123999, clipped to the screen |
| Framebuffers.FrameBuffer.BlankRect | applications/porthole/src/lib.rs:206-212 | the buffer becomes the paint of the rectangle in black, clipped to the screen |
| Framebuffers.FrameBuffer.CopyWindowOnly | applications/porthole/src/lib.rs:214-233 | the buffer becomes the paint of the window's rectangle with the window's own pixels, clipped to the screen |
| Windows.Window.constructor | applications/porthole/src/lib.rs:437-443 | a new window has the given rectangle, a fresh buffer of the rectangle's size and no pending resize |
| Windows.Window.Blank | applications/porthole/src/lib.rs:445-449 | every cell of the window's buffer becomes black |
| Windows.Window.DrawSomething | applications/porthole/src/lib.rs:479-483 | writes cell width × y + x of the window's buffer when x and y are non-negative; otherwise nothing changes |
| Windows.Window.DrawRelative | applications/porthole/src/lib.rs:471-476 | the local write at the screen coordinates minus the window's position |
| Windows.Window.DrawAbsolute | applications/porthole/src/lib.rs:465-469 | the corrected absolute write: only a cell inside the window's buffer is written (see Findings) |
| Windows.Window.DrawRectangle | applications/porthole/src/lib.rs:485-496 | a pending resize first reallocates the buffer to the rectangle's size and clears the flag; then every cell of the buffer holds the colour |
| Windows.Window.FillRows | applications/porthole/src/lib.rs:490-495 | the nested fill loops leave every one of the width × height cells holding the colour |
| Windows.Window.SetPosition | applications/porthole/src/lib.rs:497-500 | only the position changes; the size and the buffer stay |
| Windows.Window.ResizeFramebuffer | applications/porthole/src/lib.rs:502-504 | the window gets a fresh buffer with its rectangle's width and height |
| Windows.Window.Drag | applications/porthole/src/lib.rs:370-394 | the window's rectangle becomes the dragged rectangle: each axis moves fully or not at all |
| Windows.Window.Grow | applications/porthole/src/lib.rs:414-416 | the width grows by dx, the height shrinks by dy, the position stays and a resize is pending |
| Windows.AbsoluteWriteAsWritten | applications/porthole/src/lib.rs:465-469 | with the inclusive guard, the write runs past the buffer exactly when the guard passes, the coordinates are non-negative and the index is at least the buffer's length |
| Windows.AbsoluteAsWrittenOverruns | applications/porthole/src/lib.rs:465-469 | on an exactly sized window, the inclusive guard lets (width, height - 1) through, one cell past the end of the buffer |
| Windows.AbsoluteAsWrittenWraps | applications/porthole/src/lib.rs:465-469 | the inclusive guard lets (width, 0) through, and it writes cell (0, 1) |
| Windows.AbsoluteWriteAt | applications/porthole/src/lib.rs:465-469 | the strict guard writes exactly cell (x, y), and only when it lies inside the buffer's columns and rows |
| Windows.GetBit | applications/porthole/src/lib.rs:617-619 | the mask is 0 or the single bit 0x80 >> i, and it is non-zero exactly when bit 7 - i of the glyph row is set |
| MouseEvents.SignExtend | applications/porthole/src/lib.rs:652-653 | the byte is read as a signed 8-bit value: it lies in [-128, 128) and agrees with the byte modulo 256 |
| MouseEvents.CoalesceRest | applications/porthole/src/lib.rs:653-680 | the scan takes at least one event from a non-empty queue; everything it takes before the last event is a movement event; when it stops early, the last event it took is a non-movement event; the sums are bounded by 128 per event taken |
| MouseEvents.CoalesceSumsMatching | applications/porthole/src/lib.rs:653-680 | the summed displacement is the sum over the taken events whose scroll and button flags equal the first event's |
| MouseEvents.DifferingEventsIgnored | applications/porthole/src/lib.rs:657-674 | changing the displacement of an event whose flags differ from the first event's does not change the result |
| MouseEvents.Coalesce | applications/porthole/src/lib.rs:648-680 | the loop returns the first event's displacement plus the scan's sums, and the queue with exactly the scanned events removed |
| Motion.CursorStepDiscards | applications/porthole/src/lib.rs:328-353 | the cursor keeps its size; each axis takes its whole proposed value when that axis stays on screen, and keeps its old value otherwise |
| Motion.CursorStepKeepsOnScreen | applications/porthole/src/lib.rs:328-353 | a cursor whose reference point is on screen stays on screen after any motion |
| Motion.CursorStepExact | applications/porthole/src/lib.rs:328-353 | a move that keeps the cursor on screen is applied exactly, with the vertical axis inverted |
| Motion.DraggedKeepsGrabbable | applications/porthole/src/lib.rs:370-394 | dragging keeps a grabbable window grabbable and keeps its size, and each axis moves by the whole displacement or not at all |
| Motion.DragEffectUntouched | applications/porthole/src/lib.rs:355-420 | a window the cursor does not hit is untouched, and so is every window when neither button is held |
| Motion.DragEffectSeparates | applications/porthole/src/lib.rs:355-420 | a resize changes only the size, by (+dx, -dy); a left-button move changes only the position |
| Compositor.FrameShowsCursor | applications/porthole/src/lib.rs:310-326 | in a composed frame, a non-transparent cursor pixel inside the screen is what the cell shows |
| Compositor.FrameShowsTopmostWindow | applications/porthole/src/lib.rs:300-326 | away from drawn cursor pixels, a cell shows the pixel of the topmost window that covers it |
| Compositor.FrameBackgroundBlack | applications/porthole/src/lib.rs:300-326 | a cell covered by no window and no cursor pixel is black |
| Compositor.WindowManager.constructor | applications/porthole/src/lib.rs:270-283 | screen-sized back and front buffers, no windows, and the cursor at 11 × 18 at (200, 200) |
| Compositor.WindowManager.NewWindow | applications/porthole/src/lib.rs:285-298 | a fresh window with a fresh buffer, registered last in the registry |
| Compositor.WindowManager.DrawWindows | applications/porthole/src/lib.rs:300-308 | the back buffer becomes the blit of every window in registry order, and then every window's buffer is black |
| Compositor.WindowManager.BlitWindows | applications/porthole/src/lib.rs:301-304 | the first loop leaves the back buffer as the blit of every window in registry order |
| Compositor.WindowManager.BlankWindows | applications/porthole/src/lib.rs:305-307 | the second loop leaves every window's buffer black |
| Compositor.WindowManager.DrawMouse | applications/porthole/src/lib.rs:310-320 | the back buffer becomes the paint of the cursor image over the cursor rectangle, skipping colour-key pixels and clipped to the screen |
| Compositor.WindowManager.Update | applications/porthole/src/lib.rs:322-326 | the back buffer becomes the composed frame of the windows as they were and the cursor, and the window buffers are cleared |
| Compositor.WindowManager.Render | applications/porthole/src/lib.rs:422-427 | the front buffer becomes a copy of the back buffer |
| Compositor.WindowManager.UpdateMousePosition | applications/porthole/src/lib.rs:328-353 | the cursor becomes the per-axis-discarded move by (dx, -dy) |
| Compositor.WindowManager.DragWindows | applications/porthole/src/lib.rs:355-420 | each window's rectangle becomes its drag effect under the cursor; the resize flag is set exactly for the windows that are resized; no buffer changes |
| Compositor.WindowManager.MoveHitWindows | applications/porthole/src/lib.rs:356-396 | every window that collides with the cursor is dragged; the others and all resize flags are unchanged |
| Compositor.WindowManager.ResizeHitWindows | applications/porthole/src/lib.rs:397-419 | every window that collides with the cursor grows by (dx, -dy) and is marked resized; the others are unchanged |
| Compositor.WindowManager.HandleMouseInput | applications/porthole/src/lib.rs:643-687 | one input step pops one event; a movement event is coalesced with those behind it; a non-zero total moves the cursor and then drags or resizes the windows under the moved cursor; any other event is dropped; the rest of the queue is returned |

## Left out

- Mapping the hardware framebuffer and allocating the back and window buffers (lib.rs:117-178) are not modelled. A buffer is a fresh array of width × height cells whose initial contents are unspecified.
- The task entry point, the frame loop's scheduling, the HPET timer and the frame-rate logic (lib.rs:236-260, 622-642, 688-724) are not modelled. They are I/O and timing.
- The global `WINDOW_MANAGER` singleton, the mutexes and the `Weak` registry handles (lib.rs:32, 282, 285-298) are left out. The registry is a sequence of live windows, so the panic of `upgrade().unwrap()` on a dropped window is not modelled.
- Glyph rendering (`print_string`, `print_ascii_character`, lib.rs:506-616) and the font table are left out. They belong to another component. Only the `get_bit` mask is modelled.
- `Window::blank_with_color` (lib.rs:451-463), `TextDisplay` (lib.rs:53-62) and the `ouz_bar` application are not part of this model.
- The cursor image (`MOUSE_POINTER_IMAGE`, lib.rs:35-52) is a parameter of `DrawMouse` and `Update`: any 11 × 18 table of colours. Its pixel data is not transcribed.
- The mouse queue is a snapshot sequence. Events that arrive while the scan runs are not modelled.
- Compositor.WindowManager.HandleMouseInput: it models one pop of the frame loop, not the endless loop around it.
- Framebuffers.FrameBuffer.GetPixel: requires the index to be in range. The source converts a negative coordinate to `usize` and wraps, and that wrap is not modelled.
- Windows.Window.DrawSomething: requires the index to be in range when both coordinates are non-negative. The source panics past the end, and that panic is not modelled.
- Windows.Window.DrawRelative: the same precondition as `DrawSomething`, on the converted coordinates.
- Framebuffers.FrameBuffer.CopyWindowOnly: requires the window's buffer to hold every cell of its rectangle. After a pending resize that has grown the rectangle, the source would read past the end of the buffer and panic; the model does not capture that panic.
- Compositor.WindowManager.DragWindows: requires that a resize does not make the width or height negative. The resize (lib.rs:414-415) converts the signed displacement to `usize` and adds or subtracts it. The model computes `width + dx` and `height - dy` on unbounded integers. That is what a build without overflow checks stores whenever the true result is non-negative:
  - `width += x as usize` with x = -k overflows exactly when width >= k, and it wraps to width - k.
  - When width < k there is no overflow, and the source stores 2^64 + width - k. The requires excludes that case.
  - `height -= y as usize` with y < 0 always underflows, and it wraps to height - y.
  - With dy > height it also underflows, and it wraps to 2^64 + height - dy. The requires excludes that case.
  - In a build with overflow checks, every width shrink and every height increase panics instead. The model does not capture those panics.
- Windows.Window.Grow and Compositor.WindowManager.ResizeHitWindows: the same wrapping-arithmetic reading and the same requires as `DragWindows` above.
- Compositor.WindowManager.DrawWindows: the per-window `Mutex` locking and the write-through into a window's own buffer by other tasks are not modelled.
- Overflow of the signed `isize` coordinates and sums is not modelled. Coordinates are unbounded integers.

## Findings

| source | as written | input that shows it | evidently intended | confidence | as-written member | corrected member |
|---|---|---|---|---|---|---|
| applications/porthole/src/lib.rs:465-469 | `draw_absolute` guards with `x <= width && y <= height` on the window's rectangle, then writes index `width × y + x` | on an exactly sized window, (width, height - 1) indexes one cell past the end of the buffer, and (width, 0) writes cell (0, 1) of the next row | a strict `<` guard against the buffer's own width and height, so that only cells of the window are written | not executed | Windows.AbsoluteWriteAsWritten | Windows.Window.DrawAbsolute |
