/** Mouse events as the frame loop receives them, and the coalescing of a
    run of movement events into one displacement. */
module MouseEvents {

  /** A raw 8-bit displacement as the driver reports it. */
  type Byte = b: int | 0 <= b < 256

  /** One movement report: displacement, scroll flags and held buttons. */
  datatype MouseEvent = MouseEvent(
    displacementX: Byte, displacementY: Byte,
    scrollingUp: bool, scrollingDown: bool,
    leftButtonHold: bool, rightButtonHold: bool, fourthButtonHold: bool, fifthButtonHold: bool)

  /** The queue carries movement events and other kinds this core ignores. */
  datatype Event = MouseMovementEvent(mouse: MouseEvent) | OtherEvent

  /** `(b as i8) as isize`: two's-complement reading of the byte. */
  function SignExtend(b: Byte): (v: int)
    ensures -128 <= v < 128
    ensures v % 256 == b
  {
    if b < 128 then b else b - 256
  }

  /** Scroll flags and all four held-button flags agree. */
  predicate SameModifiers(a: MouseEvent, b: MouseEvent)
  {
    a.scrollingUp == b.scrollingUp && a.scrollingDown == b.scrollingDown
    && a.leftButtonHold == b.leftButtonHold && a.rightButtonHold == b.rightButtonHold
    && a.fourthButtonHold == b.fourthButtonHold && a.fifthButtonHold == b.fifthButtonHold
  }

  /** The summed displacement of a scan and how many events it took off the queue. */
  datatype Coalesced = Coalesced(dx: int, dy: int, consumed: nat)

  /** The scan that follows a movement event `first` over the rest of the
      queue: every movement event is taken, and added in when its modifiers
      equal `first`'s; the first other event is taken and ends the scan. */
  function CoalesceRest(first: MouseEvent, queue: seq<Event>): (r: Coalesced)
    ensures r.consumed <= |queue|
    ensures queue != [] ==> r.consumed >= 1
    ensures forall j :: 0 <= j < r.consumed - 1 ==> queue[j].MouseMovementEvent?
    ensures r.consumed < |queue| ==> queue[r.consumed - 1].OtherEvent?
    ensures -128 * r.consumed <= r.dx <= 127 * r.consumed
    ensures -128 * r.consumed <= r.dy <= 127 * r.consumed
    decreases |queue|
  {
    if queue == [] then Coalesced(0, 0, 0)
    else
      match queue[0]
      case OtherEvent => Coalesced(0, 0, 1)
      case MouseMovementEvent(m) =>
        var rest := CoalesceRest(first, queue[1..]);
        if SameModifiers(m, first) then
          Coalesced(SignExtend(m.displacementX) + rest.dx, SignExtend(m.displacementY) + rest.dy, rest.consumed + 1)
        else
          Coalesced(rest.dx, rest.dy, rest.consumed + 1)
  }

  /** Displacement of the movement events in `events` whose modifiers equal
      `first`'s; other events add nothing. */
  function MatchingX(first: MouseEvent, events: seq<Event>): (sum: int)
    decreases |events|
  {
    if events == [] then 0
    else
      (match events[0]
       case MouseMovementEvent(m) => if SameModifiers(m, first) then SignExtend(m.displacementX) else 0
       case OtherEvent => 0)
      + MatchingX(first, events[1..])
  }

  function MatchingY(first: MouseEvent, events: seq<Event>): (sum: int)
    decreases |events|
  {
    if events == [] then 0
    else
      (match events[0]
       case MouseMovementEvent(m) => if SameModifiers(m, first) then SignExtend(m.displacementY) else 0
       case OtherEvent => 0)
      + MatchingY(first, events[1..])
  }

  /** The scan's sum is the sum of the matching displacements among the
      events it consumed. */
  lemma {:induction false} CoalesceSumsMatching(first: MouseEvent, queue: seq<Event>)
    ensures var r := CoalesceRest(first, queue);
            r.dx == MatchingX(first, queue[..r.consumed]) && r.dy == MatchingY(first, queue[..r.consumed])
    decreases |queue|
  {
    if queue != [] {
      var r := CoalesceRest(first, queue);
      var prefix := queue[..r.consumed];
      assert prefix[0] == queue[0];
      match queue[0]
      case OtherEvent =>
        assert prefix[1..] == [];
      case MouseMovementEvent(m) =>
        CoalesceSumsMatching(first, queue[1..]);
        assert prefix[1..] == queue[1..][..r.consumed - 1];
    }
  }

  /** Events that differ from `first` in modifiers never change the sum:
      changing their displacement leaves the result as it was. */
  lemma {:induction false} DifferingEventsIgnored(first: MouseEvent, queue: seq<Event>, j: int, m': MouseEvent)
    requires 0 <= j < |queue| && queue[j].MouseMovementEvent? && !SameModifiers(queue[j].mouse, first)
    requires SameModifiers(m', queue[j].mouse)
    ensures CoalesceRest(first, queue[j := MouseMovementEvent(m')]) == CoalesceRest(first, queue)
    decreases |queue|
  {
    if j > 0 {
      var q' := queue[j := MouseMovementEvent(m')];
      assert q'[1..] == queue[1..][j - 1 := MouseMovementEvent(m')];
      DifferingEventsIgnored(first, queue[1..], j - 1, m');
    }
  }

  /** The loop of the frame driver after it popped the movement event
      `first`: it keeps popping, sums as `CoalesceRest` says, and hands back
      what is left of the queue. */
  method Coalesce(first: MouseEvent, queue: seq<Event>) returns (x: int, y: int, rest: seq<Event>)
    ensures var r := CoalesceRest(first, queue);
            x == SignExtend(first.displacementX) + r.dx
            && y == SignExtend(first.displacementY) + r.dy
            && rest == queue[r.consumed..]
  {
    x := SignExtend(first.displacementX);
    y := SignExtend(first.displacementY);
    rest := queue;
    while rest != []
      invariant |rest| <= |queue| && rest == queue[|queue| - |rest|..]
      invariant var whole, tail := CoalesceRest(first, queue), CoalesceRest(first, rest);
                whole.dx == x - SignExtend(first.displacementX) + tail.dx
                && whole.dy == y - SignExtend(first.displacementY) + tail.dy
                && whole.consumed == |queue| - |rest| + tail.consumed
      decreases |rest|
    {
      var next := rest[0];
      rest := rest[1..];
      match next {
        case MouseMovementEvent(m) =>
          if SameModifiers(m, first) {
            x := x + SignExtend(m.displacementX);
            y := y + SignExtend(m.displacementY);
          }
        case OtherEvent =>
          break;
      }
    }
  }
}
