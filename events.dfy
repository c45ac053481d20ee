/** The values that cross the event tap: the events the platform delivers to
    the callback, the synthetic events the callback posts, and the callback's
    verdict on the real event. */
module Events {

  /** A screen location. Coordinates are exact reals (the platform uses
      double-precision floats). */
  datatype Point = Point(x: real, y: real)

  /** The event types the callback distinguishes; `OtherKind` stands for every
      type it sends to its default branch. */
  datatype EventKind =
    | RightMouseDown
    | RightMouseDragged
    | RightMouseUp
    | OtherMouseDown
    | LeftMouseDown
    | ScrollWheel
    | OtherKind

  /** One intercepted event: its type, location, timestamp (an unsigned tick
      count) and the raw value of its modifier-flag set. */
  datatype Event = Event(kind: EventKind, loc: Point, time: nat, flags: bv64)

  /** An event whose modifier-flag set is empty. */
  predicate Unmodified(e: Event)
  {
    e.flags == 0
  }

  /** What the callback does besides deciding on the real event, in the order
      it does it: synthetic mouse events at a location (posted into the tap's
      own stream), the Cmd+C key chord (posted at the hardware-level tap
      instead) and the clipboard clean-up (a direct, synchronous pasteboard
      update, not an event at all). */
  datatype Synth =
    | LeftDownAt(p: Point)
    | LeftDraggedAt(p: Point)
    | LeftUpAt(p: Point)
    | RightDownAt(p: Point)
    | CopyChord
    | TrimClipboard

  /** The callback's verdict on the real event: drop it (return nil) or let it
      through unchanged. */
  datatype Decision = Swallow | Forward

  /** One item of what the callback causes, in the order it causes it: an
      action it performed, or a real event it forwarded. For synthetic mouse
      events and forwarded events this is the order applications receive them.
      The copy chord enters the stream at a different tap, and the clipboard
      clean-up takes effect at once, likely before any application has handled
      the copy; their position records only when the callback performed
      them. */
  datatype Seen = Injected(synth: Synth) | Delivered(event: Event)
}
