/** The event-tap callback as it runs: process-wide mutable state held by one
    object, updated step by step as each event is handled, with the synthetic
    events it posts appended to an output log. */
module Tap {
  import opened Events
  import opened Arbitration

  class Arbiter {
    var mode: Mode
    var active: bool
    var originX: real
    var originY: real
    var originT: nat
    /** Everything posted so far, in posting order. */
    var emitted: seq<Synth>

    /** The abstract state the fields stand for. */
    function State(): GestureState
      reads this
    {
      GestureState(mode, active, Point(originX, originY), originT)
    }

    /** The invariant of the callback, and the agreement between the selection
        mode and the synthetic left button left pressed by the log. */
    ghost predicate Valid()
      reads this
    {
      Inv(State()) && (mode == Selection <==> PrimaryOpen(emitted))
    }

    /** The globals' initial values: undecided, inactive, origin at zero. */
    constructor ()
      ensures State() == Initial && emitted == []
      ensures Valid()
    {
      mode, active := TBD, false;
      originX, originY, originT := 0.0, 0.0, 0;
      emitted := [];
    }

    /** Posting a synthetic event appends it to the log and changes nothing
        else. It is only the posting step of `Handle`, standing for the
        mouse-event, Cmd+C and clipboard helpers the callback calls; called on
        its own it can break the left-button half of `Valid`. */
    method Post(x: Synth)
      modifies this`emitted
      ensures emitted == old(emitted) + [x]
    {
      emitted := emitted + [x];
    }

    /** Handles one intercepted event: updates the state, posts synthetic
        events and returns the verdict, exactly as the transition function
        `Step` prescribes, and keeps `Valid`. */
    method Handle(e: Event) returns (decision: Decision)
      modifies this
      ensures State() == Step(old(State()), e).state
      ensures emitted == old(emitted) + Step(old(State()), e).out
      ensures decision == Step(old(State()), e).decision
      ensures old(Valid()) ==> Valid()
    {
      if Valid() {
        StepPreservesInv(State(), e);
        StepKeepsPrimaryConsistent(State(), e, emitted);
      }

      // skip events with modifiers held
      if e.flags != 0 {
        return Forward;
      }

      // a right-down begins a press; it is decided later
      if e.kind == RightMouseDown {
        active := true;
        originX, originY := e.loc.x, e.loc.y;
        originT := e.time;
        return Swallow;
      }

      // skip when no press is in progress
      if !active {
        return Forward;
      }

      match e.kind {
        case RightMouseDragged =>
          if mode == Selection {
            Post(LeftDraggedAt(e.loc));
          } else if mode == TBD && e.time - originT > DragTimeThreshold {
            if Abs(e.loc.x - originX) > DragDistThreshold {
              mode := Selection;
              Post(LeftDownAt(Point(originX, originY)));
              Post(LeftDraggedAt(e.loc));
            } else {
              mode := Hold;
              Post(RightDownAt(e.loc));
            }
          }
          return Swallow;
        case RightMouseUp =>
          active := false;
          match mode {
            case Selection =>
              Post(LeftUpAt(e.loc));
              Post(CopyChord);
              Post(TrimClipboard);
              mode := TBD;
              return Swallow;
            case Hold =>
              mode := TBD;
              return Forward;
            case TBD =>
              Post(RightDownAt(e.loc));
              return Forward;
          }
        case OtherMouseDown | LeftMouseDown | ScrollWheel =>
          match mode {
            case Selection =>
              Post(LeftUpAt(e.loc));
              mode := Hold;
              Post(RightDownAt(e.loc));
            case Hold =>
            case TBD =>
              mode := Hold;
              Post(RightDownAt(e.loc));
          }
          return Forward;
        case _ =>
          return Forward;
      }
    }
  }
}
