/** The gesture-arbitration state machine of the event-tap callback, as a pure
    transition function over the callback's global state. For every event it
    gives the next state, the verdict on the real event and the synthetic
    events posted, in posting order. */
module Arbitration {
  import opened Events

  /** Whether the current right-button press is a text selection, a plain
      right-button hold, or not decided yet. */
  datatype Mode = Selection | Hold | TBD

  /** The callback's global state: the mode, whether a right-button press is
      being processed, and the location and time of that press. */
  datatype GestureState = GestureState(mode: Mode, active: bool, origin: Point, originTime: nat)

  /** The state at process start. */
  const Initial: GestureState := GestureState(TBD, false, Point(0.0, 0.0), 0)

  /** Ticks that must pass after the press before a drag is classified. */
  const DragTimeThreshold: nat := 8_000_000

  /** Horizontal displacement beyond which a drag is a text selection. */
  const DragDistThreshold: real := 20.0

  /** What one call of the callback does. */
  datatype Outcome = Outcome(state: GestureState, decision: Decision, out: seq<Synth>)

  function Abs(d: real): real
  {
    if d < 0.0 then -d else d
  }

  /** More than the time threshold has passed since the press. Timestamps are
      subtracted as integers. */
  predicate LongEnough(s: GestureState, e: Event)
  {
    e.time - s.originTime > DragTimeThreshold
  }

  /** The pointer has moved further than the distance threshold from the press,
      measured along the x axis only. */
  predicate FarEnough(s: GestureState, e: Event)
  {
    Abs(e.loc.x - s.origin.x) > DragDistThreshold
  }

  predicate IsInterrupt(k: EventKind)
  {
    k == OtherMouseDown || k == LeftMouseDown || k == ScrollWheel
  }

  /** The callback's global invariant: a decided mode belongs to a press in
      progress. */
  ghost predicate Inv(s: GestureState)
  {
    s.mode != TBD ==> s.active
  }

  /** The reference transition function, in the order the callback tests its
      cases: the modifier guard, then right-down, then the guard on `active`,
      then a dispatch on the event type and the mode. */
  function Step(s: GestureState, e: Event): Outcome
  {
    if !Unmodified(e) then
      Outcome(s, Forward, [])
    else if e.kind == RightMouseDown then
      Outcome(s.(active := true, origin := e.loc, originTime := e.time), Swallow, [])
    else if !s.active then
      Outcome(s, Forward, [])
    else
      match e.kind
      case RightMouseDragged =>
        if s.mode == Selection then
          Outcome(s, Swallow, [LeftDraggedAt(e.loc)])
        else if s.mode == TBD && LongEnough(s, e) then
          if FarEnough(s, e) then
            Outcome(s.(mode := Selection), Swallow, [LeftDownAt(s.origin), LeftDraggedAt(e.loc)])
          else
            Outcome(s.(mode := Hold), Swallow, [RightDownAt(e.loc)])
        else
          Outcome(s, Swallow, [])
      case RightMouseUp =>
        (match s.mode
         case Selection =>
           Outcome(s.(active := false, mode := TBD), Swallow, [LeftUpAt(e.loc), CopyChord, TrimClipboard])
         case Hold =>
           Outcome(s.(active := false, mode := TBD), Forward, [])
         case TBD =>
           Outcome(s.(active := false), Forward, [RightDownAt(e.loc)]))
      case OtherMouseDown | LeftMouseDown | ScrollWheel =>
        (match s.mode
         case Selection =>
           Outcome(s.(mode := Hold), Forward, [LeftUpAt(e.loc), RightDownAt(e.loc)])
         case Hold =>
           Outcome(s, Forward, [])
         case TBD =>
           Outcome(s.(mode := Hold), Forward, [RightDownAt(e.loc)]))
      case _ =>
        Outcome(s, Forward, [])
  }

  // ---------------------------------------------------------------------------
  // One call of the callback, case by case.

  /** An event carrying any modifier flag is forwarded unchanged, nothing is
      posted and no part of the state changes. */
  lemma ModifiedEventPassesThrough(s: GestureState, e: Event)
    requires !Unmodified(e)
    ensures Step(s, e).state == s
    ensures Step(s, e).decision == Forward && Step(s, e).out == []
  {
  }

  /** An unmodified right-down starts a press: it records the location and the
      time, sets `active`, keeps the mode, posts nothing and is swallowed. */
  lemma RightDownArms(s: GestureState, e: Event)
    requires Unmodified(e) && e.kind == RightMouseDown
    ensures var r := Step(s, e);
      r.state.active && r.state.origin == e.loc && r.state.originTime == e.time &&
      r.state.mode == s.mode && r.decision == Swallow && r.out == []
  {
  }

  /** With no press in progress, everything but a right-down is forwarded with
      nothing posted and no state change. */
  lemma InactivePassesThrough(s: GestureState, e: Event)
    requires !s.active && e.kind != RightMouseDown
    ensures Step(s, e).state == s
    ensures Step(s, e).decision == Forward && Step(s, e).out == []
  {
  }

  /** A right-drag in the undecided mode is always swallowed. Before the time
      threshold it does nothing; after it, a drag further than the distance
      threshold starts a selection by posting a left-down at the press location
      and a left-drag at the pointer, and any other drag turns into a hold by
      posting a right-down at the pointer. */
  lemma UndecidedDrag(s: GestureState, e: Event)
    requires s.active && s.mode == TBD
    requires Unmodified(e) && e.kind == RightMouseDragged
    ensures var r := Step(s, e);
      r.decision == Swallow &&
      (!LongEnough(s, e) ==> r.state == s && r.out == []) &&
      (LongEnough(s, e) && FarEnough(s, e) ==>
         r.state == s.(mode := Selection) && r.out == [LeftDownAt(s.origin), LeftDraggedAt(e.loc)]) &&
      (LongEnough(s, e) && !FarEnough(s, e) ==>
         r.state == s.(mode := Hold) && r.out == [RightDownAt(e.loc)])
  {
  }

  /** Once the press is decided, a right-drag is swallowed and leaves the state
      alone; a selection follows it with one left-drag, a hold posts nothing. */
  lemma DecidedDrag(s: GestureState, e: Event)
    requires s.active && s.mode != TBD
    requires Unmodified(e) && e.kind == RightMouseDragged
    ensures var r := Step(s, e);
      r.state == s && r.decision == Swallow &&
      r.out == (if s.mode == Selection then [LeftDraggedAt(e.loc)] else [])
  {
  }

  /** An unmodified right-up ends the press: `active` is cleared and the mode
      is back to undecided, whatever the mode was. A selection is closed with a
      left-up, the copy chord and the clipboard clean-up, and the real release is
      swallowed; a hold just forwards the release; an undecided press becomes a
      plain click by posting a right-down at the release point before the real
      release is forwarded. */
  lemma RightUpDisarms(s: GestureState, e: Event)
    requires s.active && Unmodified(e) && e.kind == RightMouseUp
    ensures var r := Step(s, e);
      !r.state.active && r.state.mode == TBD &&
      r.state.origin == s.origin && r.state.originTime == s.originTime &&
      (s.mode == Selection ==> r.decision == Swallow && r.out == [LeftUpAt(e.loc), CopyChord, TrimClipboard]) &&
      (s.mode == Hold ==> r.decision == Forward && r.out == []) &&
      (s.mode == TBD ==> r.decision == Forward && r.out == [RightDownAt(e.loc)])
  {
  }

  /** Under the invariant, an unmodified right-up always leaves the state idle,
      whether or not a press was in progress. */
  lemma RightUpLeavesIdle(s: GestureState, e: Event)
    requires Inv(s) && Unmodified(e) && e.kind == RightMouseUp
    ensures !Step(s, e).state.active && Step(s, e).state.mode == TBD
  {
  }

  /** Another button press or a scroll during a press is forwarded and demotes
      the press to a hold. A selection is first closed by a left-up and then
      re-opened as a right-down, both at the event's location; an undecided
      press posts the right-down; a hold posts nothing. */
  lemma InterruptDemotesToHold(s: GestureState, e: Event)
    requires s.active && Unmodified(e) && IsInterrupt(e.kind)
    ensures var r := Step(s, e);
      r.state == s.(mode := Hold) && r.decision == Forward &&
      r.out == match s.mode
               case Selection => [LeftUpAt(e.loc), RightDownAt(e.loc)]
               case TBD => [RightDownAt(e.loc)]
               case Hold => []
  {
  }

  /** Event types outside the callback's cases are forwarded untouched. */
  lemma OtherKindPassesThrough(s: GestureState, e: Event)
    requires e.kind == OtherKind
    ensures Step(s, e) == Outcome(s, Forward, [])
  {
  }

  /** Only unmodified right-button events are ever swallowed. */
  lemma OnlyRightButtonSwallowed(s: GestureState, e: Event)
    requires Step(s, e).decision == Swallow
    ensures Unmodified(e)
    ensures e.kind == RightMouseDown || e.kind == RightMouseDragged || e.kind == RightMouseUp
  {
  }

  /** The recorded press location and time change only on an unmodified
      right-down, and then become the event's. */
  lemma OriginOnlyFromRightDown(s: GestureState, e: Event)
    ensures var r := Step(s, e);
      if Unmodified(e) && e.kind == RightMouseDown
      then r.state.origin == e.loc && r.state.originTime == e.time
      else r.state.origin == s.origin && r.state.originTime == s.originTime
  {
  }

  /** Every call keeps the invariant: the mode leaves TBD only while `active`
      holds, and `active` is cleared only together with a reset of the mode. */
  lemma StepPreservesInv(s: GestureState, e: Event)
    requires Inv(s)
    ensures Inv(Step(s, e).state)
  {
  }

  // ---------------------------------------------------------------------------
  // The synthetic left button seen by applications.

  /** Whether the synthetic left button is pressed after the posted events
      `log`: the last left-button event posted is a down or a drag. */
  function PrimaryOpen(log: seq<Synth>): bool
  {
    if log == [] then false
    else match log[|log| - 1]
      case LeftDownAt(_) => true
      case LeftDraggedAt(_) => true
      case LeftUpAt(_) => false
      case _ => PrimaryOpen(log[..|log| - 1])
  }

  /** Appending one posted event: a left-button event decides, any other leaves
      the left button as it was. */
  lemma PrimaryOpenSnoc(log: seq<Synth>, x: Synth)
    ensures PrimaryOpen(log + [x]) ==
      match x
      case LeftDownAt(_) => true
      case LeftDraggedAt(_) => true
      case LeftUpAt(_) => false
      case _ => PrimaryOpen(log)
  {
    assert (log + [x])[..|log|] == log;
  }

  /** The selection mode is exactly the state in which the callback has left a
      synthetic left-button press open: each call that enters the selection
      posts a left-down, and each call that leaves it posts a left-up, so no
      left press is left dangling. */
  lemma StepKeepsPrimaryConsistent(s: GestureState, e: Event, log: seq<Synth>)
    requires s.mode == Selection <==> PrimaryOpen(log)
    ensures Step(s, e).state.mode == Selection <==> PrimaryOpen(log + Step(s, e).out)
  {
    var out := Step(s, e).out;
    if |out| == 0 {
      assert log + out == log;
    } else {
      PrimaryOpenSnoc(log, out[0]);
      if |out| >= 2 {
        assert log + out[..2] == (log + [out[0]]) + [out[1]];
        PrimaryOpenSnoc(log + [out[0]], out[1]);
      }
      if |out| == 3 {
        assert log + out == (log + out[..2]) + [out[2]];
        PrimaryOpenSnoc(log + out[..2], out[2]);
      } else if |out| == 2 {
        assert out[..2] == out;
      } else {
        assert out == [out[0]];
      }
    }
  }
}
