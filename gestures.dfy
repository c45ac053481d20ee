/** Whole gestures: the callback run over a sequence of events, and what the
    applications behind the tap observe as a result. */
module Gestures {
  import opened Events
  import opened Arbitration

  /** The state after a run of events and the stream seen downstream. */
  datatype Trace = Trace(state: GestureState, downstream: seq<Seen>)

  function AsSeen(out: seq<Synth>): (r: seq<Seen>)
    ensures |r| == |out|
    ensures forall i :: 0 <= i < |out| ==> r[i] == Injected(out[i])
  {
    if out == [] then [] else [Injected(out[0])] + AsSeen(out[1..])
  }

  /** What one call contributes downstream: the actions it performed, in
      order, then the real event if it was forwarded. */
  function Downstream(e: Event, o: Outcome): seq<Seen>
  {
    AsSeen(o.out) + (if o.decision == Forward then [Delivered(e)] else [])
  }

  /** The callback's effect on one event: the next state and what it sends
      downstream. */
  function StepTrace(s: GestureState, e: Event): Trace
  {
    var o := Step(s, e);
    Trace(o.state, Downstream(e, o))
  }

  /** A step function applied to each event in turn, collecting what goes
      downstream. */
  function Fold(s: GestureState, es: seq<Event>, f: (GestureState, Event) -> Trace): Trace
    decreases |es|
  {
    if es == [] then Trace(s, [])
    else
      var t := f(s, es[0]);
      var rest := Fold(t.state, es[1..], f);
      Trace(rest.state, t.downstream + rest.downstream)
  }

  /** The callback applied to each event in turn. */
  function Run(s: GestureState, es: seq<Event>): Trace
  {
    Fold(s, es, StepTrace)
  }

  /** Folding over two sequences one after the other is folding over their
      concatenation. */
  lemma {:induction false} FoldAppend(s: GestureState, a: seq<Event>, b: seq<Event>,
                                      f: (GestureState, Event) -> Trace)
    ensures var ra := Fold(s, a, f);
      var rb := Fold(ra.state, b, f);
      Fold(s, a + b, f) == Trace(rb.state, ra.downstream + rb.downstream)
    decreases |a|
  {
    if a == [] {
      assert a + b == b;
    } else {
      assert (a + b)[0] == a[0];
      assert (a + b)[1..] == a[1..] + b;
      FoldAppend(f(s, a[0]).state, a[1..], b, f);
    }
  }

  /** Running two sequences one after the other is running their
      concatenation. */
  lemma RunAppend(s: GestureState, a: seq<Event>, b: seq<Event>)
    ensures var ra := Run(s, a);
      var rb := Run(ra.state, b);
      Run(s, a + b) == Trace(rb.state, ra.downstream + rb.downstream)
  {
    FoldAppend(s, a, b, StepTrace);
  }

  /** A run of the callback over any events keeps the invariant. */
  lemma {:induction false} RunPreservesInv(s: GestureState, es: seq<Event>)
    requires Inv(s)
    ensures Inv(Run(s, es).state)
    decreases |es|
  {
    if es != [] {
      StepPreservesInv(s, es[0]);
      RunPreservesInv(Step(s, es[0]).state, es[1..]);
    }
  }

  lemma RunOne(s: GestureState, e: Event)
    ensures Run(s, [e]) == Trace(Step(s, e).state, Downstream(e, Step(s, e)))
  {
    var t := StepTrace(s, e);
    assert [e][1..] == [];
    assert Fold(t.state, [], StepTrace) == Trace(t.state, []);
    assert t.downstream + [] == t.downstream;
  }

  predicate PlainDrag(e: Event)
  {
    Unmodified(e) && e.kind == RightMouseDragged
  }

  /** A drag sample that, taken after the time threshold, classifies the press
      at `o`, `t0` as a selection. */
  predicate Decisive(o: Point, t0: nat, e: Event)
  {
    e.time - t0 > DragTimeThreshold && Abs(e.loc.x - o.x) > DragDistThreshold
  }

  /** The index of the first drag past the time threshold after a press at
      time `t0`, or `|drags|` if there is none. */
  function FirstLate(t0: nat, drags: seq<Event>): (i: nat)
    ensures i <= |drags|
    ensures forall j :: 0 <= j < i ==> drags[j].time - t0 <= DragTimeThreshold
    ensures i < |drags| ==> drags[i].time - t0 > DragTimeThreshold
    decreases |drags|
  {
    if drags == [] then 0
    else if drags[0].time - t0 > DragTimeThreshold then 0
    else 1 + FirstLate(t0, drags[1..])
  }

  /** A press armed by the right-down `down`. */
  function Armed(s: GestureState, down: Event): GestureState
  {
    Step(s, down).state
  }

  // ---------------------------------------------------------------------------
  // A press that never qualifies as a selection.

  /** Drags of which none is both late and far enough keep the press in the
      undecided or held mode, swallow every real drag, and post at most one
      right-down: none once the press is held, and one, at the first drag past
      the time threshold, if it becomes held. */
  lemma NonDecisiveDrags(s: GestureState, drags: seq<Event>)
    requires s.active && s.mode != Selection
    requires forall i :: 0 <= i < |drags| ==>
      PlainDrag(drags[i]) && !Decisive(s.origin, s.originTime, drags[i])
    ensures var r := Run(s, drags);
      r.state.active && r.state.mode != Selection &&
      r.state.origin == s.origin && r.state.originTime == s.originTime &&
      (r.state.mode == s.mode ==> r.downstream == []) &&
      (s.mode == TBD ==> (r.state.mode == Hold <==> FirstLate(s.originTime, drags) < |drags|)) &&
      (r.state.mode != s.mode ==>
         s.mode == TBD && r.state.mode == Hold && FirstLate(s.originTime, drags) < |drags| &&
         r.downstream == [Injected(RightDownAt(drags[FirstLate(s.originTime, drags)].loc))])
  {
    if s.mode == Hold {
      HeldDrags(s, drags);
    } else {
      UndecidedDrags(s, drags);
    }
  }

  /** From an undecided press, drags of which none is both late and far enough
      do nothing until the first one past the time threshold; that one turns
      the press into a hold with a right-down at its location, and the rest do
      nothing. */
  lemma {:induction false} UndecidedDrags(s: GestureState, drags: seq<Event>)
    requires s.active && s.mode == TBD
    requires forall i :: 0 <= i < |drags| ==>
      PlainDrag(drags[i]) && !Decisive(s.origin, s.originTime, drags[i])
    ensures var k := FirstLate(s.originTime, drags);
      Run(s, drags) ==
        if k < |drags| then Trace(s.(mode := Hold), [Injected(RightDownAt(drags[k].loc))])
        else Trace(s, [])
    decreases |drags|
  {
    if drags != [] {
      var e := drags[0];
      assert PlainDrag(e) && !Decisive(s.origin, s.originTime, e);
      TailNonDecisive(s.origin, s.originTime, drags);
      assert [e] + drags[1..] == drags;
      RunAppend(s, [e], drags[1..]);
      if LongEnough(s, e) {
        HoldingDrag(s, e);
        HeldDrags(s.(mode := Hold), drags[1..]);
        assert [Injected(RightDownAt(e.loc))] + [] == [Injected(RightDownAt(e.loc))];
      } else {
        UndecidedDrag(s, e);
        RunOne(s, e);
        assert Downstream(e, Step(s, e)) == [];
        UndecidedDrags(s, drags[1..]);
        var k := FirstLate(s.originTime, drags[1..]);
        assert FirstLate(s.originTime, drags) == 1 + k;
        assert k < |drags[1..]| ==> drags[1 + k] == drags[1..][k];
      }
    }
  }

  lemma TailNonDecisive(o: Point, t0: nat, drags: seq<Event>)
    requires drags != []
    requires forall i :: 0 <= i < |drags| ==> PlainDrag(drags[i]) && !Decisive(o, t0, drags[i])
    ensures forall i :: 0 <= i < |drags[1..]| ==> PlainDrag(drags[1..][i]) && !Decisive(o, t0, drags[1..][i])
  {
    forall i | 0 <= i < |drags[1..]|
      ensures PlainDrag(drags[1..][i]) && !Decisive(o, t0, drags[1..][i])
    {
      assert drags[1..][i] == drags[i + 1];
    }
  }

  /** A right-button click or hold: a right-down, drags of which none is both
      late and far enough, and a right-up, all without modifiers. Downstream
      sees exactly one right-down, synthetic, followed by the real right-up,
      and no left-button event or copy chord; afterwards the state is idle.
      The right-down is at the first drag past the time threshold if there is
      one (the press became a hold), and at the release otherwise. */
  lemma ClickGesture(s: GestureState, down: Event, drags: seq<Event>, up: Event)
    requires s.mode == TBD
    requires Unmodified(down) && down.kind == RightMouseDown
    requires forall i :: 0 <= i < |drags| ==>
      PlainDrag(drags[i]) && !Decisive(down.loc, down.time, drags[i])
    requires Unmodified(up) && up.kind == RightMouseUp
    ensures var r := Run(s, [down] + drags + [up]);
      !r.state.active && r.state.mode == TBD &&
      var k := FirstLate(down.time, drags);
      r.downstream == [Injected(RightDownAt(if k < |drags| then drags[k].loc else up.loc)), Delivered(up)]
  {
    var s1 := Armed(s, down);
    RightDownArms(s, down);
    assert [down] + drags + [up] == [down] + (drags + [up]);
    ArmThen(s, down, drags + [up]);
    ClickFromArmed(s1, drags, up);
  }

  /** The drags and release of a click or hold, from the armed press. */
  lemma ClickFromArmed(s: GestureState, drags: seq<Event>, up: Event)
    requires s.active && s.mode == TBD
    requires forall i :: 0 <= i < |drags| ==>
      PlainDrag(drags[i]) && !Decisive(s.origin, s.originTime, drags[i])
    requires Unmodified(up) && up.kind == RightMouseUp
    ensures var r := Run(s, drags + [up]);
      var k := FirstLate(s.originTime, drags);
      !r.state.active && r.state.mode == TBD &&
      r.downstream == [Injected(RightDownAt(if k < |drags| then drags[k].loc else up.loc)), Delivered(up)]
  {
    NonDecisiveDrags(s, drags);
    var r2 := Run(s, drags);
    RunAppend(s, drags, [up]);
    ReleaseUndecided(r2.state, up);
    ClickJoin(s.originTime, drags, up, r2.state.mode, r2.downstream, Run(r2.state, [up]).downstream);
  }

  /** Joins the drags' part of a click or hold to its release's part. */
  lemma ClickJoin(t0: nat, drags: seq<Event>, up: Event, m: Mode, head: seq<Seen>, tail: seq<Seen>)
    requires m != Selection
    requires m == TBD ==> head == [] && FirstLate(t0, drags) == |drags|
    requires m == Hold ==>
      FirstLate(t0, drags) < |drags| && head == [Injected(RightDownAt(drags[FirstLate(t0, drags)].loc))]
    requires tail == (if m == TBD then [Injected(RightDownAt(up.loc))] else []) + [Delivered(up)]
    ensures var k := FirstLate(t0, drags);
      head + tail == [Injected(RightDownAt(if k < |drags| then drags[k].loc else up.loc)), Delivered(up)]
  {
    if m == TBD {
      assert head + tail == tail;
    }
  }

  /** The release of a press that is not a selection: a hold forwards it, an
      undecided press first posts a right-down at the release. */
  lemma ReleaseUndecided(s: GestureState, up: Event)
    requires s.active && s.mode != Selection
    requires Unmodified(up) && up.kind == RightMouseUp
    ensures Run(s, [up]) == Trace(s.(active := false, mode := TBD),
      (if s.mode == TBD then [Injected(RightDownAt(up.loc))] else []) + [Delivered(up)])
  {
    RunOne(s, up);
    RightUpDisarms(s, up);
    if s.mode == TBD {
      assert Downstream(up, Step(s, up)) == [Injected(RightDownAt(up.loc)), Delivered(up)];
    } else {
      assert Downstream(up, Step(s, up)) == [Delivered(up)];
    }
  }

  // ---------------------------------------------------------------------------
  // A press that becomes a selection.

  /** The left-drags a selection posts for the given right-drags. */
  function Echoes(drags: seq<Event>): (r: seq<Seen>)
    ensures |r| == |drags|
    ensures forall i :: 0 <= i < |drags| ==> r[i] == Injected(LeftDraggedAt(drags[i].loc))
  {
    if drags == [] then [] else [Injected(LeftDraggedAt(drags[0].loc))] + Echoes(drags[1..])
  }

  /** Drags before the time threshold change nothing and are swallowed. */
  lemma {:induction false} EarlyDrags(s: GestureState, drags: seq<Event>)
    requires s.active && s.mode == TBD
    requires forall i :: 0 <= i < |drags| ==>
      PlainDrag(drags[i]) && drags[i].time - s.originTime <= DragTimeThreshold
    ensures Run(s, drags) == Trace(s, [])
    decreases |drags|
  {
    if drags != [] {
      assert Step(s, drags[0]) == Outcome(s, Swallow, []);
      assert Downstream(drags[0], Step(s, drags[0])) == [];
      forall i | 0 <= i < |drags[1..]|
        ensures PlainDrag(drags[1..][i]) && drags[1..][i].time - s.originTime <= DragTimeThreshold
      {
        assert drags[1..][i] == drags[i + 1];
      }
      EarlyDrags(s, drags[1..]);
    }
  }

  /** During a selection every right-drag is swallowed and echoed as a
      left-drag at the same location. */
  lemma {:induction false} SelectingDrags(s: GestureState, drags: seq<Event>)
    requires s.active && s.mode == Selection
    requires forall i :: 0 <= i < |drags| ==> PlainDrag(drags[i])
    ensures Run(s, drags) == Trace(s, Echoes(drags))
    decreases |drags|
  {
    if drags != [] {
      var e := drags[0];
      assert Step(s, e) == Outcome(s, Swallow, [LeftDraggedAt(e.loc)]);
      assert Downstream(e, Step(s, e)) == [Injected(LeftDraggedAt(e.loc))];
      forall i | 0 <= i < |drags[1..]|
        ensures PlainDrag(drags[1..][i])
      {
        assert drags[1..][i] == drags[i + 1];
      }
      SelectingDrags(s, drags[1..]);
    }
  }

  /** The three events that close a selection at `p`. */
  function Closing(p: Point): seq<Seen>
  {
    [Injected(LeftUpAt(p)), Injected(CopyChord), Injected(TrimClipboard)]
  }

  /** A selection continued by drags and then released: the drags are echoed,
      the release closes the selection, and the state is idle. */
  lemma ReleaseSelection(s: GestureState, later: seq<Event>, up: Event)
    requires s.active && s.mode == Selection
    requires forall i :: 0 <= i < |later| ==> PlainDrag(later[i])
    requires Unmodified(up) && up.kind == RightMouseUp
    ensures Run(s, later + [up]) == Trace(s.(active := false, mode := TBD), Echoes(later) + Closing(up.loc))
  {
    SelectingDrags(s, later);
    var u := Step(s, up);
    assert u == Outcome(s.(active := false, mode := TBD), Swallow, [LeftUpAt(up.loc), CopyChord, TrimClipboard]);
    assert Downstream(up, u) == Closing(up.loc);
    RunOne(s, up);
    RunAppend(s, later, [up]);
  }

  /** The drag that decides a selection posts a left-down at the press location
      and a left-drag at the pointer, and is swallowed. */
  lemma DecidingDrag(s: GestureState, decider: Event)
    requires s.active && s.mode == TBD
    requires PlainDrag(decider) && Decisive(s.origin, s.originTime, decider)
    ensures Run(s, [decider]) ==
      Trace(s.(mode := Selection), [Injected(LeftDownAt(s.origin)), Injected(LeftDraggedAt(decider.loc))])
  {
    UndecidedDrag(s, decider);
    RunOne(s, decider);
    assert Downstream(decider, Step(s, decider)) ==
      [Injected(LeftDownAt(s.origin)), Injected(LeftDraggedAt(decider.loc))];
  }

  /** The deciding drag of a selection, then the rest of it. */
  lemma DecideSelection(s: GestureState, decider: Event, later: seq<Event>, up: Event)
    requires s.active && s.mode == TBD
    requires PlainDrag(decider) && Decisive(s.origin, s.originTime, decider)
    requires forall i :: 0 <= i < |later| ==> PlainDrag(later[i])
    requires Unmodified(up) && up.kind == RightMouseUp
    ensures Run(s, [decider] + (later + [up])) ==
      Trace(s.(active := false),
            [Injected(LeftDownAt(s.origin))] + Echoes([decider] + later) + Closing(up.loc))
  {
    var tail := later + [up];
    var head := [Injected(LeftDownAt(s.origin)), Injected(LeftDraggedAt(decider.loc))];
    DecidingDrag(s, decider);
    ReleaseSelection(s.(mode := Selection), later, up);
    RunAppend(s, [decider], tail);
    assert ([decider] + later)[1..] == later;
    assert Echoes([decider] + later) == [head[1]] + Echoes(later);
    Regroup(head, Echoes(later), Closing(up.loc));
  }

  lemma Regroup(head: seq<Seen>, mid: seq<Seen>, last: seq<Seen>)
    requires |head| == 2
    ensures head + (mid + last) == [head[0]] + ([head[1]] + mid) + last
  {
    assert head == [head[0]] + [head[1]];
  }

  /** A text selection: a right-down, drags before the time threshold, one drag
      after it and far enough, any further drags, and a right-up, all without
      modifiers. Downstream sees a left-down at the press location, one
      left-drag per drag from the deciding one on, a left-up at the release
      point, the copy chord and the clipboard clean-up, and nothing else: no
      real event and no right-button event. Afterwards the state is idle. */
  lemma SelectionGesture(s: GestureState, down: Event, early: seq<Event>, decider: Event,
                         later: seq<Event>, up: Event)
    requires s.mode == TBD
    requires Unmodified(down) && down.kind == RightMouseDown
    requires forall i :: 0 <= i < |early| ==>
      PlainDrag(early[i]) && early[i].time - down.time <= DragTimeThreshold
    requires PlainDrag(decider) && Decisive(down.loc, down.time, decider)
    requires forall i :: 0 <= i < |later| ==> PlainDrag(later[i])
    requires Unmodified(up) && up.kind == RightMouseUp
    ensures var r := Run(s, [down] + early + [decider] + later + [up]);
      !r.state.active && r.state.mode == TBD &&
      r.downstream == [Injected(LeftDownAt(down.loc))] + Echoes([decider] + later) + Closing(up.loc)
  {
    var s1 := Armed(s, down);
    RightDownArms(s, down);
    var tail := [decider] + (later + [up]);
    Regroup5([down], early, [decider], later, [up]);
    ArmThen(s, down, early + tail);
    EarlyThen(s1, early, tail);
    DecideSelection(s1, decider, later, up);
  }

  lemma Regroup5(a: seq<Event>, b: seq<Event>, c: seq<Event>, d: seq<Event>, e: seq<Event>)
    ensures a + b + c + d + e == a + (b + (c + (d + e)))
  {
  }

  /** An unmodified right-down produces nothing downstream, so a run that
      starts with one is a run from the armed state. */
  lemma ArmThen(s: GestureState, down: Event, rest: seq<Event>)
    requires Unmodified(down) && down.kind == RightMouseDown
    ensures Run(s, [down] + rest) == Run(Armed(s, down), rest)
  {
    RunOne(s, down);
    RunAppend(s, [down], rest);
    assert [] + Run(Armed(s, down), rest).downstream == Run(Armed(s, down), rest).downstream;
  }

  /** Early drags can be dropped from the front of a run. */
  lemma EarlyThen(s: GestureState, early: seq<Event>, rest: seq<Event>)
    requires s.active && s.mode == TBD
    requires forall i :: 0 <= i < |early| ==>
      PlainDrag(early[i]) && early[i].time - s.originTime <= DragTimeThreshold
    ensures Run(s, early + rest) == Run(s, rest)
  {
    EarlyDrags(s, early);
    RunAppend(s, early, rest);
    assert [] + Run(s, rest).downstream == Run(s, rest).downstream;
  }

  // ---------------------------------------------------------------------------
  // A press that becomes a hold. The first drag past the time threshold
  // decides: if it is not far enough the press is a hold for good, and no
  // later drag, however far, turns it into a selection.

  /** A drag past the time threshold that is not far enough from the press. */
  predicate Holding(o: Point, t0: nat, e: Event)
  {
    e.time - t0 > DragTimeThreshold && Abs(e.loc.x - o.x) <= DragDistThreshold
  }

  /** The drag that decides a hold posts a right-down at the pointer and is
      swallowed. */
  lemma HoldingDrag(s: GestureState, holder: Event)
    requires s.active && s.mode == TBD
    requires PlainDrag(holder) && Holding(s.origin, s.originTime, holder)
    ensures Run(s, [holder]) == Trace(s.(mode := Hold), [Injected(RightDownAt(holder.loc))])
  {
    UndecidedDrag(s, holder);
    RunOne(s, holder);
    assert Downstream(holder, Step(s, holder)) == [Injected(RightDownAt(holder.loc))];
  }

  /** During a hold every right-drag is swallowed and nothing is posted, far or
      not. */
  lemma {:induction false} HeldDrags(s: GestureState, drags: seq<Event>)
    requires s.active && s.mode == Hold
    requires forall i :: 0 <= i < |drags| ==> PlainDrag(drags[i])
    ensures Run(s, drags) == Trace(s, [])
    decreases |drags|
  {
    if drags != [] {
      DecidedDrag(s, drags[0]);
      assert Downstream(drags[0], Step(s, drags[0])) == [];
      forall i | 0 <= i < |drags[1..]|
        ensures PlainDrag(drags[1..][i])
      {
        assert drags[1..][i] == drags[i + 1];
      }
      HeldDrags(s, drags[1..]);
    }
  }

  /** A hold continued by drags and then released: only the real release
      reaches downstream, and the state is idle. */
  lemma ReleaseHold(s: GestureState, later: seq<Event>, up: Event)
    requires s.active && s.mode == Hold
    requires forall i :: 0 <= i < |later| ==> PlainDrag(later[i])
    requires Unmodified(up) && up.kind == RightMouseUp
    ensures Run(s, later + [up]) == Trace(s.(active := false, mode := TBD), [Delivered(up)])
  {
    HeldDrags(s, later);
    RightUpDisarms(s, up);
    assert Downstream(up, Step(s, up)) == [Delivered(up)];
    RunOne(s, up);
    RunAppend(s, later, [up]);
  }

  /** The deciding drag of a hold, then the rest of it. */
  lemma DecideHold(s: GestureState, holder: Event, later: seq<Event>, up: Event)
    requires s.active && s.mode == TBD
    requires PlainDrag(holder) && Holding(s.origin, s.originTime, holder)
    requires forall i :: 0 <= i < |later| ==> PlainDrag(later[i])
    requires Unmodified(up) && up.kind == RightMouseUp
    ensures Run(s, [holder] + (later + [up])) ==
      Trace(s.(active := false), [Injected(RightDownAt(holder.loc)), Delivered(up)])
  {
    HoldingDrag(s, holder);
    ReleaseHold(s.(mode := Hold), later, up);
    RunAppend(s, [holder], later + [up]);
  }

  /** A right-button hold: a right-down, drags before the time threshold, a
      first drag past it that is not far enough, any further drags (also far
      ones), and a right-up, all without modifiers. Downstream sees one
      synthetic right-down at the deciding drag's location and then the real
      release, and nothing else; afterwards the state is idle, with the press
      still recorded. */
  lemma HoldGesture(s: GestureState, down: Event, early: seq<Event>, holder: Event,
                    later: seq<Event>, up: Event)
    requires s.mode == TBD
    requires Unmodified(down) && down.kind == RightMouseDown
    requires forall i :: 0 <= i < |early| ==>
      PlainDrag(early[i]) && early[i].time - down.time <= DragTimeThreshold
    requires PlainDrag(holder) && Holding(down.loc, down.time, holder)
    requires forall i :: 0 <= i < |later| ==> PlainDrag(later[i])
    requires Unmodified(up) && up.kind == RightMouseUp
    ensures var r := Run(s, [down] + early + [holder] + later + [up]);
      r.state == GestureState(TBD, false, down.loc, down.time) &&
      r.downstream == [Injected(RightDownAt(holder.loc)), Delivered(up)]
  {
    var s1 := Armed(s, down);
    RightDownArms(s, down);
    var tail := [holder] + (later + [up]);
    Regroup5([down], early, [holder], later, [up]);
    ArmThen(s, down, early + tail);
    EarlyThen(s1, early, tail);
    DecideHold(s1, holder, later, up);
  }

  // ---------------------------------------------------------------------------
  // The right button seen by applications.

  /** The right button's state after one more item downstream: a press,
      synthetic or forwarded, opens it, a forwarded release closes it, anything
      else leaves it. */
  function RightAfter(open: bool, x: Seen): bool
  {
    match x
    case Injected(RightDownAt(_)) => true
    case Injected(_) => open
    case Delivered(e) =>
      if e.kind == RightMouseDown then true
      else if e.kind == RightMouseUp then false
      else open
  }

  /** Whether applications see the right button pressed after `d`. */
  function RightOpen(d: seq<Seen>): bool
  {
    if d == [] then false else RightAfter(RightOpen(d[..|d| - 1]), d[|d| - 1])
  }

  /** The right button's state after a run of items, from `open`. */
  function RightAfterAll(open: bool, t: seq<Seen>): bool
    decreases |t|
  {
    if t == [] then open else RightAfterAll(RightAfter(open, t[0]), t[1..])
  }

  lemma {:induction false} RightOpenAppend(d: seq<Seen>, t: seq<Seen>)
    ensures RightOpen(d + t) == RightAfterAll(RightOpen(d), t)
    decreases |t|
  {
    if t == [] {
      assert d + t == d;
    } else {
      assert (d + [t[0]])[..|d|] == d;
      assert d + t == (d + [t[0]]) + t[1..];
      RightOpenAppend(d + [t[0]], t[1..]);
    }
  }

  lemma RightAfterOne(open: bool, x: Seen)
    ensures RightAfterAll(open, [x]) == RightAfter(open, x)
  {
    assert [x][1..] == [];
  }

  lemma RightAfterPair(open: bool, a: Seen, b: Seen)
    ensures RightAfterAll(open, [a, b]) == RightAfter(RightAfter(open, a), b)
  {
    assert [a, b][1..] == [b];
    RightAfterOne(RightAfter(open, a), b);
  }

  lemma RightAfterTriple(open: bool, a: Seen, b: Seen, c: Seen)
    ensures RightAfterAll(open, [a, b, c]) == RightAfter(RightAfter(RightAfter(open, a), b), c)
  {
    assert [a, b, c][1..] == [b, c];
    RightAfterPair(RightAfter(open, a), b, c);
  }

  /** One unmodified event keeps the hold mode in step with the right button
      that applications see: hold is entered by posting a right-down, and left
      only by a right-up that reaches them or by a selection, which never
      opened the right button. */
  lemma StepKeepsSecondaryMode(s: GestureState, e: Event, open: bool)
    requires Inv(s) && Unmodified(e)
    requires s.mode == Hold <==> open
    ensures Step(s, e).state.mode == Hold <==> RightAfterAll(open, Downstream(e, Step(s, e)))
  {
    var o := Step(s, e);
    var t := Downstream(e, o);
    if e.kind == RightMouseDown {
      assert t == [];
    } else if !s.active {
      assert t == [Delivered(e)];
    } else if e.kind == RightMouseDragged {
      SecondaryOnDrag(s, e, open);
    } else if e.kind == RightMouseUp {
      SecondaryOnUp(s, e, open);
    } else if IsInterrupt(e.kind) {
      SecondaryOnInterrupt(s, e, open);
    } else {
      assert t == [Delivered(e)];
    }
  }

  lemma SecondaryOnDrag(s: GestureState, e: Event, open: bool)
    requires s.active && Unmodified(e) && e.kind == RightMouseDragged
    requires s.mode == Hold <==> open
    ensures Step(s, e).state.mode == Hold <==> RightAfterAll(open, Downstream(e, Step(s, e)))
  {
    var t := Downstream(e, Step(s, e));
    if s.mode == Selection {
      assert t == [Injected(LeftDraggedAt(e.loc))];
    } else if s.mode == TBD && LongEnough(s, e) && FarEnough(s, e) {
      assert t == [Injected(LeftDownAt(s.origin)), Injected(LeftDraggedAt(e.loc))];
      RightAfterPair(open, Injected(LeftDownAt(s.origin)), Injected(LeftDraggedAt(e.loc)));
    } else if s.mode == TBD && LongEnough(s, e) {
      assert t == [Injected(RightDownAt(e.loc))];
    } else {
      assert t == [];
    }
  }

  lemma SecondaryOnUp(s: GestureState, e: Event, open: bool)
    requires s.active && Unmodified(e) && e.kind == RightMouseUp
    requires s.mode == Hold <==> open
    ensures Step(s, e).state.mode == Hold <==> RightAfterAll(open, Downstream(e, Step(s, e)))
  {
    var t := Downstream(e, Step(s, e));
    match s.mode
    case Selection =>
      assert t == [Injected(LeftUpAt(e.loc)), Injected(CopyChord), Injected(TrimClipboard)];
      RightAfterTriple(open, Injected(LeftUpAt(e.loc)), Injected(CopyChord), Injected(TrimClipboard));
    case Hold =>
      assert t == [Delivered(e)];
    case TBD =>
      assert t == [Injected(RightDownAt(e.loc)), Delivered(e)];
      RightAfterPair(open, Injected(RightDownAt(e.loc)), Delivered(e));
  }

  lemma SecondaryOnInterrupt(s: GestureState, e: Event, open: bool)
    requires s.active && Unmodified(e) && IsInterrupt(e.kind)
    requires s.mode == Hold <==> open
    ensures Step(s, e).state.mode == Hold <==> RightAfterAll(open, Downstream(e, Step(s, e)))
  {
    var t := Downstream(e, Step(s, e));
    match s.mode
    case Selection =>
      assert t == [Injected(LeftUpAt(e.loc)), Injected(RightDownAt(e.loc)), Delivered(e)];
      RightAfterTriple(open, Injected(LeftUpAt(e.loc)), Injected(RightDownAt(e.loc)), Delivered(e));
    case Hold =>
      assert t == [Delivered(e)];
    case TBD =>
      assert t == [Injected(RightDownAt(e.loc)), Delivered(e)];
      RightAfterPair(open, Injected(RightDownAt(e.loc)), Delivered(e));
  }

  /** A step function keeps the invariant, and keeps the hold mode in step
      with the right button downstream, on every unmodified event. */
  ghost predicate KeepsSecondary(f: (GestureState, Event) -> Trace)
  {
    forall s: GestureState, e: Event, d: seq<Seen>
      | Inv(s) && Unmodified(e) && (s.mode == Hold <==> RightOpen(d)) ::
      Inv(f(s, e).state) && (f(s, e).state.mode == Hold <==> RightOpen(d + f(s, e).downstream))
  }

  lemma {:induction false} FoldKeepsSecondary(s: GestureState, es: seq<Event>, d: seq<Seen>,
                                               f: (GestureState, Event) -> Trace)
    requires KeepsSecondary(f) && Inv(s)
    requires forall i :: 0 <= i < |es| ==> Unmodified(es[i])
    requires s.mode == Hold <==> RightOpen(d)
    ensures Fold(s, es, f).state.mode == Hold <==> RightOpen(d + Fold(s, es, f).downstream)
    decreases |es|
  {
    if es == [] {
      assert d + [] == d;
    } else {
      var t := f(s, es[0]);
      var rest := Fold(t.state, es[1..], f);
      assert Inv(t.state) && (t.state.mode == Hold <==> RightOpen(d + t.downstream));
      TailUnmodified(es);
      FoldKeepsSecondary(t.state, es[1..], d + t.downstream, f);
      SeenAssoc(d, t.downstream, rest.downstream);
    }
  }

  /** Over a run of unmodified events, the state is a hold exactly when the
      right button that applications see is pressed. */
  lemma RunKeepsSecondaryConsistent(s: GestureState, es: seq<Event>, d: seq<Seen>)
    requires Inv(s)
    requires forall i :: 0 <= i < |es| ==> Unmodified(es[i])
    requires s.mode == Hold <==> RightOpen(d)
    ensures Run(s, es).state.mode == Hold <==> RightOpen(d + Run(s, es).downstream)
  {
    forall s': GestureState, e: Event, d': seq<Seen>
      | Inv(s') && Unmodified(e) && (s'.mode == Hold <==> RightOpen(d'))
      ensures Inv(StepTrace(s', e).state)
      ensures StepTrace(s', e).state.mode == Hold <==> RightOpen(d' + StepTrace(s', e).downstream)
    {
      TraceKeepsSecondary(s', e, d');
    }
    FoldKeepsSecondary(s, es, d, StepTrace);
  }

  lemma SeenAssoc(a: seq<Seen>, b: seq<Seen>, c: seq<Seen>)
    ensures a + (b + c) == (a + b) + c
  {
  }

  lemma TailUnmodified(es: seq<Event>)
    requires es != [] && forall i :: 0 <= i < |es| ==> Unmodified(es[i])
    ensures forall i :: 0 <= i < |es[1..]| ==> Unmodified(es[1..][i])
  {
    forall i | 0 <= i < |es[1..]|
      ensures Unmodified(es[1..][i])
    {
      assert es[1..][i] == es[i + 1];
    }
  }

  lemma TraceKeepsSecondary(s: GestureState, e: Event, d: seq<Seen>)
    requires Inv(s) && Unmodified(e)
    requires s.mode == Hold <==> RightOpen(d)
    ensures Inv(StepTrace(s, e).state)
    ensures StepTrace(s, e).state.mode == Hold <==> RightOpen(d + StepTrace(s, e).downstream)
  {
    StepPreservesInv(s, e);
    StepKeepsSecondaryMode(s, e, RightOpen(d));
    RightOpenAppend(d, Downstream(e, Step(s, e)));
  }

  /** Any complete press, however it went, ends idle: after an unmodified
      right-up the state is inactive and undecided. */
  lemma CycleEndsIdle(s: GestureState, es: seq<Event>, up: Event)
    requires Inv(s)
    requires Unmodified(up) && up.kind == RightMouseUp
    ensures !Run(s, es + [up]).state.active && Run(s, es + [up]).state.mode == TBD
  {
    RunAppend(s, es, [up]);
    RunPreservesInv(s, es);
    RunOne(Run(s, es).state, up);
    RightUpLeavesIdle(Run(s, es).state, up);
  }

  // ---------------------------------------------------------------------------
  // Worked examples.

  function At(k: EventKind, x: real, y: real, t: nat): Event
  {
    Event(k, Point(x, y), t, 0)
  }

  /** Press at (100,100), drag to (130,100) after 9,000,000 ticks: 30 pixels is
      a selection, so a left-down at the press and a left-drag at the pointer
      are posted and nothing right-button reaches downstream. */
  lemma SelectionExample()
    ensures var r := Run(Initial, [At(RightMouseDown, 100.0, 100.0, 0), At(RightMouseDragged, 130.0, 100.0, 9_000_000)]);
      r.state.mode == Selection &&
      r.downstream == [Injected(LeftDownAt(Point(100.0, 100.0))), Injected(LeftDraggedAt(Point(130.0, 100.0)))]
  {
    var d := At(RightMouseDown, 100.0, 100.0, 0);
    var m := At(RightMouseDragged, 130.0, 100.0, 9_000_000);
    RunAppend(Initial, [d], [m]);
    assert [d] + [m] == [d, m];
    RunOne(Initial, d);
    RunOne(Step(Initial, d).state, m);
  }

  /** Press at (100,100), drag to (105,100) after 9,000,000 ticks: 5 pixels is a
      hold, so a right-down is posted at the pointer; the release that follows
      is forwarded unchanged. */
  lemma HoldExample()
    ensures var d := At(RightMouseDown, 100.0, 100.0, 0);
      var m := At(RightMouseDragged, 105.0, 100.0, 9_000_000);
      var u := At(RightMouseUp, 105.0, 100.0, 9_500_000);
      Run(Initial, [d, m]).state.mode == Hold &&
      Run(Initial, [d, m, u]).downstream == [Injected(RightDownAt(Point(105.0, 100.0))), Delivered(u)] &&
      Run(Initial, [d, m, u]).state == Initial.(origin := Point(100.0, 100.0))
  {
    var d := At(RightMouseDown, 100.0, 100.0, 0);
    var m := At(RightMouseDragged, 105.0, 100.0, 9_000_000);
    var u := At(RightMouseUp, 105.0, 100.0, 9_500_000);
    var s1 := Armed(Initial, d);
    assert s1 == GestureState(TBD, true, Point(100.0, 100.0), 0);
    HoldingDrag(s1, m);
    ArmThen(Initial, d, [m]);
    assert [d] + [m] == [d, m];
    HoldGesture(Initial, d, [], m, [], u);
    assert [d] + [] + [m] + [] + [u] == [d, m, u];
  }

  /** A scroll during a selection: the selection is closed by a left-up and
      replaced by a right-down before the scroll itself is forwarded, and the
      press is now a hold. */
  lemma ScrollDuringSelectionExample()
    ensures var d := At(RightMouseDown, 100.0, 100.0, 0);
      var m := At(RightMouseDragged, 130.0, 100.0, 9_000_000);
      var w := At(ScrollWheel, 130.0, 100.0, 9_100_000);
      var r := Run(Initial, [d, m, w]);
      r.state.mode == Hold && r.state.active &&
      r.downstream == [Injected(LeftDownAt(Point(100.0, 100.0))), Injected(LeftDraggedAt(Point(130.0, 100.0))),
                       Injected(LeftUpAt(Point(130.0, 100.0))), Injected(RightDownAt(Point(130.0, 100.0))),
                       Delivered(w)]
  {
    var d := At(RightMouseDown, 100.0, 100.0, 0);
    var m := At(RightMouseDragged, 130.0, 100.0, 9_000_000);
    var w := At(ScrollWheel, 130.0, 100.0, 9_100_000);
    SelectionExample();
    var s2 := Run(Initial, [d, m]).state;
    RunOne(s2, w);
    RunAppend(Initial, [d, m], [w]);
    assert [d, m] + [w] == [d, m, w];
  }

  /** A right-down does not reset the mode. If a selection's release carries a
      modifier, it is forwarded and the selection stays open; the next press
      then continues that selection, and its first drag is echoed as a left-drag
      at once, before any time has passed. */
  lemma ModifiedReleaseKeepsSelection()
    ensures var d := At(RightMouseDown, 100.0, 100.0, 0);
      var m := At(RightMouseDragged, 130.0, 100.0, 9_000_000);
      var u := Event(RightMouseUp, Point(130.0, 100.0), 9_100_000, 0x10_0000);
      var d2 := At(RightMouseDown, 300.0, 300.0, 20_000_000);
      var m2 := At(RightMouseDragged, 301.0, 300.0, 20_000_001);
      var s := Run(Initial, [d, m, u, d2]).state;
      s.mode == Selection && s.active && s.origin == Point(300.0, 300.0) &&
      Step(s, m2).out == [LeftDraggedAt(Point(301.0, 300.0))]
  {
    var d := At(RightMouseDown, 100.0, 100.0, 0);
    var m := At(RightMouseDragged, 130.0, 100.0, 9_000_000);
    var u := Event(RightMouseUp, Point(130.0, 100.0), 9_100_000, 0x10_0000);
    var d2 := At(RightMouseDown, 300.0, 300.0, 20_000_000);
    SelectionExample();
    var s2 := Run(Initial, [d, m]).state;
    var s3 := Step(s2, u).state;
    RunOne(s2, u);
    RunOne(s3, d2);
    RunAppend(Initial, [d, m], [u, d2]);
    RunAppend(s2, [u], [d2]);
    assert [u] + [d2] == [u, d2];
    assert [d, m] + [u, d2] == [d, m, u, d2];
  }

  /** A hold is not reopened by a later drag, however far: after the hold at
      (105,100), a drag to (200,100) posts nothing, and the release is
      forwarded. */
  lemma FarDragDuringHoldExample()
    ensures var d := At(RightMouseDown, 100.0, 100.0, 0);
      var m := At(RightMouseDragged, 105.0, 100.0, 9_000_000);
      var m2 := At(RightMouseDragged, 200.0, 100.0, 10_000_000);
      var u := At(RightMouseUp, 200.0, 100.0, 10_500_000);
      Run(Initial, [d, m, m2, u]).downstream == [Injected(RightDownAt(Point(105.0, 100.0))), Delivered(u)]
  {
    var d := At(RightMouseDown, 100.0, 100.0, 0);
    var m := At(RightMouseDragged, 105.0, 100.0, 9_000_000);
    var m2 := At(RightMouseDragged, 200.0, 100.0, 10_000_000);
    var u := At(RightMouseUp, 200.0, 100.0, 10_500_000);
    HoldGesture(Initial, d, [], m, [m2], u);
    assert [d] + [] + [m] + [m2] + [u] == [d, m, m2, u];
  }

  /** The hold agreement needs unmodified events. A hold released with a
      modifier forwards the release, so applications see the right button
      released, while the state is still a hold. */
  lemma ModifiedReleaseBreaksHoldAgreement()
    ensures var d := At(RightMouseDown, 100.0, 100.0, 0);
      var m := At(RightMouseDragged, 105.0, 100.0, 9_000_000);
      var u := Event(RightMouseUp, Point(105.0, 100.0), 9_500_000, 0x10_0000);
      var r := Run(Initial, [d, m, u]);
      r.state.mode == Hold && r.state.active && !RightOpen(r.downstream)
  {
    var d := At(RightMouseDown, 100.0, 100.0, 0);
    var m := At(RightMouseDragged, 105.0, 100.0, 9_000_000);
    var u := Event(RightMouseUp, Point(105.0, 100.0), 9_500_000, 0x10_0000);
    var s1 := Armed(Initial, d);
    var s2 := s1.(mode := Hold);
    UndecidedDrag(s1, m);
    assert Downstream(m, Step(s1, m)) == [Injected(RightDownAt(Point(105.0, 100.0)))];
    ModifiedEventPassesThrough(s2, u);
    assert Downstream(u, Step(s2, u)) == [Delivered(u)];
    assert [d] + [m, u] == [d, m, u] && [m] + [u] == [m, u];
    ArmThen(Initial, d, [m, u]);
    RunOne(s1, m);
    RunOne(s2, u);
    RunAppend(s1, [m], [u]);
  }
}
