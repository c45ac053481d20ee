# RightClickSelect gesture arbiter in Dafny

RightClickSelect is a background macOS daemon that installs a system-wide event
tap. Its callback, `eventTapCallback`, turns a right-button press-drag-release
into a left-button text selection followed by Cmd+C, and leaves ordinary right
clicks and right-button holds working. This project models that callback. It
covers the process-wide state the callback mutates (`mode`, `active`, the press
location and timestamp) and the two thresholds (8,000,000 ticks and 20 pixels).
For each event the model gives the decision to swallow or forward the real event
and the synthetic events posted, in posting order.

The model has four modules:

- `Events` (`events.dfy`): event types, points, intercepted events with their
  raw modifier-flag value, the synthetic actions (`LeftDownAt`, `LeftDraggedAt`,
  `LeftUpAt`, `RightDownAt`, `CopyChord`, `TrimClipboard`), the decision, and
  what applications downstream observe (`Seen`).
- `Arbitration` (`arbitration.dfy`): the callback's state as a value, the
  reference transition function `Step` (it tests cases in the same order as the
  callback), the global invariant `mode != TBD ==> active`, one lemma per case of
  the callback, and the agreement between the selection mode and the synthetic
  left button left pressed (`PrimaryOpen`).
- `Tap` (`tap.dfy`): the callback as it runs. The class `Arbiter` has the
  globals as mutable fields and an output log `emitted`. `Handle` is written
  imperatively with the callback's early returns and nested switches, and is
  proved to do exactly what `Step` prescribes while keeping `Valid`.
- `Gestures` (`gestures.dfy`): the callback run over a sequence of events
  (`Run`), the stream applications see, and lemmas about whole gestures. These
  cover a click, a hold, a text selection, an interrupted selection, the
  agreement between the hold mode and the right button applications see
  pressed (`RightOpen`), and the worked examples.

Several details are modelled exactly as the code has them. A right-down
records the press but does **not** reset `mode` to undecided, although a new
press would naturally be expected to start undecided. The difference shows when
a selection's release carries a modifier. That release is forwarded without
closing the selection, and the next press then continues the old selection
(`Gestures.ModifiedReleaseKeepsSelection`). Displacement is measured on the x
axis only. Both threshold comparisons are strict. An interrupting event is
forwarded, not swallowed. Only the first drag sample past the time threshold
classifies the press: a hold stays a hold however far later drags move
(`Gestures.HoldGesture`), and a selection stays a selection.

The downstream stream (`Seen`) lists what the callback causes in the order it
causes it. For synthetic mouse events and forwarded real events this is the
order applications receive them. The copy chord is posted at the hardware-level
tap rather than into the tap's own stream (main.swift:41, 46), and the clipboard
trim is a synchronous pasteboard update (main.swift:50-55, 122) that most likely
runs before any application has handled the copy.

## Model

| member | source | states |
|---|---|---|
| `Arbitration.Step` | RightClickSelect/main.swift:58-167 | no contract of its own: the callback's cases in the callback's order, characterised by the per-case lemmas below and matched by `Tap.Arbiter.Handle` |
| `Arbitration.ModifiedEventPassesThrough` | RightClickSelect/main.swift:60-63 | an event with any modifier flag is forwarded, nothing is posted, and mode, active and the recorded press are unchanged |
| `Arbitration.RightDownArms` | RightClickSelect/main.swift:65-74 | an unmodified right-down sets active, records its location and timestamp, keeps the mode, posts nothing and is swallowed |
| `Arbitration.InactivePassesThrough` | RightClickSelect/main.swift:76-79 | with no press in progress every event other than a right-down is forwarded with no emission and no state change |
| `Arbitration.UndecidedDrag` | RightClickSelect/main.swift:83-110 | an undecided right-drag is swallowed; before the time threshold nothing happens; after it, more than 20 pixels on x gives Selection with left-down at the press then left-drag at the pointer, otherwise Hold with right-down at the pointer |
| `Arbitration.DecidedDrag` | RightClickSelect/main.swift:83-110 | a right-drag in Selection posts exactly one left-drag at the pointer, in Hold nothing; both are swallowed and leave the state unchanged |
| `Arbitration.RightUpDisarms` | RightClickSelect/main.swift:111-139 | an unmodified right-up during a press clears active and resets mode to TBD; Selection posts left-up, copy chord, clipboard trim and swallows; Hold posts nothing and forwards; TBD posts right-down at the release and forwards |
| `Arbitration.RightUpLeavesIdle` | RightClickSelect/main.swift:76-139 | under the invariant, an unmodified right-up always leaves active false and mode TBD |
| `Arbitration.InterruptDemotesToHold` | RightClickSelect/main.swift:140-162 | other-button down, left-down or scroll during a press is forwarded and sets mode to Hold; Selection posts left-up then right-down at the event, TBD posts right-down, Hold posts nothing |
| `Arbitration.OtherKindPassesThrough` | RightClickSelect/main.swift:163-165 | any other event type is forwarded with no emission and no state change |
| `Arbitration.OnlyRightButtonSwallowed` | RightClickSelect/main.swift:58-167 | only unmodified right-down, right-drag and right-up events are ever swallowed |
| `Arbitration.OriginOnlyFromRightDown` | RightClickSelect/main.swift:68-71 | the recorded press location and time change only on an unmodified right-down, and then become that event's |
| `Arbitration.StepPreservesInv` | RightClickSelect/main.swift:77-162 | every call preserves `mode != TBD ==> active` |
| `Arbitration.StepKeepsPrimaryConsistent` | RightClickSelect/main.swift:83-162 | mode is Selection exactly when the last synthetic left-button event posted is a down or a drag, so no synthetic left press is left dangling outside a selection |
| `Tap.Arbiter.constructor` | RightClickSelect/main.swift:15-21 | the globals start undecided, inactive, with origin at zero and an empty output log, and satisfy the invariant |
| `Tap.Arbiter.Post` | RightClickSelect/main.swift:28-55 | posting a synthetic event appends it to the output log and changes nothing else |
| `Tap.Arbiter.Handle` | RightClickSelect/main.swift:58-167 | the new globals, the events appended to the log and the returned decision are those of `Step` on the old globals; the invariant and the left-button agreement are preserved |
| `Gestures.RunPreservesInv` | RightClickSelect/main.swift:58-167 | a run of the callback over any event sequence preserves `mode != TBD ==> active` |
| `Gestures.NonDecisiveDrags` | RightClickSelect/main.swift:83-110 | drags of which none is both late and far keep the press active and not selecting, keep the origin, swallow every drag and post at most one right-down: from TBD the press becomes a hold exactly when some drag is past the time threshold, and the right-down is then at the first such drag |
| `Gestures.UndecidedDrags` | RightClickSelect/main.swift:91-110 | from TBD, such drags give the state unchanged and nothing downstream if none is past the time threshold, and otherwise Hold with one right-down at the first drag past it |
| `Gestures.ReleaseUndecided` | RightClickSelect/main.swift:126-138 | the release of a hold is forwarded alone; the release of an undecided press is preceded by a right-down at the release; both end inactive and TBD |
| `Gestures.ClickGesture` | RightClickSelect/main.swift:65-139 | down, non-deciding drags, up: downstream is exactly a synthetic right-down, at the first drag past the time threshold if there is one and at the release otherwise, followed by the real right-up; the state ends inactive and TBD |
| `Gestures.EarlyDrags` | RightClickSelect/main.swift:91-108 | undecided drags at or before the time threshold change nothing and reach no one |
| `Gestures.SelectingDrags` | RightClickSelect/main.swift:86-89 | during a selection every right-drag becomes one left-drag at the same location and nothing else |
| `Gestures.DecidingDrag` | RightClickSelect/main.swift:91-100 | the deciding drag switches to Selection and emits left-down at the press location then left-drag at the pointer |
| `Gestures.ReleaseSelection` | RightClickSelect/main.swift:86-125 | selection drags then a release: echoed left-drags, then left-up at the release, copy chord and clipboard trim; state inactive and TBD |
| `Gestures.DecideSelection` | RightClickSelect/main.swift:83-125 | from an undecided press, the deciding drag, further drags and the release produce left-down at the origin, one left-drag per drag, and the closing actions |
| `Gestures.SelectionGesture` | RightClickSelect/main.swift:65-125 | down, early drags, a late far drag, any drags, up: downstream sees left-down at the press, one left-drag per drag from the deciding one, left-up at the release, copy chord and trim; no real event and no right-button event; the state ends idle |
| `Gestures.HoldingDrag` | RightClickSelect/main.swift:101-106 | an undecided drag past the time threshold and within 20 pixels on x switches to Hold, posts a right-down at the pointer and is swallowed |
| `Gestures.HeldDrags` | RightClickSelect/main.swift:83-110 | during a hold every right-drag, however far, is swallowed, posts nothing and leaves the state unchanged |
| `Gestures.ReleaseHold` | RightClickSelect/main.swift:126-131 | hold drags then a release: only the real release reaches downstream, and the state ends inactive and TBD |
| `Gestures.DecideHold` | RightClickSelect/main.swift:101-131 | from an undecided press, the hold-deciding drag, further drags and the release produce exactly one right-down at the deciding drag and then the real release |
| `Gestures.HoldGesture` | RightClickSelect/main.swift:65-131 | down, early drags, a first late drag within 20 pixels, any drags (far ones too), up: downstream sees one right-down at the deciding drag's location then the real release, nothing else; the state ends inactive and TBD with the press location and time still recorded |
| `Gestures.StepKeepsSecondaryMode` | RightClickSelect/main.swift:66-162 | for an unmodified event, the mode after the call is Hold exactly when the right button is pressed after the call's downstream items, given that this held before |
| `Gestures.RunKeepsSecondaryConsistent` | RightClickSelect/main.swift:58-167 | over any run of unmodified events from a state satisfying the invariant, the mode is Hold exactly when the last right-button item seen downstream is a press |
| `Gestures.CycleEndsIdle` | RightClickSelect/main.swift:111-139 | after any events and then an unmodified right-up, starting from a state satisfying the invariant, the state is inactive and TBD |
| `Gestures.SelectionExample` | RightClickSelect/main.swift:91-100 | press at (100,100) t=0, drag to (130,100) t=9,000,000 posts left-down at (100,100) then left-drag at (130,100) and nothing else |
| `Gestures.HoldExample` | RightClickSelect/main.swift:101-131 | press at (100,100), drag to (105,100) after 9,000,000 ticks posts right-down at (105,100); the release is forwarded unchanged and the state ends idle |
| `Gestures.FarDragDuringHoldExample` | RightClickSelect/main.swift:101-131 | after a hold decided at (105,100), a drag to (200,100) posts nothing and the release is forwarded: downstream sees one right-down and the release |
| `Gestures.ScrollDuringSelectionExample` | RightClickSelect/main.swift:140-162 | a scroll during a selection posts left-up then right-down before the scroll is forwarded, and the press becomes a hold |
| `Gestures.ModifiedReleaseKeepsSelection` | RightClickSelect/main.swift:60-74 | a selection released with a modifier stays open; a following right-down keeps Selection and moves the origin to its own location, and its very first drag is echoed as a left-drag |
| `Gestures.ModifiedReleaseBreaksHoldAgreement` | RightClickSelect/main.swift:60-63 | a hold released with a modifier forwards the release, so applications see the right button released while the state is still an active hold |

## Left out

- `main()`: creating the event tap, the event mask, the run loop, and the fatal message and exit when accessibility permission is missing. This is platform I/O.
- `simulateMouseEvent` and `simulateCmdC` building and posting `CGEvent`s: each becomes one appended `Synth` entry. The Cmd+C key-down and key-up pair, with the keycode `0x08` and the command flag, is one `CopyChord`.
- Silent failure to create an event source or an event: posting is modelled as always succeeding. The callback's state advances the same either way.
- `trimClipboard`'s pasteboard access and whitespace trimming: foreign library calls, recorded as one `TrimClipboard` action.
- Floating-point coordinates: points are exact reals, so rounding in `abs(x - x0) > 20.0` is not modelled.
- Step: timestamps are subtracted as unbounded integers. The callback's unsigned 64-bit subtraction (main.swift:91) traps when a drag's timestamp is earlier than the press's. The model instead treats such a drag as arriving before the time threshold.
- The `mouseButton: .left` argument passed even for synthetic right-downs: a platform detail that does not affect the model.
- The event-delivery thread: the callback is invoked one event at a time, so there is no concurrency to model.
- The agreement between the modes and the buttons applications see holds only for unmodified events. A right-button event carrying a modifier is returned by the callback's modifier guard (main.swift:61-63), so a hold released with a modifier leaves the state a hold while the right button is seen released (`Gestures.ModifiedReleaseBreaksHoldAgreement`). The hold half is therefore proved for runs of unmodified events (`Gestures.RunKeepsSecondaryConsistent`). The synthetic left-button half holds for all events (`Arbitration.StepKeepsPrimaryConsistent`). It is about the synthetic left button only: a real left-down is forwarded (main.swift:78, 162), and afterwards applications see a left press that the log does not record.
- Arbitration.StepKeepsPrimaryConsistent: does not say the synthetic left press sits at the recorded press location, because a right-down during a selection moves that location while the left press stays where it was (main.swift:68-71, `Gestures.ModifiedReleaseKeepsSelection`).
- The order in which the window server and other applications handle the copy chord relative to the clipboard trim: it is outside the callback's control, so the model records only the order in which the callback performs the two.
- The deferred re-click after a selection does not exist in this version of the program.
