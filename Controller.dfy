/**
 * The per-frame loop of the hand controller. Each frame either sees no hand,
 * and then changes nothing and emits nothing, or sees one hand's landmarks:
 * the cursor is smoothed toward the palm centre and moved there, the overlay
 * is placed around it, and the click/drag state machine runs on the pinch
 * classifier's verdict and the frame's timestamp.
 *
 * HandController is the object the original updates in place; FrameStep and
 * RunFrames are the functions its methods are proved against, and the
 * lemmas below are stated over those functions.
 */
module Controller {
  import opened Geometry
  import opened Motion
  import opened Overlay
  import opened Gesture

  datatype Option<T> = None | Some(value: T)

  /** One camera frame: the detected hand's landmarks, if any, and the time it was read. */
  datatype FrameInput = FrameInput(hand: Option<Landmarks>, now: real)

  datatype ControllerState = ControllerState(smoothedX: real, smoothedY: real, gesture: GestureState)

  /** The state at start-up: the cursor at the screen centre (integer halves), not pinched. */
  function Initial(width: int, height: int): (s: ControllerState)
    ensures s.gesture == Idle && s.gesture.Valid()
    ensures width >= 0 ==> 0.0 <= s.smoothedX <= width as real / 2.0 < s.smoothedX + 1.0
    ensures height >= 0 ==> 0.0 <= s.smoothedY <= height as real / 2.0 < s.smoothedY + 1.0
    ensures s.smoothedX == s.smoothedX.Floor as real && s.smoothedY == s.smoothedY.Floor as real
  {
    ControllerState((width / 2) as real, (height / 2) as real, Idle)
  }

  /** The two events every frame with a hand starts with: move the cursor, then the overlay. */
  function MotionEvents(x: real, y: real, width: int, height: int): (e: seq<Event>)
    ensures |e| == 2 && e[0].Move? && e[1].OverlayAt?
    ensures MouseDown !in e && MouseUp !in e && Click !in e
    ensures 0.0 <= e[1].left && 0.0 <= e[1].top
    ensures width >= OverlaySize ==> e[1].left + OverlaySize as real <= width as real
    ensures height >= OverlaySize ==> e[1].top + OverlaySize as real <= height as real
  {
    [Move(Trunc(x), Trunc(y)), OverlayAt(OverlayOrigin(width, x), OverlayOrigin(height, y))]
  }

  /** One frame of the controller on a screen of the given size. */
  function FrameStep(s: ControllerState, width: int, height: int, input: FrameInput): (r: Stepped<ControllerState>)
    ensures s.gesture.Valid() ==> r.next.gesture.Valid()
  {
    match input.hand
    case None => Stepped(s, [])
    case Some(lm) =>
      var palm := PalmCenter(lm);
      var x := Smooth(s.smoothedX, ScreenCoordinate(palm.x, width) as real, Smoothing);
      var y := Smooth(s.smoothedY, ScreenCoordinate(palm.y, height) as real, Smoothing);
      var g := GestureStep(s.gesture, IsPinching(lm), input.now, Trunc(x), Trunc(y));
      Stepped(ControllerState(x, y, g.next), MotionEvents(x, y, width, height) + g.events)
  }

  /** The frames in order, with every event they emit, in order. */
  function RunFrames(s: ControllerState, width: int, height: int, frames: seq<FrameInput>): (r: Stepped<ControllerState>)
    ensures s.gesture.Valid() ==> r.next.gesture.Valid()
    decreases |frames|
  {
    if frames == [] then Stepped(s, [])
    else
      var before := RunFrames(s, width, height, frames[..|frames| - 1]);
      var last := FrameStep(before.next, width, height, frames[|frames| - 1]);
      Stepped(last.next, before.events + last.events)
  }

  // ---------------------------------------------------------------------
  // One frame
  // ---------------------------------------------------------------------

  /** A frame without a hand changes no field and emits no event. */
  lemma NoHandFrame(s: ControllerState, width: int, height: int, now: real)
    ensures FrameStep(s, width, height, FrameInput(None, now)) == Stepped(s, [])
  {
  }

  /** A run in which no hand is ever seen changes nothing and emits nothing. */
  lemma {:induction false} NoHandRun(s: ControllerState, width: int, height: int, frames: seq<FrameInput>)
    requires forall i :: 0 <= i < |frames| ==> frames[i].hand.None?
    ensures RunFrames(s, width, height, frames) == Stepped(s, [])
    decreases |frames|
  {
    if frames != [] {
      var init := frames[..|frames| - 1];
      assert forall i :: 0 <= i < |init| ==> init[i] == frames[i];
      NoHandRun(s, width, height, init);
    }
  }

  /**
   * A frame with a hand moves each smoothed coordinate toward the pixel under
   * the palm centre without passing it, emits the cursor move and the overlay
   * placement first, and then exactly what the state machine emits on the
   * pinch classifier's verdict.
   */
  lemma HandFrame(s: ControllerState, width: int, height: int, lm: Landmarks, now: real)
    ensures var r := FrameStep(s, width, height, FrameInput(Some(lm), now));
      var palm := PalmCenter(lm);
      var g := GestureStep(s.gesture, IsPinching(lm), now, Trunc(r.next.smoothedX), Trunc(r.next.smoothedY));
      && Between(r.next.smoothedX, s.smoothedX, ScreenCoordinate(palm.x, width) as real)
      && Between(r.next.smoothedY, s.smoothedY, ScreenCoordinate(palm.y, height) as real)
      && r.next.smoothedX - ScreenCoordinate(palm.x, width) as real
         == Smoothing * (s.smoothedX - ScreenCoordinate(palm.x, width) as real)
      && r.next.smoothedY - ScreenCoordinate(palm.y, height) as real
         == Smoothing * (s.smoothedY - ScreenCoordinate(palm.y, height) as real)
      && |r.events| >= 2
      && r.events[0] == Move(Trunc(r.next.smoothedX), Trunc(r.next.smoothedY))
      && r.events[1] == OverlayAt(OverlayOrigin(width, r.next.smoothedX), OverlayOrigin(height, r.next.smoothedY))
      && r.events[2..] == g.events
      && r.next.gesture == g.next
  {
  }

  predicate OnScreen(s: ControllerState, width: int, height: int) {
    0.0 <= s.smoothedX <= width as real && 0.0 <= s.smoothedY <= height as real
  }

  /**
   * While the palm landmarks stay inside the camera image the smoothed
   * cursor stays on screen, although the smoothed value itself is never
   * clamped. The overlay window never starts off screen, and on a screen at
   * least as large as the window it also ends on screen.
   */
  lemma FrameStaysOnScreen(s: ControllerState, width: int, height: int, lm: Landmarks, now: real)
    requires OnScreen(s, width, height)
    requires InUnitSquare(lm[Wrist]) && InUnitSquare(lm[IndexMcp]) && InUnitSquare(lm[PinkyMcp])
    ensures var r := FrameStep(s, width, height, FrameInput(Some(lm), now));
      && OnScreen(r.next, width, height)
      && 0 <= r.events[0].x <= width && 0 <= r.events[0].y <= height
      && 0.0 <= r.events[1].left && 0.0 <= r.events[1].top
      && (width >= OverlaySize ==> r.events[1].left + OverlaySize as real <= width as real)
      && (height >= OverlaySize ==> r.events[1].top + OverlaySize as real <= height as real)
  {
    var palm := PalmCenter(lm);
    SmoothStaysWithin(s.smoothedX, ScreenCoordinate(palm.x, width) as real, Smoothing, 0.0, width as real);
    SmoothStaysWithin(s.smoothedY, ScreenCoordinate(palm.y, height) as real, Smoothing, 0.0, height as real);
    var r := FrameStep(s, width, height, FrameInput(Some(lm), now));
    TruncRange(r.next.smoothedX, width);
    TruncRange(r.next.smoothedY, height);
  }

  /** The palm landmarks of a frame's hand, if any, lie inside the camera image. */
  predicate PalmInImage(input: FrameInput) {
    input.hand.Some? ==>
      var lm := input.hand.value;
      InUnitSquare(lm[Wrist]) && InUnitSquare(lm[IndexMcp]) && InUnitSquare(lm[PinkyMcp])
  }

  /**
   * Every cursor move lands in [0, width] x [0, height]; every overlay window
   * starts on screen, and ends on screen along each axis at least as long as
   * the window.
   */
  predicate EventsOnScreen(events: seq<Event>, width: int, height: int) {
    forall e :: e in events ==>
      && (e.Move? ==> 0 <= e.x <= width && 0 <= e.y <= height)
      && (e.OverlayAt? ==>
            && 0.0 <= e.left && 0.0 <= e.top
            && (width >= OverlaySize ==> e.left + OverlaySize as real <= width as real)
            && (height >= OverlaySize ==> e.top + OverlaySize as real <= height as real))
  }

  /** The click/drag machine only ever moves the cursor to the pixel it is given, and places no overlay. */
  lemma GestureMoves(g: GestureState, pinching: bool, now: real, x: int, y: int)
    ensures forall e :: e in GestureStep(g, pinching, now, x, y).events ==> !e.OverlayAt? && (e.Move? ==> e == Move(x, y))
  {
  }

  /**
   * Over a run whose palm landmarks all stay inside the camera image, the
   * cursor stays in [0, width] x [0, height] after every frame, every move
   * lands there and every overlay window lies inside the screen.
   */
  lemma {:induction false} RunStaysOnScreen(s: ControllerState, width: int, height: int, frames: seq<FrameInput>)
    requires OnScreen(s, width, height)
    requires forall i :: 0 <= i < |frames| ==> PalmInImage(frames[i])
    ensures var r := RunFrames(s, width, height, frames);
      OnScreen(r.next, width, height) && EventsOnScreen(r.events, width, height)
    decreases |frames|
  {
    if frames != [] {
      var init := frames[..|frames| - 1];
      assert forall i :: 0 <= i < |init| ==> init[i] == frames[i];
      RunStaysOnScreen(s, width, height, init);
      var before := RunFrames(s, width, height, init);
      var input := frames[|frames| - 1];
      assert PalmInImage(input);
      var last := FrameStep(before.next, width, height, input);
      if input.hand.Some? {
        var lm := input.hand.value;
        FrameStaysOnScreen(before.next, width, height, lm, input.now);
        var x, y := last.next.smoothedX, last.next.smoothedY;
        var g := GestureStep(before.next.gesture, IsPinching(lm), input.now, Trunc(x), Trunc(y));
        GestureMoves(before.next.gesture, IsPinching(lm), input.now, Trunc(x), Trunc(y));
        assert last.events == MotionEvents(x, y, width, height) + g.events;
        assert EventsOnScreen(last.events, width, height);
      }
      assert RunFrames(s, width, height, frames).events == before.events + last.events;
    }
  }

  /** Every frame has a hand whose palm centre maps to the pixel (tx, ty). */
  predicate PalmFixed(frames: seq<FrameInput>, width: int, height: int, tx: int, ty: int) {
    forall i :: 0 <= i < |frames| ==>
      && frames[i].hand.Some?
      && ScreenCoordinate(PalmCenter(frames[i].hand.value).x, width) == tx
      && ScreenCoordinate(PalmCenter(frames[i].hand.value).y, height) == ty
  }

  /**
   * While the palm stays on one pixel, each frame is one more smoothing step
   * toward it, so the cursor after n frames is the n-fold smoothing of
   * Repeat, whose offset RepeatOffset and RepeatApproaches describe.
   */
  lemma {:induction false} FixedPalmRepeats(s: ControllerState, width: int, height: int, frames: seq<FrameInput>, tx: int, ty: int)
    requires PalmFixed(frames, width, height, tx, ty)
    ensures var r := RunFrames(s, width, height, frames);
      && r.next.smoothedX == Repeat(s.smoothedX, tx as real, Smoothing, |frames|)
      && r.next.smoothedY == Repeat(s.smoothedY, ty as real, Smoothing, |frames|)
    decreases |frames|
  {
    if frames != [] {
      var n := |frames|;
      var init := frames[..n - 1];
      assert PalmFixed(init, width, height, tx, ty) by {
        assert forall i :: 0 <= i < |init| ==> init[i] == frames[i];
      }
      FixedPalmRepeats(s, width, height, init, tx, ty);
      var before := RunFrames(s, width, height, init);
      var lm := frames[n - 1].hand.value;
      var last := FrameStep(before.next, width, height, frames[n - 1]);
      assert last.next.smoothedX == Smooth(before.next.smoothedX, tx as real, Smoothing);
      assert last.next.smoothedY == Smooth(before.next.smoothedY, ty as real, Smoothing);
    }
  }

  // ---------------------------------------------------------------------
  // Mouse-button discipline over whole runs
  // ---------------------------------------------------------------------

  /**
   * Replays the button events of a trace from a button state: Some(final
   * state) if presses and releases strictly alternate, None at the first
   * press while down or release while up.
   */
  function ButtonTrace(down: bool, events: seq<Event>): Option<bool>
    decreases |events|
  {
    if events == [] then Some(down)
    else if events[0] == MouseDown then (if down then None else ButtonTrace(true, events[1..]))
    else if events[0] == MouseUp then (if down then ButtonTrace(false, events[1..]) else None)
    else ButtonTrace(down, events[1..])
  }

  lemma {:induction false} ButtonTraceAppend(down: bool, a: seq<Event>, b: seq<Event>, mid: bool)
    requires ButtonTrace(down, a) == Some(mid)
    ensures ButtonTrace(down, a + b) == ButtonTrace(mid, b)
    decreases |a|
  {
    if a == [] {
      assert a + b == b;
    } else {
      assert (a + b)[0] == a[0];
      assert (a + b)[1..] == a[1..] + b;
      var rest := if a[0] == MouseDown then true else if a[0] == MouseUp then false else down;
      assert ButtonTrace(rest, a[1..]) == Some(mid);
      ButtonTraceAppend(rest, a[1..], b, mid);
    }
  }

  /** A trace without button events leaves the button as it was. */
  lemma {:induction false} QuietTrace(down: bool, events: seq<Event>)
    requires MouseDown !in events && MouseUp !in events
    ensures ButtonTrace(down, events) == Some(down)
    decreases |events|
  {
    if events != [] {
      assert events[0] in events;
      assert forall e :: e in events[1..] ==> e in events;
      QuietTrace(down, events[1..]);
    }
  }

  /** Within one frame the button events agree with the drag flag before and after it. */
  lemma FrameButtons(s: ControllerState, width: int, height: int, input: FrameInput)
    requires s.gesture.Valid()
    ensures var r := FrameStep(s, width, height, input);
      ButtonTrace(s.gesture.isDragging, r.events) == Some(r.next.gesture.isDragging)
  {
    var r := FrameStep(s, width, height, input);
    if input.hand.Some? {
      var lm := input.hand.value;
      var x, y := r.next.smoothedX, r.next.smoothedY;
      var d := s.gesture.isDragging;
      var motion := MotionEvents(x, y, width, height);
      var g := GestureStep(s.gesture, IsPinching(lm), input.now, Trunc(x), Trunc(y));
      assert r.events == motion + g.events;
      QuietTrace(d, motion);
      ButtonTraceAppend(d, motion, g.events, d);
      GestureButtons(s.gesture, IsPinching(lm), input.now, Trunc(x), Trunc(y));
    }
  }

  lemma GestureButtons(g: GestureState, pinching: bool, now: real, x: int, y: int)
    requires g.Valid()
    ensures var r := GestureStep(g, pinching, now, x, y);
      ButtonTrace(g.isDragging, r.events) == Some(r.next.isDragging)
  {
    var r := GestureStep(g, pinching, now, x, y);
    var g1 := if pinching && !g.pinched then g.(pinchStartTime := now, pinched := true) else g;
    var m := Move(x, y);
    if DragStarts(g1, now) {
      assert !g.isDragging;
      // the press, then the release if the hand has opened
      assert ButtonTrace(true, [m]) == Some(true) by { assert [m][1..] == []; }
      assert ButtonTrace(true, [m, MouseUp]) == Some(false) by {
        assert [m, MouseUp][1..] == [MouseUp];
        assert [MouseUp][1..] == [];
      }
      var tail := if pinching then [m] else [m, MouseUp];
      assert r.events == [Feedback, MouseDown] + tail;
      assert ButtonTrace(false, [Feedback, MouseDown] + tail) == ButtonTrace(true, tail) by {
        assert ([Feedback, MouseDown] + tail)[1..] == [MouseDown] + tail;
        assert ([MouseDown] + tail)[1..] == tail;
      }
    } else if g1.isDragging {
      if pinching {
        assert r.events == [m];
        assert [m][1..] == [];
      } else {
        assert r.events == [m, MouseUp];
        assert [m, MouseUp][1..] == [MouseUp];
        assert [MouseUp][1..] == [];
      }
    } else {
      assert MouseDown !in r.events && MouseUp !in r.events;
      QuietTrace(g.isDragging, r.events);
    }
  }

  /**
   * Over any run of frames, the MouseDown and MouseUp events strictly
   * alternate, starting from the drag flag before the run, and the button is
   * left down exactly when the run ends in a drag: the button never sticks
   * and is never pressed twice without a release in between.
   */
  lemma {:induction false} RunButtonsAlternate(s: ControllerState, width: int, height: int, frames: seq<FrameInput>)
    requires s.gesture.Valid()
    ensures var r := RunFrames(s, width, height, frames);
      && r.next.gesture.Valid()
      && ButtonTrace(s.gesture.isDragging, r.events) == Some(r.next.gesture.isDragging)
    decreases |frames|
  {
    if frames != [] {
      var before := RunFrames(s, width, height, frames[..|frames| - 1]);
      RunButtonsAlternate(s, width, height, frames[..|frames| - 1]);
      FrameButtons(before.next, width, height, frames[|frames| - 1]);
      var last := FrameStep(before.next, width, height, frames[|frames| - 1]);
      ButtonTraceAppend(s.gesture.isDragging, before.events, last.events, before.next.gesture.isDragging);
    }
  }

  /** In an alternating trace that starts with the button down, a press is preceded by a release. */
  lemma {:induction false} PressAfterPressNeedsRelease(events: seq<Event>, j: nat)
    requires ButtonTrace(true, events).Some?
    requires j < |events| && events[j] == MouseDown
    ensures exists k :: 0 <= k < j && events[k] == MouseUp
  {
    if events[0] == MouseUp {
      assert 0 < j;
    } else {
      assert events[0] != MouseDown;
      PressAfterPressNeedsRelease(events[1..], j - 1);
      var k :| 0 <= k < j - 1 && events[1..][k] == MouseUp;
      assert events[k + 1] == MouseUp;
    }
  }

  /** Between any two MouseDown events of an alternating trace there is a MouseUp. */
  lemma {:induction false} NoDoublePress(down: bool, events: seq<Event>, i: nat, j: nat)
    requires ButtonTrace(down, events).Some?
    requires i < j < |events| && events[i] == MouseDown && events[j] == MouseDown
    ensures exists k :: i < k < j && events[k] == MouseUp
    decreases |events|
  {
    var next := if events[0] == MouseDown then true else if events[0] == MouseUp then false else down;
    if i == 0 {
      PressAfterPressNeedsRelease(events[1..], j - 1);
      var k :| 0 <= k < j - 1 && events[1..][k] == MouseUp;
      assert events[k + 1] == MouseUp;
    } else {
      NoDoublePress(next, events[1..], i - 1, j - 1);
      var k :| i - 1 < k < j - 1 && events[1..][k] == MouseUp;
      assert events[k + 1] == MouseUp;
    }
  }

  /**
   * Over any run from a consistent state, two presses of the mouse button
   * always have a release between them.
   */
  lemma RunNeverPressesTwice(s: ControllerState, width: int, height: int, frames: seq<FrameInput>, i: nat, j: nat)
    requires s.gesture.Valid()
    requires i < j < |RunFrames(s, width, height, frames).events|
    requires RunFrames(s, width, height, frames).events[i] == MouseDown
    requires RunFrames(s, width, height, frames).events[j] == MouseDown
    ensures exists k :: i < k < j && RunFrames(s, width, height, frames).events[k] == MouseUp
  {
    RunButtonsAlternate(s, width, height, frames);
    NoDoublePress(s.gesture.isDragging, RunFrames(s, width, height, frames).events, i, j);
  }

  /** Every hand seen in these frames pinches: none of them can release. */
  predicate Holding(frames: seq<FrameInput>) {
    forall i :: 0 <= i < |frames| && frames[i].hand.Some? ==> IsPinching(frames[i].hand.value)
  }

  function Bit(b: bool): nat {
    if b then 1 else 0
  }

  /** A frame whose hand, if any, pinches emits no release and presses only when the drag starts. */
  lemma HoldingFrame(s: ControllerState, width: int, height: int, input: FrameInput)
    requires input.hand.Some? ==> IsPinching(input.hand.value)
    ensures var r := FrameStep(s, width, height, input);
      && multiset(r.events)[MouseDown] + Bit(s.gesture.isDragging) == Bit(r.next.gesture.isDragging)
      && multiset(r.events)[MouseUp] == 0
      && multiset(r.events)[Click] == 0
  {
    var r := FrameStep(s, width, height, input);
    if input.hand.Some? {
      var x, y := r.next.smoothedX, r.next.smoothedY;
      var motion := MotionEvents(x, y, width, height);
      var g := GestureStep(s.gesture, true, input.now, Trunc(x), Trunc(y));
      assert r.events == motion + g.events;
      assert r.next.gesture == g.next;
      HoldingGesture(s.gesture, input.now, Trunc(x), Trunc(y));
      assert multiset(motion)[MouseDown] == 0 && multiset(motion)[MouseUp] == 0 && multiset(motion)[Click] == 0;
      assert multiset(r.events) == multiset(motion) + multiset(g.events);
    }
  }

  lemma HoldingGesture(g: GestureState, now: real, x: int, y: int)
    ensures var r := GestureStep(g, true, now, x, y);
      && multiset(r.events)[MouseDown] + Bit(g.isDragging) == Bit(r.next.isDragging)
      && multiset(r.events)[MouseUp] == 0
      && multiset(r.events)[Click] == 0
  {
    var r := GestureStep(g, true, now, x, y);
    var g1 := if !g.pinched then g.(pinchStartTime := now, pinched := true) else g;
    if DragStarts(g1, now) {
      assert r.events == [Feedback, MouseDown, Move(x, y)];
    } else if g1.isDragging {
      assert r.events == [Move(x, y)];
    } else {
      assert r.events == [];
    }
  }

  /**
   * Over a run with no release, MouseDown is emitted at most once, and
   * exactly when the drag starts during the run; no MouseUp and no Click is
   * emitted and a drag once started is kept.
   */
  lemma {:induction false} HoldingRunPressesOnce(s: ControllerState, width: int, height: int, frames: seq<FrameInput>)
    requires Holding(frames)
    ensures var r := RunFrames(s, width, height, frames);
      && multiset(r.events)[MouseDown] + Bit(s.gesture.isDragging) == Bit(r.next.gesture.isDragging)
      && multiset(r.events)[MouseUp] == 0
      && multiset(r.events)[Click] == 0
    decreases |frames|
  {
    if frames != [] {
      var init := frames[..|frames| - 1];
      assert Holding(init) by {
        forall i | 0 <= i < |init| && init[i].hand.Some?
          ensures IsPinching(init[i].hand.value)
        {
          assert init[i] == frames[i];
        }
      }
      HoldingRunPressesOnce(s, width, height, init);
      var before := RunFrames(s, width, height, init);
      var input := frames[|frames| - 1];
      HoldingFrame(before.next, width, height, input);
      var last := FrameStep(before.next, width, height, input);
      assert multiset(before.events + last.events) == multiset(before.events) + multiset(last.events);
    }
  }

  // ---------------------------------------------------------------------
  // The controller object
  // ---------------------------------------------------------------------

  /** The controller's cursor and pinch state, updated in place frame by frame. */
  class HandController {
    const screenWidth: int
    const screenHeight: int
    var smoothedX: real
    var smoothedY: real
    var pinched: bool
    var isDragging: bool
    var pinchStartTime: real
    /** Every event emitted so far, in order. */
    var events: seq<Event>

    function State(): ControllerState
      reads this
    {
      ControllerState(smoothedX, smoothedY, GestureState(pinched, isDragging, pinchStartTime))
    }

    predicate Valid()
      reads this
    {
      isDragging ==> pinched
    }

    constructor (width: int, height: int)
      ensures screenWidth == width && screenHeight == height
      ensures State() == Initial(width, height) && events == []
      ensures Valid()
    {
      screenWidth, screenHeight := width, height;
      smoothedX := (width / 2) as real;
      smoothedY := (height / 2) as real;
      pinched := false;
      isDragging := false;
      pinchStartTime := 0.0;
      events := [];
    }

    /** Processes one frame: its state and emitted events are those of FrameStep. */
    method Step(input: FrameInput)
      requires Valid()
      modifies this
      ensures Valid()
      ensures State() == FrameStep(old(State()), screenWidth, screenHeight, input).next
      ensures events == old(events) + FrameStep(old(State()), screenWidth, screenHeight, input).events
    {
      if input.hand.Some? {
        var lm := input.hand.value;
        var palm := PalmCenter(lm);
        var screenX := ScreenCoordinate(palm.x, screenWidth);
        var screenY := ScreenCoordinate(palm.y, screenHeight);
        smoothedX := smoothedX * Smoothing + screenX as real * (1.0 - Smoothing);
        smoothedY := smoothedY * Smoothing + screenY as real * (1.0 - Smoothing);
        var x, y := Trunc(smoothedX), Trunc(smoothedY);
        events := events + [Move(x, y)];
        events := events + [OverlayAt(OverlayOrigin(screenWidth, smoothedX), OverlayOrigin(screenHeight, smoothedY))];

        var pinching := IsPinching(lm);
        var now := input.now;
        if pinching && !pinched {
          pinchStartTime := now;
          pinched := true;
        }
        if pinched && !isDragging && now - pinchStartTime > DragThreshold {
          isDragging := true;
          events := events + [Feedback, MouseDown];
        }
        if isDragging {
          events := events + [Move(x, y)];
        }
        if !pinching && pinched {
          if isDragging {
            events := events + [MouseUp];
            isDragging := false;
          } else {
            events := events + [Feedback, Click];
          }
          pinched := false;
        }
      }
    }

    /** The capture loop over a sequence of frames. */
    method Run(frames: seq<FrameInput>)
      requires Valid()
      modifies this
      ensures Valid()
      ensures State() == RunFrames(old(State()), screenWidth, screenHeight, frames).next
      ensures events == old(events) + RunFrames(old(State()), screenWidth, screenHeight, frames).events
    {
      var i := 0;
      while i < |frames|
        invariant 0 <= i <= |frames|
        invariant Valid()
        invariant State() == RunFrames(old(State()), screenWidth, screenHeight, frames[..i]).next
        invariant events == old(events) + RunFrames(old(State()), screenWidth, screenHeight, frames[..i]).events
      {
        Step(frames[i]);
        assert frames[..i + 1][..i] == frames[..i];
        i := i + 1;
      }
      assert frames[..|frames|] == frames;
    }
  }
}
