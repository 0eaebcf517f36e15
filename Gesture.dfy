/**
 * The click/drag state machine of one frame: pinch onset, drag start once a
 * pinch has been held for more than the drag threshold, the cursor update
 * while dragging, and release, which either clicks or ends the drag. The
 * four blocks run in this fixed order on every frame in which a hand is seen,
 * each reading the state the previous block left.
 */
module Gesture {

  /** What a frame asks of the mouse and of the cursor overlay, in order. */
  datatype Event =
    | Move(x: int, y: int)              // move the system cursor to a pixel
    | OverlayAt(left: real, top: real)  // place the overlay window
    | MouseDown
    | MouseUp
    | Click
    | Feedback                          // flash the click effect on the overlay

  /** Seconds a pinch must have been held, strictly exceeded, before it becomes a drag. */
  const DragThreshold: real := 0.3

  datatype GestureState = GestureState(pinched: bool, isDragging: bool, pinchStartTime: real)
  {
    /** A drag only happens inside a pinch. */
    predicate Valid() {
      isDragging ==> pinched
    }
  }

  /** The state before the first pinch. */
  const Idle: GestureState := GestureState(false, false, 0.0)

  /** The state after a step, with the events the step emitted. */
  datatype Stepped<S> = Stepped(next: S, events: seq<Event>)

  function Elapsed(g: GestureState, now: real): real {
    now - g.pinchStartTime
  }

  /** The drag-start block fires: pinched, not dragging yet, and held past the threshold. */
  predicate DragStarts(g: GestureState, now: real): (b: bool)
    ensures b ==> g.pinched && !g.isDragging && now > g.pinchStartTime
  {
    g.pinched && !g.isDragging && Elapsed(g, now) > DragThreshold
  }

  /**
   * One frame of the state machine, given whether the hand pinches, the time,
   * and the pixel the cursor was just moved to.
   */
  function GestureStep(g: GestureState, pinching: bool, now: real, x: int, y: int): (r: Stepped<GestureState>)
    ensures g.Valid() ==> r.next.Valid()
  {
    // pinch onset: record the time, decide nothing yet
    var g1 := if pinching && !g.pinched then g.(pinchStartTime := now, pinched := true) else g;
    // drag start
    var starts := DragStarts(g1, now);
    var g2 := if starts then g1.(isDragging := true) else g1;
    var startEvents := if starts then [Feedback, MouseDown] else [];
    // a drag keeps the cursor where the hand is
    var followEvents := if g2.isDragging then [Move(x, y)] else [];
    // release: end the drag, or click if it never became one
    var releases := !pinching && g2.pinched;
    var g3 :=
      if !releases then g2
      else if g2.isDragging then g2.(isDragging := false, pinched := false)
      else g2.(pinched := false);
    var releaseEvents :=
      if !releases then []
      else if g2.isDragging then [MouseUp]
      else [Feedback, Click];
    Stepped(g3, startEvents + followEvents + releaseEvents)
  }

  /**
   * Pinch onset records the time and emits nothing: the elapsed time is zero,
   * so the strict threshold cannot be passed on the same frame.
   */
  lemma OnsetFrame(g: GestureState, now: real, x: int, y: int)
    requires g.Valid() && !g.pinched
    ensures GestureStep(g, true, now, x, y) == Stepped(GestureState(true, false, now), [])
  {
  }

  /** An open hand with no pinch under way changes nothing and emits nothing. */
  lemma IdleOpenFrame(g: GestureState, now: real, x: int, y: int)
    requires g.Valid() && !g.pinched
    ensures GestureStep(g, false, now, x, y) == Stepped(g, [])
  {
  }

  /** MouseDown is emitted exactly when the drag-start guard holds of the state before the frame. */
  lemma MouseDownExactlyWhenHeldPastThreshold(g: GestureState, pinching: bool, now: real, x: int, y: int)
    ensures var r := GestureStep(g, pinching, now, x, y);
      && (MouseDown in r.events <==> DragStarts(g, now))
      && (DragStarts(g, now) ==> r.events[..2] == [Feedback, MouseDown])
      && multiset(r.events)[MouseDown] <= 1
  {
  }

  /** MouseUp and Click are emitted only on a release: not pinching while pinched. */
  lemma ButtonsOnlyOnRelease(g: GestureState, pinching: bool, now: real, x: int, y: int)
    ensures var r := GestureStep(g, pinching, now, x, y);
      (MouseUp in r.events || Click in r.events) <==> (!pinching && g.pinched)
  {
  }

  /**
   * A release emits exactly one of MouseUp and Click: MouseUp if a drag is
   * under way by then, Click otherwise. Afterwards neither flag is set and
   * the recorded start time is kept.
   */
  lemma ReleaseFrame(g: GestureState, now: real, x: int, y: int)
    requires g.Valid() && g.pinched
    ensures var r := GestureStep(g, false, now, x, y);
      && r.next == GestureState(false, false, g.pinchStartTime)
      && multiset(r.events)[MouseUp] + multiset(r.events)[Click] == 1
      && (MouseUp in r.events <==> g.isDragging || Elapsed(g, now) > DragThreshold)
      && (Click in r.events <==> !g.isDragging && Elapsed(g, now) <= DragThreshold)
  {
  }

  /**
   * A release on the frame that first passes the threshold starts the drag
   * and ends it at once: MouseDown, then MouseUp, and no Click, because the
   * drag-start block runs before the release block.
   */
  lemma LateReleaseDragsInstead(g: GestureState, now: real, x: int, y: int)
    requires g.pinched && !g.isDragging && Elapsed(g, now) > DragThreshold
    ensures GestureStep(g, false, now, x, y)
         == Stepped(GestureState(false, false, g.pinchStartTime), [Feedback, MouseDown, Move(x, y), MouseUp])
  {
  }

  /**
   * A held pinch keeps its start time; it emits MouseDown on the first frame
   * past the threshold and afterwards only follows the hand.
   */
  lemma HeldFrame(g: GestureState, now: real, x: int, y: int)
    requires g.Valid() && g.pinched
    ensures var r := GestureStep(g, true, now, x, y);
      && r.next.pinched && r.next.pinchStartTime == g.pinchStartTime
      && r.next.isDragging == (g.isDragging || Elapsed(g, now) > DragThreshold)
      && r.events == (if DragStarts(g, now) then [Feedback, MouseDown] else [])
                     + (if r.next.isDragging then [Move(x, y)] else [])
  {
  }

  /**
   * A drag with the cursor fixed at the origin: pinched at 0 s, still
   * pinched at 0.1 s and 0.35 s, released at 0.4 s.
   */
  lemma DragScenario()
    ensures
      var a1 := GestureStep(Idle, true, 0.0, 0, 0);
      var a2 := GestureStep(a1.next, true, 0.1, 0, 0);
      var a3 := GestureStep(a2.next, true, 0.35, 0, 0);
      var a4 := GestureStep(a3.next, false, 0.4, 0, 0);
      && a1.events == [] && a2.events == []
      && a3.events == [Feedback, MouseDown, Move(0, 0)]
      && a4.events == [Move(0, 0), MouseUp]
      && a4.next == GestureState(false, false, 0.0)
  {
    var pinched := GestureState(true, false, 0.0);
    OnsetFrame(Idle, 0.0, 0, 0);
    HeldFrame(pinched, 0.1, 0, 0);
    HeldFrame(pinched, 0.35, 0, 0);
    ReleaseFrame(GestureState(true, true, 0.0), 0.4, 0, 0);
  }

  /** A tap released at exactly the threshold clicks: the threshold is strict. */
  lemma ThresholdTapScenario()
    ensures
      var b1 := GestureStep(Idle, true, 0.0, 0, 0);
      var b2 := GestureStep(b1.next, false, 0.3, 0, 0);
      b1.events == [] && b2.events == [Feedback, Click]
  {
    OnsetFrame(Idle, 0.0, 0, 0);
  }

  /** Two taps within 0.1 s both click: no cooldown between clicks is enforced. */
  lemma NoCooldownScenario()
    ensures
      var c1 := GestureStep(Idle, true, 1.0, 0, 0);
      var c2 := GestureStep(c1.next, false, 1.02, 0, 0);
      var c3 := GestureStep(c2.next, true, 1.05, 0, 0);
      var c4 := GestureStep(c3.next, false, 1.07, 0, 0);
      c1.events + c2.events + c3.events + c4.events == [Feedback, Click, Feedback, Click]
  {
  }
}
