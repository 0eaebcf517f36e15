# Hand tracking to mouse emulation: the per-frame gesture model

The original program reads webcam frames, finds one hand's 21 landmarks and
drives the system mouse with it:

- the cursor follows the palm centre;
- an exponential filter smooths the cursor's motion;
- a small overlay window follows the cursor and is clamped to the screen;
- a pinch of thumb and index finger clicks, or drags once it has been held for
  more than 0.3 seconds.

This project models the core of that program, the body of the capture loop
in `HandController.run`. It covers the controller's cursor and pinch state,
the pinch classifier with its distance helper, and the overlay clamp. It
proves the properties the program depends on.

The project has five modules:

- `Geometry`:
  - landmarks and the palm centre;
  - Python's truncating `int()`;
  - the pinch classifier.
  The original measures distances with a square root, and exact reals have
  none. So the classifier is stated twice: once over the three distances the
  original measures (`PinchFromDistances`), and once over squared distances
  of the landmarks (`IsPinching`). A lemma proves the two agree.
- `Motion`: one smoothing step and its repetition under a fixed target.
- `Overlay`: the clamp that keeps the `CursorOverlay` window on screen, along
  one axis.
- `Gesture`: the click/drag state machine of one frame. Its four blocks run in
  the original's order: pinch onset, drag start, drag follow, release.
- `Controller`:
  - `FrameStep` and `RunFrames`, pure functions for one frame and for a run of
    frames;
  - lemmas about whole runs;
  - the `HandController` class. Its fields are those the original updates in
    place. `Step` and `Run` are proved against `FrameStep` and `RunFrames`.

The side effects of a frame are recorded as an event log, in the order the
original issues them:

- `Move(x, y)` for `pyautogui.moveTo`;
- `OverlayAt(left, top)` for the overlay's position update;
- `MouseDown`, `MouseUp` and `Click` for the matching pyautogui calls;
- `Feedback` for the overlay's click effect.

Exact reals stand in for Python floats. The time of each frame is an input.

The model follows the code, including in these details:

- The drag threshold is strict: a pinch released at exactly 0.3 s clicks.
- The smoothed cursor position is never clamped. Only the overlay window is
  clamped to the screen.
- A frame without a hand changes nothing. In particular, it does not end a
  pinch or a drag.
- `last_click_time` and `click_cooldown` are set but never read, so no cooldown
  between clicks exists. `NoCooldownScenario` shows two clicks 50 ms apart.
- A pinch released on the first frame past the threshold sends a mouse-down
  and then a mouse-up, not a click. The drag-start block runs before the
  release block.

## Model

| member | source | states |
|---|---|---|
| Geometry.Trunc | Hand_Tracking_To_Mouse_Emulation.py:165-166 | `int()` truncates toward zero: the result is within one of its argument and on the zero side of it, for both signs |
| Geometry.TruncRange | Hand_Tracking_To_Mouse_Emulation.py:165-166 | truncating a value in [0, size] gives a pixel in [0, size], and one strictly below size if the value is |
| Geometry.PalmCenter | Hand_Tracking_To_Mouse_Emulation.py:156-162 | the palm centre lies in the unit square when the wrist, index-base and pinky-base landmarks do, and equals them when they coincide |
| Geometry.ScreenCoordinate | Hand_Tracking_To_Mouse_Emulation.py:165-166 | a normalised coordinate in [0, 1] maps to a pixel in [0, size], and one below 1 maps strictly below size |
| Geometry.SqDist | Hand_Tracking_To_Mouse_Emulation.py:117-118 | the squared landmark distance is non-negative and zero for a point and itself |
| Geometry.BendDivisor | Hand_Tracking_To_Mouse_Emulation.py:129 | the thumb-bend divisor is at least 0.001 and at least the IP-to-MCP distance, and is one of the two |
| Geometry.SquaredBendDivisor | Hand_Tracking_To_Mouse_Emulation.py:129 | the floored divisor, squared, is at least 0.001 squared and at least the squared IP-to-MCP distance, and is one of the two |
| Geometry.PinchFromDistances | Hand_Tracking_To_Mouse_Emulation.py:124-132 | the original's two-gate test on the measured distances; passing it puts the thumb tip more than 1.2 times the floored divisor, so more than 0.0012, from the thumb's MCP joint |
| Geometry.BendGateFloor | Hand_Tracking_To_Mouse_Emulation.py:129-132 | passing the bend gate needs a tip-to-MCP distance above 1.2 times 0.001 and above 1.2 times the IP-to-MCP distance |
| Geometry.IsPinching | Hand_Tracking_To_Mouse_Emulation.py:120-132 | the classifier on the landmarks, by squared distances; a thumb tip lying on its MCP joint never pinches |
| Geometry.IsPinchingMatchesDistances | Hand_Tracking_To_Mouse_Emulation.py:117-132 | the squared-distance classifier accepts a hand exactly when the original's test does: tip-to-index distance below 0.07 and tip-to-MCP over the floored IP-to-MCP above 1.2 |
| Geometry.PinchGateExamples | Hand_Tracking_To_Mouse_Emulation.py:129-132 | worked cases: an open hand fails and a bent pinch passes, both gates are strict at 0.07 and 1.2, and a collapsed IP-to-MCP distance is floored at 0.001 |
| Motion.Smooth | Hand_Tracking_To_Mouse_Emulation.py:169-170 | one smoothing step scales the offset from the target by the weight, and for a weight in [0, 1] lands between the previous position and the target |
| Motion.RepeatOffset | Hand_Tracking_To_Mouse_Emulation.py:169-170 | after n frames toward a fixed target the offset is the weight to the n-th power times the initial offset |
| Motion.PowBounds | Hand_Tracking_To_Mouse_Emulation.py:169-170 | for a weight in [0, 1] the shrink factor stays in [0, 1] and does not grow from frame to frame |
| Motion.RepeatApproaches | Hand_Tracking_To_Mouse_Emulation.py:169-170 | toward a fixed target every frame stays between the start and the target, moves toward the target without overshooting, and never increases the distance |
| Motion.SmoothStaysWithin | Hand_Tracking_To_Mouse_Emulation.py:169-170 | smoothing an in-range position toward an in-range target stays in range |
| Overlay.OverlayOrigin | Hand_Tracking_To_Mouse_Emulation.py:50-52 | the overlay origin is never negative; on a screen of at least 100 pixels the window ends on screen; a centred window that fits is kept; one that does not lands on the nearer edge; on a smaller screen it is 0 |
| Overlay.OverlayOriginIsNearest | Hand_Tracking_To_Mouse_Emulation.py:50-52 | the clamped origin is the on-screen origin nearest the centred one |
| Gesture.DragStarts | Hand_Tracking_To_Mouse_Emulation.py:187 | the drag-start guard; when it holds the hand is pinched, not dragging, and the time is strictly after the pinch began |
| Gesture.GestureStep | Hand_Tracking_To_Mouse_Emulation.py:180-210 | one frame of the click/drag machine keeps the invariant that a drag happens only inside a pinch |
| Gesture.IdleOpenFrame | Hand_Tracking_To_Mouse_Emulation.py:180-210 | an open hand with no pinch under way fires none of the four blocks: the state is unchanged and nothing is emitted |
| Gesture.OnsetFrame | Hand_Tracking_To_Mouse_Emulation.py:180-191 | pinch onset records the time, sets pinched, and emits nothing on that frame |
| Gesture.MouseDownExactlyWhenHeldPastThreshold | Hand_Tracking_To_Mouse_Emulation.py:186-191 | a frame emits MouseDown if and only if the state is pinched, not dragging and the elapsed time exceeds 0.3 s; then the click effect and MouseDown come first, and MouseDown is emitted at most once |
| Gesture.ButtonsOnlyOnRelease | Hand_Tracking_To_Mouse_Emulation.py:197-210 | MouseUp or Click is emitted if and only if the hand stops pinching while pinched |
| Gesture.ReleaseFrame | Hand_Tracking_To_Mouse_Emulation.py:197-210 | a release emits exactly one of MouseUp and Click: MouseUp if a drag is under way or starts on that frame, Click otherwise; it clears both flags and keeps the start time |
| Gesture.LateReleaseDragsInstead | Hand_Tracking_To_Mouse_Emulation.py:186-210 | a release on the first frame past the threshold emits MouseDown, a move and MouseUp, and no Click |
| Gesture.HeldFrame | Hand_Tracking_To_Mouse_Emulation.py:180-195 | a held pinch keeps its start time, becomes a drag once past the threshold, and otherwise only follows the hand |
| Gesture.DragScenario | Hand_Tracking_To_Mouse_Emulation.py:180-210 | a pinch at 0 s held through 0.1 s and 0.35 s and released at 0.4 s emits nothing, nothing, then the press with a move, then a move with the release |
| Gesture.ThresholdTapScenario | Hand_Tracking_To_Mouse_Emulation.py:186-207 | a pinch released at exactly 0.3 s clicks, because the threshold is strict |
| Gesture.NoCooldownScenario | Hand_Tracking_To_Mouse_Emulation.py:108-109 | two taps 50 ms apart both click, because the cooldown fields are never consulted |
| Controller.Initial | Hand_Tracking_To_Mouse_Emulation.py:99-107 | at start-up each cursor coordinate is the integer half of its screen dimension, rounded down (a whole number within one below the half), and the machine is idle and consistent |
| Controller.FrameStep | Hand_Tracking_To_Mouse_Emulation.py:148-210 | one frame preserves the invariant that dragging implies pinched |
| Controller.MotionEvents | Hand_Tracking_To_Mouse_Emulation.py:173-174 | a frame with a hand first moves the cursor and then places the overlay; these two events never press, release or click, and the overlay origin is never negative and, on a screen of at least 100 pixels, keeps the window on screen |
| Controller.RunFrames | Hand_Tracking_To_Mouse_Emulation.py:138-210 | the frames in order, with all their events in order; a run from a consistent state ends in a consistent state |
| Controller.NoHandRun | Hand_Tracking_To_Mouse_Emulation.py:138-148 | a run in which no hand is ever seen changes nothing and emits nothing |
| Controller.NoHandFrame | Hand_Tracking_To_Mouse_Emulation.py:148 | a frame without a hand changes no field and emits nothing |
| Controller.HandFrame | Hand_Tracking_To_Mouse_Emulation.py:148-210 | a frame with a hand moves each smoothed coordinate 0.8 of the way toward the palm's pixel (its offset is scaled by 0.2), so without passing it; it emits the cursor move to the truncated position and the overlay at the clamped origins of that position first, then exactly what the click/drag machine emits on the classifier's verdict |
| Controller.FrameStaysOnScreen | Hand_Tracking_To_Mouse_Emulation.py:160-174 | on a screen of any size, while the palm landmarks stay in the image, the cursor and the pixel it moves to stay within [0, width] x [0, height] (the far edges included); the overlay window never starts off screen, and ends on screen along each axis of at least 100 pixels |
| Controller.GestureMoves | Hand_Tracking_To_Mouse_Emulation.py:194-195 | the click/drag machine only moves the cursor to the pixel it is given, and never places the overlay |
| Controller.RunStaysOnScreen | Hand_Tracking_To_Mouse_Emulation.py:138-210 | on a screen of any size, over a run whose palm landmarks stay in the image, the cursor stays within [0, width] x [0, height] after every frame and every move lands there; every overlay window starts on screen, and ends on screen along each axis of at least 100 pixels |
| Controller.FixedPalmRepeats | Hand_Tracking_To_Mouse_Emulation.py:165-170 | while the palm stays on one pixel, the cursor after n frames is the n-fold smoothing toward that pixel (`Motion.Repeat`), so, by `RepeatOffset`, its offset is multiplied by 0.2 each frame |
| Controller.FrameButtons | Hand_Tracking_To_Mouse_Emulation.py:148-210 | within one frame, presses and releases alternate, starting from the drag flag before the frame and ending at the drag flag after it |
| Controller.GestureButtons | Hand_Tracking_To_Mouse_Emulation.py:180-210 | the click/drag machine's presses and releases alternate from the drag flag before the frame to the one after it |
| Controller.RunButtonsAlternate | Hand_Tracking_To_Mouse_Emulation.py:138-210 | over any run, the invariant holds and presses and releases strictly alternate; the button is left down exactly when the run ends in a drag |
| Controller.PressAfterPressNeedsRelease | Hand_Tracking_To_Mouse_Emulation.py:186-203 | in an alternating trace that starts with the button down, every press is preceded by a release |
| Controller.NoDoublePress | Hand_Tracking_To_Mouse_Emulation.py:186-203 | in an alternating trace, two presses always have a release between them |
| Controller.RunNeverPressesTwice | Hand_Tracking_To_Mouse_Emulation.py:138-210 | over any run from a consistent state, two MouseDown events always have a MouseUp between them |
| Controller.HoldingFrame | Hand_Tracking_To_Mouse_Emulation.py:148-210 | a frame whose hand pinches emits no MouseUp or Click, and a MouseDown exactly when the drag flag turns on |
| Controller.HoldingGesture | Hand_Tracking_To_Mouse_Emulation.py:180-195 | a pinching frame of the click/drag machine emits no release, and presses exactly when the drag starts |
| Controller.HoldingRunPressesOnce | Hand_Tracking_To_Mouse_Emulation.py:138-210 | over a run in which every seen hand pinches, MouseDown is emitted at most once, exactly when the drag starts during the run, and no MouseUp or Click is emitted |
| Controller.HandController.constructor | Hand_Tracking_To_Mouse_Emulation.py:96-109 | the new controller holds the initial state, an empty event log and the screen size it was given |
| Controller.HandController.Step | Hand_Tracking_To_Mouse_Emulation.py:148-210 | updating the fields in place gives the state of one FrameStep and appends exactly its events to the log, keeping the invariant |
| Controller.HandController.Run | Hand_Tracking_To_Mouse_Emulation.py:138-210 | the capture loop over a sequence of frames ends in the state of RunFrames and appends exactly its events to the log |

## Left out

- Camera capture, frame flipping, colour conversion and the MediaPipe hand detector are left out. A frame is given as the first hand's landmarks, if any, plus its timestamp.
- `time.time()` is left out: each frame carries its time as a parameter.
- The screen size from `screeninfo` is left out: width and height are parameters.
- The Tkinter overlay is left out: its window, drawing, threads, the 0.1 s timer that redraws the icon, and the `int()` applied to its coordinates when the window is placed. Its position updates and click effects appear as `OverlayAt` and `Feedback` events.
- Console output, the preview window and the quit key are left out. `HandController.Run` processes a finite sequence of frames instead of looping until `q` is pressed or the camera fails.
- The cleanup after the loop is left out. A run that ends in a drag leaves the button down, and `RunButtonsAlternate` states this.
- The `mouseUp` issued before the controller starts is left out.
- Floating-point rounding is left out, because the model uses exact reals.
- Geometry.IsPinching compares squared distances, because the model has no square root. `IsPinchingMatchesDistances` proves it agrees with the original's distance test whenever the distances are the true ones.
- Controller.FrameStaysOnScreen and Controller.RunStaysOnScreen bound moves by [0, width] with the far edge included. A palm coordinate of exactly 1.0 maps to pixel `width`, one past the last pixel, as `int(1.0 * width)` does in the original. A strict bound holds only for palm coordinates below 1.0 (`Geometry.ScreenCoordinate`).
- Geometry.SqDist does not state that a zero distance implies equal points. The classifier never depends on that.
- `min_detection_confidence`, `min_tracking_confidence` and `max_num_hands` are settings of the detector, which is not part of this model.
