# CubicBezierView as a verified state machine

This project models the core of `CubicBezierView`, an Android view on which the
user taps up to four points and sees the lowest-degree Bezier curve through them.
The view has a line for two points, a quadratic for three and a cubic for four.
Each new point also gets a marker circle whose radius is animated and then reset.

The model has three modules:

- `Registry` (`registry.dfy`) is the point registry, whose state is the datatype `State`.
  - The touch map `mTouches` is an Android `SparseArray`, so it is modelled as a `map<int, Point>`.
  - The cursor `mCurrentTouchIndex` is -1 before the first point.
  - `Register` models `registerTouch`. The cursor advances modulo 4 using Java's truncating `%`, written out as `JavaRem`. When the cursor comes back to 0, every slot is cleared before the new point is stored.
  - `Update` models `updateTouch`. Pointer 0 writes the slot under the cursor, pointers 1..3 write their own slot, and any other pointer id writes nothing.
  - `Valid` is the invariant. The cursor is -1 or in 0..3. Only keys 0..3 are occupied. An unset cursor means an empty registry. Every slot from 0 up to the cursor is occupied.
  - `RegisterAll` and `InRound` describe what any number of registrations leaves behind.
- `Render` (`render.dfy`) covers what a redraw shows.
  - `SelectCurve` is the curve choice of `drawPath`, returned as a `Curve` value.
  - It is checked against two independent definitions. `FilledPrefix` counts the occupied slots with no gap from slot 0. `CurveThrough` gives the curve through a run of points by count.
  - `DrawMarkers` is the marker loop of `drawAnimatedTouches`.
- `BezierView` (`view.dfy`) is the view as a whole.
  - The state is the registry plus the four animated radii.
  - `OnTouchEvent` is the dispatcher. DOWN registers a point. MOVE beyond the touch slop updates a point. Every other case falls through as not consumed.
  - `SetRadius` and `OnAnimationEnd` are the animation callbacks.
  - `Run` replays a sequence of touch events.

The platform's values are parameters. `slop` is the scaled touch slop and
`baseRadius` is the dp-converted marker radius. Nothing else the view gets from
the platform is modelled.

Where the code and the widget's intended design differ, the model follows the code:

- A MOVE that arrives before any DOWN dereferences null and throws; it is not a no-op. `OnTouchEvent` therefore requires a point under the cursor for a MOVE.
- A MOVE by pointer 1..3 can occupy a slot that was empty, which leaves a gap. `SecondPointerLeavesGap` shows the occupancy {0, 2}. So "slots are filled in order from 0" holds after DOWN events only.
- The marker circle is drawn with the stored animated radius. The stored value already includes the base radius, because `setRadius` multiplies by `mRadius`.
- Clearing the registry on the fifth point does not touch the animated radii.

## Model

| member | source | states |
|---|---|---|
| Registry.JavaRem | app/src/main/java/com/rajasharan/curvepaths/CubicBezierView.java:173 | Java's remainder by 4: it differs from the dividend by a multiple of 4, lies strictly between -4 and 4, is non-negative for a non-negative dividend and non-positive for a negative one |
| Registry.JavaRemIsDetermined | app/src/main/java/com/rajasharan/curvepaths/CubicBezierView.java:173 | those four properties leave exactly one value, so they define Java's `%` by 4 completely |
| Registry.Get | app/src/main/java/com/rajasharan/curvepaths/CubicBezierView.java:97 | a `SparseArray.get` lookup: a value exactly for a stored key, and that key's point; null (None) for every other key |
| Registry.Valid | app/src/main/java/com/rajasharan/curvepaths/CubicBezierView.java:148 | the occupancy invariant behind the MOVE lookup: a set cursor names an occupied slot, the registry is empty exactly when the cursor is unset, and no key outside 0..3 is ever stored |
| Registry.Initial | app/src/main/java/com/rajasharan/curvepaths/CubicBezierView.java:52-55 | the registry starts empty with cursor -1, and that state satisfies the invariant |
| Registry.Register | app/src/main/java/com/rajasharan/curvepaths/CubicBezierView.java:171-177 | the cursor becomes (old + 1) mod 4 and stays in 0..3; the new point is stored under the cursor; at cursor 0 every other slot is empty; otherwise every other slot is unchanged; the invariant is preserved |
| Registry.Update | app/src/main/java/com/rajasharan/curvepaths/CubicBezierView.java:185-192 | only the slot chosen by the pointer id receives the point: the cursor slot for id 0, slot id for 1..3, none otherwise; every other slot and the cursor are unchanged; the invariant is preserved once the cursor is set |
| Registry.UpdateTarget | app/src/main/java/com/rajasharan/curvepaths/CubicBezierView.java:186-191 | a slot is written exactly when the pointer id is in 0..3; id 0 names the cursor slot and ids 1..3 their own slot |
| Registry.CursorSlotOccupied | app/src/main/java/com/rajasharan/curvepaths/CubicBezierView.java:148-150 | under the invariant a set cursor names an occupied slot, so the MOVE lookup finds a point |
| Registry.RegisterWraps | app/src/main/java/com/rajasharan/curvepaths/CubicBezierView.java:172-177 | registering with the cursor on slot 3 leaves exactly slot 0, holding the new point |
| Registry.RegisterExtendsRound | app/src/main/java/com/rajasharan/curvepaths/CubicBezierView.java:171-177 | on a registry holding k points in slots 0..k-1 with the cursor on the last, a fifth point starts over in slot 0; otherwise the point joins in slot k |
| Registry.RegisterAllFillsInOrder | app/src/main/java/com/rajasharan/curvepaths/CubicBezierView.java:171-177 | after n >= 1 registrations the cursor is (n-1) mod 4, and slots 0.. hold exactly the last (n-1) mod 4 + 1 points in order |
| Registry.FirstRound | app/src/main/java/com/rajasharan/curvepaths/CubicBezierView.java:171-177 | the first k <= 4 registrations fill slots 0..k-1 with the k points in order and leave the rest empty |
| Registry.NewRound | app/src/main/java/com/rajasharan/curvepaths/CubicBezierView.java:174-177 | the 5th, 9th, ... registration leaves only its own point, in slot 0 |
| Render.SelectCurve | app/src/main/java/com/rajasharan/curvepaths/CubicBezierView.java:104-128 | any curve drawn starts at slot 0's point and needs slot 1 |
| Render.SelectCurveByPrefix | app/src/main/java/com/rajasharan/curvepaths/CubicBezierView.java:104-128 | the choice follows the gap-free prefix of occupied slots: none for 0 or 1, a line for 2, a quadratic for 3 and a cubic for 4, through those slots' points in order |
| Render.CurveDegreeIsPrefixMinusOne | app/src/main/java/com/rajasharan/curvepaths/CubicBezierView.java:111-128 | the curve's degree is the gap-free prefix length minus one, or 0 for an empty prefix |
| Render.NoStartNoCurve | app/src/main/java/com/rajasharan/curvepaths/CubicBezierView.java:111-128 | with slot 0 empty no curve is drawn, whatever the other slots hold |
| Render.GapAtTwoGivesLine | app/src/main/java/com/rajasharan/curvepaths/CubicBezierView.java:111-128 | occupancy {0, 1, 3} draws the line from slot 0 to slot 1 |
| Render.CurveDegreeAtLeastCursor | app/src/main/java/com/rajasharan/curvepaths/CubicBezierView.java:104-128 | in a valid registry the curve's degree is at least the cursor |
| Render.CurveThrough | app/src/main/java/com/rajasharan/curvepaths/CubicBezierView.java:111-128 | the curve through k <= 4 points in order has degree k - 1, or 0 for no points |
| Render.CurveOfRound | app/src/main/java/com/rajasharan/curvepaths/CubicBezierView.java:104-128 | a registry holding a run of points in slots 0.. draws exactly the curve through that run |
| Render.DrawMarkers | app/src/main/java/com/rajasharan/curvepaths/CubicBezierView.java:95-102 | one marker per occupied slot 0..3, in slot order, each at that slot's point with that slot's animated radius |
| BezierView.Abs | app/src/main/java/com/rajasharan/curvepaths/CubicBezierView.java:150 | `Math.abs` on int: the result is the argument or its negation, never negative, and at least both |
| BezierView.BeyondSlop | app/src/main/java/com/rajasharan/curvepaths/CubicBezierView.java:150 | a move passes the jitter filter exactly when it leaves the box of half-width slop around the cursor point on some axis |
| BezierView.Initialize | app/src/main/java/com/rajasharan/curvepaths/CubicBezierView.java:51-55 | the view starts with no points, cursor -1, all four radii 0 and no curve; the invariant holds |
| BezierView.SetRadius | app/src/main/java/com/rajasharan/curvepaths/CubicBezierView.java:81-86 | only the cursor slot's radius is written, as baseRadius * r, and nothing at all before the first point |
| BezierView.OnAnimationEnd | app/src/main/java/com/rajasharan/curvepaths/CubicBezierView.java:207-211 | all animated radii become 0 and the registry is unchanged |
| BezierView.OnTouchEvent | app/src/main/java/com/rajasharan/curvepaths/CubicBezierView.java:132-169 | an event is consumed exactly for a DOWN or a MOVE beyond the slop; an unconsumed event changes nothing; a DOWN's point lands under the new cursor; radii are untouched and the invariant is preserved |
| BezierView.FirstDown | app/src/main/java/com/rajasharan/curvepaths/CubicBezierView.java:171-177 | the first DOWN after construction leaves exactly its point in slot 0, cursor 0 |
| BezierView.DownAdvancesCursor | app/src/main/java/com/rajasharan/curvepaths/CubicBezierView.java:141-145 | every DOWN is consumed and moves the cursor to (old + 1) mod 4, within 0..3 |
| BezierView.DownAfterFourthClears | app/src/main/java/com/rajasharan/curvepaths/CubicBezierView.java:174-177 | a DOWN with the cursor on slot 3 leaves only the new point, in slot 0 |
| BezierView.MoveWithinSlopIsInert | app/src/main/java/com/rajasharan/curvepaths/CubicBezierView.java:147-168 | a MOVE within the slop of the cursor point on both axes changes nothing and is not consumed, for every pointer id |
| BezierView.MoveBeyondSlopUpdatesOneSlot | app/src/main/java/com/rajasharan/curvepaths/CubicBezierView.java:147-156 | a MOVE beyond the slop is consumed; pointer 0 rewrites the cursor slot, pointers 1..3 their own slot, other ids nothing; every other slot, the cursor and the radii are unchanged |
| BezierView.OtherActionsAreInert | app/src/main/java/com/rajasharan/curvepaths/CubicBezierView.java:159-168 | POINTER_DOWN, POINTER_UP, UP, CANCEL and unlisted actions change nothing and are not consumed |
| BezierView.SecondPointerLeavesGap | app/src/main/java/com/rajasharan/curvepaths/CubicBezierView.java:189-191 | a DOWN followed by a pointer-2 MOVE beyond the slop occupies slots {0, 2} and draws no curve |
| BezierView.Run | app/src/main/java/com/rajasharan/curvepaths/CubicBezierView.java:132-169 | replaying events keeps the invariant and never touches the radii; once any DOWN has happened the cursor is set, so later MOVEs are safe |
| BezierView.RunDownsRegisters | app/src/main/java/com/rajasharan/curvepaths/CubicBezierView.java:141-145 | replaying DOWN events from construction registers their points in order |
| BezierView.DownsFillInOrder | app/src/main/java/com/rajasharan/curvepaths/CubicBezierView.java:171-177 | after n >= 1 DOWNs the cursor is (n-1) mod 4 and the current round's points occupy slots 0.. in order |
| BezierView.DownsUpToFour | app/src/main/java/com/rajasharan/curvepaths/CubicBezierView.java:141-145 | k <= 4 DOWNs fill slots 0..k-1 in order, leave the rest empty and draw the curve through the k points |
| BezierView.DownAfterEveryFourthRestarts | app/src/main/java/com/rajasharan/curvepaths/CubicBezierView.java:174-177 | the 5th, 9th, ... DOWN leaves only its point, in slot 0, and no curve |
| BezierView.FiveTapScenario | app/src/main/java/com/rajasharan/curvepaths/CubicBezierView.java:111-128 | taps (10,10), (20,10), (30,30), (40,10) draw nothing, then a line, a quadratic and a cubic; a fifth tap at (5,5) leaves that point alone and no curve |

## Left out

- Canvas, Paint and Path calls (`drawCircle`, `drawPath`, `rewind`, `moveTo`, `lineTo`, `quadTo`, `cubicTo`) are rendering API. The outcome of a redraw is returned as a `Curve` value and a list of `Marker`s.
- `setPaintAlpha` and the fill alpha are left out. The alpha is a Paint property with no effect on the registry or the curve.
- The `ObjectAnimator` is left out: its 500 ms duration, the `DecelerateInterpolator(2f)` easing and the 255 to 0 / 0 to 2 value ranges. These are time-driven, floating-point framework behaviour. Radii are reals written by `SetRadius` with whatever value the animator supplies, and zeroed by `OnAnimationEnd`.
- The cancel-then-start of the animator inside `registerTouch` (lines 179-182) is left out. Whether `onAnimationEnd` fires on cancel is framework behaviour, so a DOWN in the model leaves the radii unchanged.
- `TypedValue.applyDimension` and `ViewConfiguration.getScaledTouchSlop()` are platform lookups. They become the parameters `baseRadius` and `slop`.
- `invalidate`, `invalidateTouch`, `Log.d` and the constructors are UI plumbing with no effect on the modelled state. The call to `super.onTouchEvent` is modelled as "not consumed".
- `getActionIndex` and `getPointerId` are left out. An event carries the id of the pointer whose position it carries. For a MOVE that is the pointer at index 0, so a MOVE is never dispatched per pointer.
- BezierView.OnTouchEvent: coordinates are already whole numbers, and the `(int)` cast of the float position is not modelled.
- BezierView.OnTouchEvent: coordinates and their differences are unbounded integers. The 32-bit wrap-around of `prev.x - x` and `Math.abs(Integer.MIN_VALUE)` are not modelled; they only matter for positions near the int range limits.
- BezierView.OnTouchEvent: a MOVE with no point under the cursor, which throws a NullPointerException in the view, is excluded by the precondition and not modelled as an outcome.
- BezierView.SetRadius: the radius array has a fixed length of 4. A cursor outside -1..|radii|-1 would throw, so it is excluded by the precondition.
- Registry.Register: the cursor increment uses unbounded integers. Java's overflow at `Integer.MAX_VALUE` cannot occur under the invariant, which keeps the cursor in -1..3.
