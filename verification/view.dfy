/**
  The Bezier drawing view as a state machine: the point registry together with
  the four animated marker radii, the touch-event dispatcher that registers or
  moves points, and the animation callbacks that write and reset the radii.
 */
module BezierView {
  import opened Registry
  import opened Render

  /** The view's mutable state, read together on every redraw. */
  datatype View = View(reg: State, radii: seq<real>)

  /** The view invariant: a valid registry and one animated radius per slot. */
  ghost predicate Invariant(v: View) {
    Valid(v.reg) && |v.radii| == MaxCount
  }

  /** The state the view is constructed in: no points, cursor unset, all radii zero. */
  function Initialize(): (v: View)
    ensures Invariant(v)
    ensures v.reg.cursor == -1
    ensures forall key :: Get(v.reg, key) == None
    ensures forall i :: 0 <= i < |v.radii| ==> v.radii[i] == 0.0
    ensures SelectCurve(v.reg) == NoCurve
  {
    View(Initial(), [0.0, 0.0, 0.0, 0.0])
  }

  /**
    Animation tick: the marker of the slot under the cursor gets radius
    `baseRadius * r`; before the first point (cursor unset) nothing changes.
    Indexing the radius array with any other cursor would throw, hence the
    precondition.
   */
  function SetRadius(v: View, baseRadius: real, r: real): (w: View)
    requires v.reg.cursor == -1 || 0 <= v.reg.cursor < |v.radii|
    ensures w.reg == v.reg
    ensures |w.radii| == |v.radii|
    ensures forall i :: 0 <= i < |v.radii| && i != v.reg.cursor ==> w.radii[i] == v.radii[i]
    ensures v.reg.cursor != -1 ==> w.radii[v.reg.cursor] == baseRadius * r
    ensures Invariant(v) ==> Invariant(w)
  {
    if v.reg.cursor != -1 then v.(radii := v.radii[v.reg.cursor := baseRadius * r]) else v
  }

  /** Animation end (also fired on cancel): every animated radius goes back to zero. */
  method OnAnimationEnd(v: View) returns (w: View)
    ensures w.reg == v.reg
    ensures |w.radii| == |v.radii|
    ensures forall i :: 0 <= i < |w.radii| ==> w.radii[i] == 0.0
  {
    var radii := v.radii;
    var i := 0;
    while i < |radii|
      invariant |radii| == |v.radii|
      invariant 0 <= i <= |radii|
      invariant forall j :: 0 <= j < i ==> radii[j] == 0.0
    {
      radii := radii[i := 0.0];
      i := i + 1;
    }
    w := v.(radii := radii);
  }

  /** The masked action of a motion event. */
  datatype Action = Down | Move | PointerDown | PointerUp | Up | Cancel | OtherAction

  /**
    A motion event: its action, position (already truncated to int) and the id
    of the pointer whose position the event carries.  For a MOVE that is the
    pointer at index 0, so a MOVE is never dispatched per pointer.
   */
  datatype MotionEvent = MotionEvent(action: Action, x: int, y: int, pointerId: int)

  /** The view after an event, and whether the event was consumed. */
  datatype Handled = Handled(view: View, consumed: bool)

  /** Math.abs on int: the magnitude, never negative. */
  function Abs(a: int): (r: nat)
    ensures r == a || r == -a
    ensures r >= a && r >= -a
  {
    if a < 0 then -a else a
  }

  /** The jitter filter: a move counts only if it leaves the slop box around `prev` on some axis. */
  function BeyondSlop(prev: Point, x: int, y: int, slop: int): (b: bool)
    ensures !b <==> prev.x - slop <= x <= prev.x + slop && prev.y - slop <= y <= prev.y + slop
  {
    Abs(prev.x - x) > slop || Abs(prev.y - y) > slop
  }

  /**
    The touch dispatcher.  DOWN registers the event's point and is consumed.
    MOVE compares the event's position with the point under the cursor (for
    every pointer id) and, beyond the slop, updates the registry and is
    consumed; within the slop it falls through.  Every other action falls
    through to the default handling: nothing changes and the event is not
    consumed.  A MOVE with no point under the cursor dereferences null in the
    view, hence the precondition.
   */
  function OnTouchEvent(v: View, e: MotionEvent, slop: int): (h: Handled)
    requires e.action == Move ==> v.reg.cursor in v.reg.touches
    ensures h.view.radii == v.radii
    ensures h.consumed <==>
      || e.action == Down
      || (e.action == Move && BeyondSlop(v.reg.touches[v.reg.cursor], e.x, e.y, slop))
    ensures !h.consumed ==> h.view == v
    ensures e.action == Down ==> Get(h.view.reg, h.view.reg.cursor) == Some(Point(e.x, e.y))
    ensures Invariant(v) ==> Invariant(h.view)
  {
    match e.action
    case Down =>
      Handled(v.(reg := Register(v.reg, Point(e.x, e.y))), true)
    case Move =>
      var prev := v.reg.touches[v.reg.cursor];
      if BeyondSlop(prev, e.x, e.y, slop) then
        Handled(v.(reg := Update(v.reg, Point(e.x, e.y), e.pointerId)), true)
      else
        Handled(v, false)
    case _ =>
      Handled(v, false)
  }

  /** The first DOWN after construction stores its point in slot 0, alone. */
  lemma FirstDown(e: MotionEvent, slop: int)
    requires e.action == Down
    ensures OnTouchEvent(Initialize(), e, slop).view.reg == State(map[0 := Point(e.x, e.y)], 0)
  {
  }

  /** Every DOWN advances the cursor by one modulo 4 and is consumed. */
  lemma DownAdvancesCursor(v: View, e: MotionEvent, slop: int)
    requires Invariant(v)
    requires e.action == Down
    ensures var h := OnTouchEvent(v, e, slop);
      && h.consumed
      && 0 <= h.view.reg.cursor < MaxCount
      && h.view.reg.cursor == (v.reg.cursor + 1) % MaxCount
  {
  }

  /** A DOWN with the cursor on slot 3 clears the registry: only slot 0, the new point, remains. */
  lemma DownAfterFourthClears(v: View, e: MotionEvent, slop: int)
    requires Invariant(v)
    requires v.reg.cursor == MaxCount - 1
    requires e.action == Down
    ensures OnTouchEvent(v, e, slop).view.reg == State(map[0 := Point(e.x, e.y)], 0)
  {
    RegisterWraps(v.reg, Point(e.x, e.y));
  }

  /**
    A MOVE within the slop on both axes of the point under the cursor changes
    nothing and is not consumed, whatever the pointer id.
   */
  lemma MoveWithinSlopIsInert(v: View, e: MotionEvent, slop: int)
    requires e.action == Move
    requires v.reg.cursor in v.reg.touches
    requires Abs(v.reg.touches[v.reg.cursor].x - e.x) <= slop
    requires Abs(v.reg.touches[v.reg.cursor].y - e.y) <= slop
    ensures OnTouchEvent(v, e, slop) == Handled(v, false)
  {
  }

  /**
    A MOVE beyond the slop is consumed and rewrites exactly one slot: the slot
    under the cursor for pointer 0, the slot numbered by the pointer for
    pointers 1..3, and none for any other pointer.  The cursor, the radii and
    every other slot are unchanged.
   */
  lemma MoveBeyondSlopUpdatesOneSlot(v: View, e: MotionEvent, slop: int)
    requires e.action == Move
    requires v.reg.cursor in v.reg.touches
    requires BeyondSlop(v.reg.touches[v.reg.cursor], e.x, e.y, slop)
    ensures var h := OnTouchEvent(v, e, slop);
      && h.consumed
      && h.view.reg.cursor == v.reg.cursor
      && h.view.radii == v.radii
      && (e.pointerId == 0 ==>
            forall key :: Get(h.view.reg, key) == if key == v.reg.cursor then Some(Point(e.x, e.y)) else Get(v.reg, key))
      && (0 < e.pointerId < MaxCount ==>
            forall key :: Get(h.view.reg, key) == if key == e.pointerId then Some(Point(e.x, e.y)) else Get(v.reg, key))
      && (e.pointerId < 0 || MaxCount <= e.pointerId ==> h.view == v)
  {
    var h := OnTouchEvent(v, e, slop);
    var target := UpdateTarget(v.reg, e.pointerId);
    if target.None? {
      assert h.view.reg == v.reg;
    }
  }

  /** POINTER_DOWN, POINTER_UP, UP, CANCEL and any other action change nothing and are not consumed. */
  lemma OtherActionsAreInert(v: View, e: MotionEvent, slop: int)
    requires e.action != Down && e.action != Move
    ensures OnTouchEvent(v, e, slop) == Handled(v, false)
  {
  }

  /**
    A MOVE by a second pointer can leave a gap in the registry: after one DOWN,
    pointer 2 moving beyond the slop occupies slots {0, 2}, and the curve is
    still none.
   */
  lemma SecondPointerLeavesGap(d: MotionEvent, m: MotionEvent, slop: int)
    requires d.action == Down
    requires m.action == Move && m.pointerId == 2
    requires BeyondSlop(Point(d.x, d.y), m.x, m.y, slop)
    ensures var v := OnTouchEvent(Initialize(), d, slop).view;
      && v.reg.cursor in v.reg.touches
      && var w := OnTouchEvent(v, m, slop).view;
      && w.reg.touches.Keys == {0, 2}
      && SelectCurve(w.reg) == NoCurve
  {
    var v := OnTouchEvent(Initialize(), d, slop).view;
    assert v.reg == State(map[0 := Point(d.x, d.y)], 0);
    var w := OnTouchEvent(v, m, slop).view;
    assert w.reg.touches == map[0 := Point(d.x, d.y), 2 := Point(m.x, m.y)];
  }

  /**
    A sequence of events can be replayed from `v` when every MOVE in it finds a
    set cursor: either `v` already has one, or some DOWN comes before the MOVE.
   */
  ghost predicate Replayable(v: View, es: seq<MotionEvent>) {
    forall j :: 0 <= j < |es| && es[j].action == Move ==>
      v.reg.cursor != -1 || exists i :: 0 <= i < j && es[i].action == Down
  }

  /**
    The view after a sequence of events.  The invariant holds throughout, the
    radii are never touched by touch events, and once any DOWN has happened
    the cursor is set.
   */
  function Run(v: View, es: seq<MotionEvent>, slop: int): (w: View)
    requires Invariant(v)
    requires Replayable(v, es)
    ensures Invariant(w)
    ensures w.radii == v.radii
    ensures (v.reg.cursor != -1 || exists i :: 0 <= i < |es| && es[i].action == Down) ==> w.reg.cursor != -1
    decreases |es|
  {
    if es == [] then v
    else
      var prefix := es[..|es| - 1];
      var e := es[|es| - 1];
      assert Replayable(v, prefix) by {
        forall j | 0 <= j < |prefix| && prefix[j].action == Move
          ensures v.reg.cursor != -1 || exists i :: 0 <= i < j && prefix[i].action == Down
        {
          assert es[j] == prefix[j];
          if v.reg.cursor == -1 {
            var i :| 0 <= i < j && es[i].action == Down;
            assert prefix[i] == es[i];
          }
        }
      }
      var u := Run(v, prefix, slop);
      assert e.action == Move ==> u.reg.cursor in u.reg.touches by {
        if e.action == Move && v.reg.cursor == -1 {
          var i :| 0 <= i < |es| - 1 && es[i].action == Down;
          assert prefix[i] == es[i];
        }
      }
      OnTouchEvent(u, e, slop).view
  }

  /** One DOWN event per point, each by the primary pointer. */
  function DownEvents(pts: seq<Point>): (es: seq<MotionEvent>)
    ensures |es| == |pts|
    ensures forall i :: 0 <= i < |es| ==> es[i].action == Down && Point(es[i].x, es[i].y) == pts[i]
  {
    seq(|pts|, i requires 0 <= i < |pts| => MotionEvent(Down, pts[i].x, pts[i].y, 0))
  }

  /** Replaying DOWN events from construction registers their points in order. */
  lemma {:induction false} RunDownsRegisters(pts: seq<Point>, slop: int)
    ensures Run(Initialize(), DownEvents(pts), slop).reg == RegisterAll(pts)
  {
    if pts != [] {
      var prev := pts[..|pts| - 1];
      assert DownEvents(pts)[..|prev|] == DownEvents(prev);
      RunDownsRegisters(prev, slop);
    }
  }

  /**
    After n >= 1 DOWN events from construction, the cursor is (n - 1) mod 4
    and the registry holds the last (n - 1) mod 4 + 1 points in slots 0, 1, ...
   */
  lemma DownsFillInOrder(pts: seq<Point>, slop: int)
    requires |pts| >= 1
    ensures InRound(pts, Run(Initialize(), DownEvents(pts), slop).reg)
  {
    RunDownsRegisters(pts, slop);
    RegisterAllFillsInOrder(pts);
  }

  /**
    Up to four DOWN events from construction fill slots 0..k-1 with the k
    points in order, leave the other slots empty, and draw the curve through
    them in order: a line for two, a quadratic for three, a cubic for four.
   */
  lemma DownsUpToFour(pts: seq<Point>, slop: int)
    requires 1 <= |pts| <= MaxCount
    ensures Run(Initialize(), DownEvents(pts), slop).reg == State(Slots(pts), |pts| - 1)
    ensures SelectCurve(Run(Initialize(), DownEvents(pts), slop).reg) == CurveThrough(pts)
  {
    RunDownsRegisters(pts, slop);
    FirstRound(pts);
    CurveOfRound(pts, |pts| - 1);
  }

  /**
    The 5th, 9th, ... DOWN event starts a new drawing: only slot 0 is
    occupied, holding that event's point, and no curve is drawn.
   */
  lemma DownAfterEveryFourthRestarts(pts: seq<Point>, slop: int)
    requires |pts| % MaxCount == 1
    ensures Run(Initialize(), DownEvents(pts), slop).reg == State(map[0 := pts[|pts| - 1]], 0)
    ensures SelectCurve(Run(Initialize(), DownEvents(pts), slop).reg) == NoCurve
  {
    RunDownsRegisters(pts, slop);
    NewRound(pts);
  }

  /**
    The walkthrough of five taps: no curve, then a line, a quadratic, a cubic,
    and after the fifth tap a single point and no curve again.
   */
  lemma FiveTapScenario(slop: int)
    ensures var pts := [Point(10, 10), Point(20, 10), Point(30, 30), Point(40, 10), Point(5, 5)];
      && SelectCurve(Run(Initialize(), DownEvents(pts[..1]), slop).reg) == NoCurve
      && SelectCurve(Run(Initialize(), DownEvents(pts[..2]), slop).reg) == Line(Point(10, 10), Point(20, 10))
      && SelectCurve(Run(Initialize(), DownEvents(pts[..3]), slop).reg)
           == Quad(Point(10, 10), Point(20, 10), Point(30, 30))
      && SelectCurve(Run(Initialize(), DownEvents(pts[..4]), slop).reg)
           == Cubic(Point(10, 10), Point(20, 10), Point(30, 30), Point(40, 10))
      && Run(Initialize(), DownEvents(pts), slop).reg.touches == map[0 := Point(5, 5)]
      && SelectCurve(Run(Initialize(), DownEvents(pts), slop).reg) == NoCurve
  {
    var pts := [Point(10, 10), Point(20, 10), Point(30, 30), Point(40, 10), Point(5, 5)];
    DownsUpToFour(pts[..1], slop);
    DownsUpToFour(pts[..2], slop);
    DownsUpToFour(pts[..3], slop);
    DownsUpToFour(pts[..4], slop);
    DownAfterEveryFourthRestarts(pts, slop);
  }
}
