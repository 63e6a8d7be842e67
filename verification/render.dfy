/**
  What the view draws on each redraw: one marker circle per occupied slot, and
  the highest-degree Bezier curve the occupied slots 0..3 support.  The drawing
  calls themselves are not modelled; their outcome is returned as a value.
 */
module Render {
  import opened Registry

  /** The curve drawn through the registry's points. */
  datatype Curve =
    | NoCurve
    | Line(p0: Point, p1: Point)
    | Quad(p0: Point, c1: Point, p2: Point)
    | Cubic(p0: Point, c1: Point, c2: Point, p3: Point)

  /** The polynomial degree of a curve (0 when nothing is drawn). */
  function Degree(c: Curve): nat {
    match c
    case NoCurve => 0
    case Line(_, _) => 1
    case Quad(_, _, _) => 2
    case Cubic(_, _, _, _) => 3
  }

  /**
    Curve selection, testing slot presence in priority order: all four slots
    give a cubic from slot 0 to slot 3 with controls 1 and 2; otherwise slots
    0, 1 and 2 give a quadratic from 0 to 2 with control 1; otherwise slots 0
    and 1 give a line; otherwise nothing is drawn.
   */
  function SelectCurve(reg: State): (c: Curve)
    ensures c != NoCurve ==> Get(reg, 0) == Some(c.p0) && 1 in reg.touches
  {
    var p0, p1, p2, p3 := Get(reg, 0), Get(reg, 1), Get(reg, 2), Get(reg, 3);
    if p3.Some? && p2.Some? && p1.Some? && p0.Some? then
      Cubic(p0.value, p1.value, p2.value, p3.value)
    else if p2.Some? && p1.Some? && p0.Some? then
      Quad(p0.value, p1.value, p2.value)
    else if p1.Some? && p0.Some? then
      Line(p0.value, p1.value)
    else
      NoCurve
  }

  /** The number of consecutive occupied slots counting up from slot `from`, among slots below 4. */
  function RunFrom(reg: State, from: nat): (n: nat)
    requires from <= MaxCount
    ensures from + n <= MaxCount
    ensures forall i :: from <= i < from + n ==> i in reg.touches
    ensures from + n < MaxCount ==> from + n !in reg.touches
    decreases MaxCount - from
  {
    if from < MaxCount && from in reg.touches then 1 + RunFrom(reg, from + 1) else 0
  }

  /** The number of slots occupied without a gap from slot 0. */
  function FilledPrefix(reg: State): (n: nat)
    ensures n <= MaxCount
    ensures forall i :: 0 <= i < n ==> i in reg.touches
    ensures n < MaxCount ==> n !in reg.touches
  {
    RunFrom(reg, 0)
  }

  /**
    The curve is determined by the gap-free prefix of slots: its degree is one
    less than the prefix length (none for a prefix of 0 or 1), and its points
    are the prefix's points in slot order.
   */
  lemma SelectCurveByPrefix(reg: State)
    ensures var n := FilledPrefix(reg);
      && (n <= 1 ==> SelectCurve(reg) == NoCurve)
      && (n == 2 ==> SelectCurve(reg) == Line(reg.touches[0], reg.touches[1]))
      && (n == 3 ==> SelectCurve(reg) == Quad(reg.touches[0], reg.touches[1], reg.touches[2]))
      && (n == 4 ==> SelectCurve(reg) == Cubic(reg.touches[0], reg.touches[1], reg.touches[2], reg.touches[3]))
  {
    var n := FilledPrefix(reg);
    if n < MaxCount {
      assert Get(reg, n) == None;
    }
  }

  /** The degree of the selected curve as a function of the gap-free prefix. */
  lemma CurveDegreeIsPrefixMinusOne(reg: State)
    ensures Degree(SelectCurve(reg)) == if FilledPrefix(reg) == 0 then 0 else FilledPrefix(reg) - 1
  {
    SelectCurveByPrefix(reg);
  }

  /** With slot 0 empty no curve is ever drawn, whatever the other slots hold. */
  lemma NoStartNoCurve(reg: State)
    requires 0 !in reg.touches
    ensures SelectCurve(reg) == NoCurve
  {
  }

  /** Slots {0, 1, 3} give a line: the gap at slot 2 hides the point in slot 3. */
  lemma GapAtTwoGivesLine(reg: State)
    requires reg.touches.Keys == {0, 1, 3}
    ensures SelectCurve(reg) == Line(reg.touches[0], reg.touches[1])
  {
    assert 2 !in reg.touches;
  }

  /**
    In a valid registry every slot up to the cursor is occupied, so the curve
    has at least the degree the cursor names.
   */
  lemma CurveDegreeAtLeastCursor(reg: State)
    requires Valid(reg)
    ensures Degree(SelectCurve(reg)) >= reg.cursor
  {
    SelectCurveByPrefix(reg);
    assert FilledPrefix(reg) > reg.cursor;
  }

  /**
    The lowest-degree curve through a run of points taken in order: a line
    through two, a quadratic through three, a cubic through four, and nothing
    for fewer than two.
   */
  function CurveThrough(s: seq<Point>): (c: Curve)
    requires |s| <= MaxCount
    ensures Degree(c) == if |s| == 0 then 0 else |s| - 1
  {
    if |s| == MaxCount then Cubic(s[0], s[1], s[2], s[3])
    else if |s| == MaxCount - 1 then Quad(s[0], s[1], s[2])
    else if |s| == MaxCount - 2 then Line(s[0], s[1])
    else NoCurve
  }

  /**
    A registry holding a run of points in slots 0, 1, ... draws the curve
    through that run, in order, wherever its cursor is.
   */
  lemma CurveOfRound(s: seq<Point>, cursor: int)
    requires |s| <= MaxCount
    ensures SelectCurve(State(Slots(s), cursor)) == CurveThrough(s)
  {
    var reg := State(Slots(s), cursor);
    if |s| < MaxCount {
      assert Get(reg, |s|) == None;
    }
  }

  /** A marker circle drawn at an occupied slot. */
  datatype Marker = Marker(slot: int, center: Point, radius: real)

  /**
    The marker loop of a redraw: walks slots 0..3 in order and, for each
    occupied slot, emits a circle at its point with that slot's animated
    radius.
   */
  method DrawMarkers(reg: State, radii: seq<real>) returns (ms: seq<Marker>)
    requires |radii| == MaxCount
    ensures forall j :: 0 <= j < |ms| ==>
      && 0 <= ms[j].slot < MaxCount
      && ms[j].slot in reg.touches
      && ms[j].center == reg.touches[ms[j].slot]
      && ms[j].radius == radii[ms[j].slot]
    ensures forall j, k :: 0 <= j < k < |ms| ==> ms[j].slot < ms[k].slot
    ensures forall i :: 0 <= i < MaxCount && i in reg.touches ==> exists j :: 0 <= j < |ms| && ms[j].slot == i
  {
    ms := [];
    var i := 0;
    while i < MaxCount
      invariant 0 <= i <= MaxCount
      invariant forall j :: 0 <= j < |ms| ==>
        && 0 <= ms[j].slot < i
        && ms[j].slot in reg.touches
        && ms[j].center == reg.touches[ms[j].slot]
        && ms[j].radius == radii[ms[j].slot]
      invariant forall j, k :: 0 <= j < k < |ms| ==> ms[j].slot < ms[k].slot
      invariant forall s :: 0 <= s < i && s in reg.touches ==> exists j :: 0 <= j < |ms| && ms[j].slot == s
    {
      var p := Get(reg, i);
      if p.Some? {
        ghost var before := ms;
        ms := ms + [Marker(i, p.value, radii[i])];
        assert forall j :: 0 <= j < |before| ==> ms[j] == before[j];
        assert ms[|ms| - 1].slot == i;
      }
      i := i + 1;
    }
  }
}
