/**
  The point registry of the Bezier drawing view: a sparse map from slot key to
  touch point (the view keeps it in an Android SparseArray) together with the
  cursor naming the most recently registered slot.  Slots 0..3 are the curve's
  start point, its two control points and its end point.
 */
module Registry {

  /** Number of slots in the registry. */
  const MaxCount: int := 4

  /** A touch position in whole pixels. */
  datatype Point = Point(x: int, y: int)

  /** An optional value, standing for a nullable lookup result. */
  datatype Option<T> = None | Some(value: T)

  /** The registry: stored points by key, and the cursor (-1 before the first point). */
  datatype State = State(touches: map<int, Point>, cursor: int)

  /**
    Java's `%` by MaxCount, the only modulus the view uses.  Java's remainder
    truncates toward zero: it differs from the dividend by a multiple of the
    modulus, is smaller than the modulus in magnitude, and takes the sign of
    the dividend (Dafny's `%` is Euclidean and never negative).
   */
  function JavaRem(a: int): (r: int)
    ensures -MaxCount < r < MaxCount
    ensures 0 <= a ==> 0 <= r
    ensures a < 0 ==> r <= 0
    ensures (a - r) % MaxCount == 0
  {
    if a >= 0 then a % MaxCount
    else
      var q, t := (-a) / MaxCount, (-a) % MaxCount;
      assert a + t == -MaxCount * q;
      -t
  }

  /**
    Java's remainder is pinned down by its definition: any value that differs
    from the dividend by a multiple of 4, is below 4 in magnitude and has the
    dividend's sign is the one JavaRem computes.
   */
  lemma JavaRemIsDetermined(a: int, r: int)
    requires -MaxCount < r < MaxCount
    requires 0 <= a ==> 0 <= r
    requires a < 0 ==> r <= 0
    requires (a - r) % MaxCount == 0
    ensures r == JavaRem(a)
  {
  }

  /** Looks a key up; an absent key reads as None (null in the view). */
  function Get(reg: State, key: int): (r: Option<Point>)
    ensures r.Some? <==> key in reg.touches
    ensures r.Some? ==> r.value == reg.touches[key]
  {
    if key in reg.touches then Some(reg.touches[key]) else None
  }

  /** The registry as the view creates it: no points, cursor unset. */
  function Initial(): (reg: State)
    ensures Valid(reg)
    ensures reg.cursor == -1
    ensures forall key :: Get(reg, key) == None
  {
    State(map[], -1)
  }

  /**
    The registry invariant: the cursor is unset or a slot number, only slots
    0..3 are ever occupied, an unset cursor means an empty registry, and every
    slot from 0 up to the cursor is occupied (so the slot under the cursor is).
   */
  ghost function Valid(reg: State): (b: bool)
    ensures b && reg.cursor != -1 ==> Get(reg, reg.cursor).Some?
    ensures b ==> (reg.cursor == -1 <==> reg.touches.Keys == {})
    ensures b ==> forall key :: key < 0 || MaxCount <= key ==> Get(reg, key) == None
  {
    && -1 <= reg.cursor < MaxCount
    && (forall key :: key in reg.touches ==> 0 <= key < MaxCount)
    && (reg.cursor == -1 ==> reg.touches == map[])
    && (forall i :: 0 <= i <= reg.cursor ==> i in reg.touches)
  }

  /**
    Registers a new point: the cursor advances by one modulo 4; when it comes
    back to 0 every slot is cleared first; then the point is stored under the
    cursor.
   */
  function Register(reg: State, p: Point): (r: State)
    ensures -1 <= reg.cursor ==> 0 <= r.cursor < MaxCount && r.cursor == (reg.cursor + 1) % MaxCount
    ensures Get(r, r.cursor) == Some(p)
    ensures r.cursor == 0 ==> forall key :: key != 0 ==> Get(r, key) == None
    ensures r.cursor != 0 ==> forall key :: key != r.cursor ==> Get(r, key) == Get(reg, key)
    ensures Valid(reg) ==> Valid(r)
  {
    var next := JavaRem(reg.cursor + 1);
    var kept := if next == 0 then map[] else reg.touches;
    State(kept[next := p], next)
  }

  /**
    The slot a move of the given pointer writes to: pointer 0 edits the slot
    under the cursor, pointers 1..3 edit the slot of their own number, and any
    other pointer edits nothing.
   */
  function UpdateTarget(reg: State, pointerId: int): (r: Option<int>)
    ensures r.Some? <==> 0 <= pointerId < MaxCount
    ensures pointerId == 0 ==> r == Some(reg.cursor)
    ensures 0 < pointerId < MaxCount ==> r == Some(pointerId)
  {
    if pointerId == 0 then Some(reg.cursor)
    else if 0 < pointerId < MaxCount then Some(pointerId)
    else None
  }

  /**
    Moves a point: overwrites the slot chosen by UpdateTarget, or does nothing
    for an out-of-range pointer id.  The cursor never changes.
   */
  function Update(reg: State, p: Point, pointerId: int): (r: State)
    ensures r.cursor == reg.cursor
    ensures forall slot :: UpdateTarget(reg, pointerId) == Some(slot) ==> Get(r, slot) == Some(p)
    ensures forall key :: UpdateTarget(reg, pointerId) != Some(key) ==> Get(r, key) == Get(reg, key)
    ensures Valid(reg) && reg.cursor != -1 ==> Valid(r)
  {
    match UpdateTarget(reg, pointerId)
    case Some(slot) => State(reg.touches[slot := p], reg.cursor)
    case None => reg
  }

  /** Under the invariant, a set cursor always names an occupied slot. */
  lemma CursorSlotOccupied(reg: State)
    requires Valid(reg)
    requires reg.cursor != -1
    ensures Get(reg, reg.cursor).Some?
  {
  }

  /**
    Registering onto a registry whose cursor is at slot 3 starts a new
    drawing: exactly slot 0 is occupied afterwards, holding the new point.
   */
  lemma RegisterWraps(reg: State, p: Point)
    requires Valid(reg)
    requires reg.cursor == MaxCount - 1
    ensures Register(reg, p).cursor == 0
    ensures Register(reg, p).touches == map[0 := p]
  {
  }

  /** The registry contents that hold the points of `s` in slots 0, 1, ... in order. */
  function Slots(s: seq<Point>): (m: map<int, Point>)
    ensures forall key :: key in m <==> 0 <= key < |s|
    ensures forall i :: 0 <= i < |s| ==> m[i] == s[i]
  {
    map i | 0 <= i < |s| :: s[i]
  }

  /** Appending a point to a run of slots stores it in the next slot. */
  lemma SlotsSnoc(s: seq<Point>, p: Point)
    ensures Slots(s + [p]) == Slots(s)[|s| := p]
  {
    var a, b := Slots(s + [p]), Slots(s)[|s| := p];
    assert forall key :: key in a <==> key in b;
    assert forall key :: key in a ==> a[key] == b[key];
  }

  /** The registry after registering the points of `pts` in order, starting from construction. */
  function RegisterAll(pts: seq<Point>): (reg: State)
    ensures Valid(reg)
    ensures pts != [] ==> Get(reg, reg.cursor) == Some(pts[|pts| - 1])
  {
    if pts == [] then Initial() else Register(RegisterAll(pts[..|pts| - 1]), pts[|pts| - 1])
  }

  /** Replaying one more point registers it on the registry reached so far. */
  lemma RegisterAllSnoc(prev: seq<Point>, p: Point)
    ensures RegisterAll(prev + [p]) == Register(RegisterAll(prev), p)
  {
    assert (prev + [p])[..|prev|] == prev;
  }

  /** How the cursor position k mod 4 moves on the next registration. */
  lemma RoundPosition(k: int)
    requires k >= 0
    ensures k % MaxCount <= k
    ensures k % MaxCount == MaxCount - 1 ==> (k + 1) % MaxCount == 0
    ensures k % MaxCount < MaxCount - 1 ==> (k + 1) % MaxCount == k % MaxCount + 1
  {
  }

  /**
    One registration on a registry holding a round of k points in slots
    0..k-1 with the cursor on the last: a fifth point starts a new round,
    otherwise the point joins the round in the next slot.
   */
  lemma RegisterExtendsRound(u: State, round: seq<Point>, p: Point)
    requires 1 <= |round| <= MaxCount
    requires u.cursor == |round| - 1 && u.touches == Slots(round)
    ensures |round| == MaxCount ==> Register(u, p) == State(Slots([p]), 0)
    ensures |round| < MaxCount ==> Register(u, p) == State(Slots(round + [p]), |round|)
  {
    if |round| == MaxCount {
      assert Slots([p]) == map[0 := p];
    } else {
      SlotsSnoc(round, p);
    }
  }

  /**
    The state after n >= 1 registrations from construction: the cursor is
    (n - 1) mod 4, and slots 0, 1, ... hold the last (n - 1) mod 4 + 1 points,
    the current round of up to four, in order.
   */
  ghost predicate InRound(pts: seq<Point>, reg: State)
    requires |pts| >= 1
  {
    var c := (|pts| - 1) % MaxCount;
    c <= |pts| - 1 && reg == State(Slots(pts[|pts| - 1 - c..]), c)
  }

  /** One registration after a full round of four starts a new round. */
  lemma RoundRestarts(prev: seq<Point>, p: Point, u: State)
    requires |prev| >= 1 && (|prev| - 1) % MaxCount == MaxCount - 1
    requires InRound(prev, u)
    ensures InRound(prev + [p], Register(u, p))
  {
    var pts := prev + [p];
    var k := |prev| - 1;
    RoundPosition(k);
    assert (|pts| - 1) % MaxCount == 0 by {
      assert |pts| - 1 == k + 1;
    }
    RegisterExtendsRound(u, prev[k - (MaxCount - 1)..], p);
    assert pts[|pts| - 1..] == [p];
  }

  /** One registration inside an unfinished round adds the point to that round. */
  lemma RoundGrows(prev: seq<Point>, p: Point, u: State)
    requires |prev| >= 1 && (|prev| - 1) % MaxCount < MaxCount - 1
    requires InRound(prev, u)
    ensures InRound(prev + [p], Register(u, p))
  {
    var pts := prev + [p];
    var k := |prev| - 1;
    RoundPosition(k);
    var c' := k % MaxCount;
    var c := (|pts| - 1) % MaxCount;
    assert c == c' + 1 by {
      assert |pts| - 1 == k + 1;
    }
    var round' := prev[k - c'..];
    RegisterExtendsRound(u, round', p);
    assert pts[|pts| - 1 - c..] == round' + [p];
  }

  /**
    After n >= 1 registrations from construction the registry is in its
    current round: the cursor is (n - 1) mod 4 and slots 0, 1, ... hold the
    last (n - 1) mod 4 + 1 points in order.
   */
  lemma {:induction false} RegisterAllFillsInOrder(pts: seq<Point>)
    requires |pts| >= 1
    ensures InRound(pts, RegisterAll(pts))
  {
    var n := |pts|;
    var prev, p := pts[..n - 1], pts[n - 1];
    assert pts == prev + [p];
    RegisterAllSnoc(prev, p);
    if n == 1 {
      assert pts[0..] == [p];
      assert Slots([p]) == map[0 := p];
    } else {
      RegisterAllFillsInOrder(prev);
      if (n - 2) % MaxCount == MaxCount - 1 {
        RoundRestarts(prev, p, RegisterAll(prev));
      } else {
        RoundGrows(prev, p, RegisterAll(prev));
      }
    }
  }

  /** The first four registrations from construction fill slots 0..n-1 in order. */
  lemma FirstRound(pts: seq<Point>)
    requires 1 <= |pts| <= MaxCount
    ensures RegisterAll(pts) == State(Slots(pts), |pts| - 1)
  {
    assert (|pts| - 1) % MaxCount == |pts| - 1;
    assert pts[0..] == pts;
    RegisterAllFillsInOrder(pts);
  }

  /** The 5th, 9th, ... registration leaves only its own point, in slot 0. */
  lemma NewRound(pts: seq<Point>)
    requires |pts| % MaxCount == 1
    ensures RegisterAll(pts) == State(map[0 := pts[|pts| - 1]], 0)
  {
    assert (|pts| - 1) % MaxCount == 0;
    assert pts[|pts| - 1..] == [pts[|pts| - 1]];
    assert Slots([pts[|pts| - 1]]) == map[0 := pts[|pts| - 1]];
    RegisterAllFillsInOrder(pts);
  }
}
