/**
 * The path of an arc as a value: its vertices' roles and points, in order
 * from the source end to the target end. The hit tests and the control-point
 * insertion of an arc are defined here on that value.
 */
module Paths {
  import opened Geometry
  import opened Wrappers
  import opened Vertices

  datatype Waypoint = Waypoint(role: Role, point: Point)

  /** How far (in pixels) a point may be off a segment and still hit it. */
  const LineTolerance: int := 4
  /** How far a point may be from a control vertex, per axis, to pick it up. */
  const HandleReach: int := 4

  /** The segment ending at index i (from ps[i-1] to ps[i]) passes through p. */
  predicate SegmentHit(ps: seq<Waypoint>, i: int, p: Point)
    requires 1 <= i < |ps|
  {
    PointOnLine(ps[i - 1].point, ps[i].point, p, LineTolerance)
  }

  /** The path passes through p: some segment of it does. */
  predicate OnPath(ps: seq<Waypoint>, p: Point)
  {
    exists i :: 1 <= i < |ps| && SegmentHit(ps, i, p)
  }

  /** The end index of the first segment, from index `from` on, that passes through p. */
  function FirstHitFrom(ps: seq<Waypoint>, p: Point, from: nat): (r: Option<nat>)
    requires from >= 1
    ensures r.Some? ==> from <= r.value < |ps| && SegmentHit(ps, r.value, p)
    ensures r.Some? ==> forall j :: from <= j < r.value ==> !SegmentHit(ps, j, p)
    ensures r.None? ==> forall j :: from <= j < |ps| ==> !SegmentHit(ps, j, p)
    decreases |ps| - from
  {
    if from >= |ps| then None
    else if SegmentHit(ps, from, p) then Some(from)
    else FirstHitFrom(ps, p, from + 1)
  }

  function FirstHit(ps: seq<Waypoint>, p: Point): Option<nat>
  {
    FirstHitFrom(ps, p, 1)
  }

  /** A hit is found exactly when the path passes through the point. */
  lemma FirstHitFound(ps: seq<Waypoint>, p: Point)
    ensures FirstHit(ps, p).Some? <==> OnPath(ps, p)
  {
    if OnPath(ps, p) {
      var i :| 1 <= i < |ps| && SegmentHit(ps, i, p);
    }
  }

  function InsertAt<T>(s: seq<T>, i: nat, x: T): seq<T>
    requires i <= |s|
  {
    s[..i] + [x] + s[i..]
  }

  function RemoveAt<T>(s: seq<T>, i: nat): seq<T>
    requires i < |s|
  {
    s[..i] + s[i + 1..]
  }

  /**
   * arc_set_vertex on the path: a control point at p goes in before the end
   * of the first segment through p; a path that misses p is left as it is.
   */
  function WithControl(ps: seq<Waypoint>, p: Point): seq<Waypoint>
  {
    match FirstHit(ps, p)
    case None => ps
    case Some(i) => InsertAt(ps, i, Waypoint(Control, p))
  }

  /**
   * Inserting a control point keeps both ends of the path, lengthens it by
   * one exactly when the path passes through p, puts the point strictly
   * inside, and can be undone by removing it again.
   */
  lemma WithControlShape(ps: seq<Waypoint>, p: Point)
    requires |ps| >= 1
    ensures var r := WithControl(ps, p);
      |r| == (if OnPath(ps, p) then |ps| + 1 else |ps|) &&
      r[0] == ps[0] && r[|r| - 1] == ps[|ps| - 1]
    ensures OnPath(ps, p) ==>
      var i := FirstHit(ps, p).value;
      0 < i < |ps| &&
      WithControl(ps, p)[i] == Waypoint(Control, p) &&
      RemoveAt(WithControl(ps, p), i) == ps
    ensures !OnPath(ps, p) ==> WithControl(ps, p) == ps
  {
    FirstHitFound(ps, p);
    if OnPath(ps, p) {
      var i := FirstHit(ps, p).value;
      var r := WithControl(ps, p);
      assert r == ps[..i] + [Waypoint(Control, p)] + ps[i..];
      assert RemoveAt(r, i) == ps[..i] + ps[i..];
      assert ps[..i] + ps[i..] == ps;
    }
  }

  /** The point just inserted lies on the new path: on the segment that now ends at it. */
  lemma WithControlOnPath(ps: seq<Waypoint>, p: Point)
    requires OnPath(ps, p)
    ensures OnPath(WithControl(ps, p), p)
  {
    FirstHitFound(ps, p);
    var i := FirstHit(ps, p).value;
    var r := WithControl(ps, p);
    assert r[i] == Waypoint(Control, p);
    EndpointsOnLine(r[i - 1].point, p, LineTolerance);
    assert SegmentHit(r, i, p);
  }

  /** The index of the first control vertex, from index `from` on, within reach of p. */
  function FirstHandleFrom(ps: seq<Waypoint>, p: Point, from: nat): (r: Option<nat>)
    ensures r.Some? ==> from <= r.value < |ps| && ps[r.value].role == Control && PointOnPoint(ps[r.value].point, p, HandleReach)
    ensures r.Some? ==> forall j :: from <= j < r.value ==> !(ps[j].role == Control && PointOnPoint(ps[j].point, p, HandleReach))
    ensures r.None? ==> forall j :: from <= j < |ps| ==> !(ps[j].role == Control && PointOnPoint(ps[j].point, p, HandleReach))
    decreases |ps| - from
  {
    if from >= |ps| then None
    else if ps[from].role == Control && PointOnPoint(ps[from].point, p, HandleReach) then Some(from)
    else FirstHandleFrom(ps, p, from + 1)
  }

  function FirstHandle(ps: seq<Waypoint>, p: Point): Option<nat>
  {
    FirstHandleFrom(ps, p, 0)
  }

  /** The path's reach: the largest coordinates of its points, counting from the origin. */
  function Reach(ps: seq<Waypoint>): Point
  {
    if ps == [] then Point(0, 0)
    else
      var acc := Reach(ps[..|ps| - 1]);
      var v := ps[|ps| - 1].point;
      Point(if v.x > acc.x then v.x else acc.x, if v.y > acc.y then v.y else acc.y)
  }

  /** The reach is never negative, bounds every point of the path, and in each axis is 0 or one of the points' coordinates. */
  lemma {:induction false} ReachSpec(ps: seq<Waypoint>)
    ensures var r := Reach(ps);
      && r.x >= 0 && r.y >= 0
      && (forall i :: 0 <= i < |ps| ==> ps[i].point.x <= r.x && ps[i].point.y <= r.y)
      && (r.x == 0 || exists i :: 0 <= i < |ps| && ps[i].point.x == r.x)
      && (r.y == 0 || exists i :: 0 <= i < |ps| && ps[i].point.y == r.y)
  {
    if ps != [] {
      var front := ps[..|ps| - 1];
      ReachSpec(front);
      assert forall i :: 0 <= i < |front| ==> ps[i] == front[i];
    }
  }
}
