/** Arcs of a Petri net: a weighted, directed connection from one node to another along a path of vertices. */
module Arcs {
  import opened Geometry
  import opened Wrappers
  import opened Artifacts
  import opened Vertices
  import opened Paths
  import opened Nodes

  /** The values an arc holds besides its selection flag. */
  datatype ArcData = ArcData(source: Node?, target: Node?, vertices: seq<Vertex>, weight: int, state: Activation)

  /** The waypoints a sequence of vertices describes. */
  ghost function Waypoints(vs: seq<Vertex>): (ps: seq<Waypoint>)
    reads vs`point
    ensures |ps| == |vs|
    ensures forall i :: 0 <= i < |vs| ==> ps[i] == Waypoint(vs[i].role, vs[i].point)
  {
    if vs == [] then []
    else
      var front := vs[..|vs| - 1];
      assert forall i :: 0 <= i < |front| ==> front[i] == vs[i];
      Waypoints(front) + [Waypoint(vs[|vs| - 1].role, vs[|vs| - 1].point)]
  }

  class Arc {
    var source: Node?
    var target: Node?
    var vertices: seq<Vertex>
    var weight: int
    var selected: bool
    var state: Activation

    ghost function Data(): ArcData
      reads this`source, this`target, this`vertices, this`weight, this`state
    {
      ArcData(source, target, vertices, weight, state)
    }

    /** The path the arc's vertices currently describe. */
    ghost function Path(): (ps: seq<Waypoint>)
      reads this`vertices, vertices`point
      ensures |ps| == |vertices|
      ensures forall i :: 0 <= i < |vertices| ==> ps[i] == Waypoint(vertices[i].role, vertices[i].point)
    {
      Waypoints(vertices)
    }

    /** new_arc: an arc of weight 1 with no ends and no vertices yet. */
    constructor ()
      ensures source == null && target == null
      ensures vertices == [] && weight == 1
    {
      source := null;
      target := null;
      vertices := [];
      weight := 1;
      selected := false;
      state := Inactive;
    }

    /**
     * create_arc: an arc of weight 1 from s to t whose path is a single
     * segment between two new vertices placed on the nodes' positions.
     */
    constructor Between(s: Node, t: Node)
      ensures source == s && target == t && weight == 1
      ensures |vertices| == 2 && fresh(vertices[0]) && fresh(vertices[1]) && vertices[0] != vertices[1]
      ensures Path() == [Waypoint(Source, s.position), Waypoint(Target, t.position)]
      ensures !vertices[0].selected && !vertices[1].selected
    {
      source := s;
      target := t;
      weight := 1;
      selected := false;
      state := Inactive;
      var vs := new Vertex(Source, s.position);
      var vt := new Vertex(Target, t.position);
      vertices := [vs, vt];
    }

    /** arc_add_vertex: appends a vertex at the target end. */
    method AddVertex(v: Vertex)
      modifies this`vertices
      ensures vertices == old(vertices) + [v]
    {
      vertices := vertices + [v];
    }

    /** is_arc_at_point: some segment of the path passes within tolerance of p. */
    method IsArcAtPoint(p: Point) returns (hit: bool)
      ensures hit <==> OnPath(Path(), p)
    {
      var i := 0;
      var previous: Vertex? := null;
      while i < |vertices|
        invariant 0 <= i <= |vertices|
        invariant previous == if i == 0 then null else vertices[i - 1]
        invariant forall j :: 1 <= j < i ==> !SegmentHit(Path(), j, p)
      {
        if previous != null {
          if PointOnLine(previous.point, vertices[i].point, p, LineTolerance) {
            assert SegmentHit(Path(), i, p);
            return true;
          }
        }
        previous := vertices[i];
        i := i + 1;
      }
      return false;
    }

    /**
     * arc_set_vertex: inserts a new control vertex at p before the end of the
     * first segment through p; an arc whose path misses p is left unchanged.
     */
    method SetVertex(p: Point)
      modifies this`vertices
      ensures Path() == WithControl(old(Path()), p)
      ensures FirstHit(old(Path()), p).None? ==> vertices == old(vertices)
      ensures FirstHit(old(Path()), p).Some? ==>
        var i := FirstHit(old(Path()), p).value;
        vertices == old(vertices)[..i] + [vertices[i]] + old(vertices)[i..] &&
        fresh(vertices[i]) && !vertices[i].selected
    {
      ghost var ps := Path();
      var i := 0;
      var located := false;
      var previous: Vertex? := null;
      while i < |vertices| && !located
        invariant 0 <= i <= |vertices|
        invariant !located
        invariant previous == if i == 0 then null else vertices[i - 1]
        invariant forall j :: 1 <= j < i ==> !SegmentHit(ps, j, p)
      {
        if previous != null {
          if PointOnLine(previous.point, vertices[i].point, p, LineTolerance) {
            assert SegmentHit(ps, i, p);
            located := true;
            break;
          }
        }
        previous := vertices[i];
        i := i + 1;
      }
      if located {
        assert FirstHit(ps, p) == Some(i);
        InsertControl(i, p);
      } else {
        assert FirstHit(ps, p) == None;
      }
    }

    /** The insertion step of arc_set_vertex: a new unselected control vertex at p goes in at index i. */
    method InsertControl(i: nat, p: Point)
      requires i <= |vertices|
      modifies this`vertices
      ensures |vertices| == |old(vertices)| + 1
      ensures vertices == old(vertices)[..i] + [vertices[i]] + old(vertices)[i..]
      ensures fresh(vertices[i]) && !vertices[i].selected
      ensures Path() == InsertAt(old(Path()), i, Waypoint(Control, p))
    {
      ghost var ps := Path();
      var v := new Vertex(Control, p);
      vertices := vertices[..i] + [v] + vertices[i..];
      assert Path() == InsertAt(ps, i, Waypoint(Control, p));
    }

    /** arc_get_vertex: the first control vertex within reach of p, if any. */
    method GetVertex(p: Point) returns (v: Vertex?)
      ensures FirstHandle(Path(), p).None? ==> v == null
      ensures FirstHandle(Path(), p).Some? ==> v == vertices[FirstHandle(Path(), p).value]
      ensures v != null ==> v in vertices && v.role == Control && PointOnPoint(v.point, p, HandleReach)
    {
      var i := 0;
      while i < |vertices|
        invariant 0 <= i <= |vertices|
        invariant FirstHandle(Path(), p) == FirstHandleFrom(Path(), p, i)
      {
        if vertices[i].role == Control && PointOnPoint(vertices[i].point, p, HandleReach) {
          return vertices[i];
        }
        i := i + 1;
      }
      return null;
    }

    /** arc_get_path_bounds: the largest coordinates reached by the path, counting from the origin. */
    method GetPathBounds() returns (r: Point)
      ensures r == Reach(Path())
    {
      r := Point(0, 0);
      var i := 0;
      while i < |vertices|
        invariant 0 <= i <= |vertices|
        invariant r == Reach(Path()[..i])
      {
        var v := vertices[i].point;
        assert Path()[..i + 1][..i] == Path()[..i];
        r := Point(if v.x > r.x then v.x else r.x, if v.y > r.y then v.y else r.y);
        i := i + 1;
      }
      assert Path()[..i] == Path();
    }

    /** arc_edit_handler: field 1 of the property editor sets the weight; any other field changes nothing. */
    method Edit(field: int, tokens: int)
      modifies this`weight
      ensures weight == if field == 1 then tokens else old(weight)
    {
      if field == 1 {
        weight := tokens;
      }
    }
  }
}
