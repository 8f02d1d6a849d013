/**
 * What the net's per-node and per-arc actions compute, as functions of the
 * ordered collections they walk. The net's loops are proved against these.
 */
module Folds {
  import opened Geometry
  import opened Wrappers
  import opened Vertices
  import opened Paths
  import opened Nodes
  import opened Arcs
  import opened Seqs

  /** The vertices of all the arcs of a sequence: what reading their paths depends on. */
  ghost function VerticesOf(arcs: seq<Arc>): set<Vertex>
    reads arcs`vertices
  {
    set a, v | a in arcs && v in a.vertices :: v
  }

  /** The vertices of a front part, or of one arc, are among those of the whole sequence. */
  lemma VerticesOfParts(arcs: seq<Arc>, k: nat)
    requires k < |arcs|
    ensures VerticesOf(arcs[..k]) <= VerticesOf(arcs)
    ensures VerticesOf(arcs[k + 1..]) <= VerticesOf(arcs)
    ensures forall v :: v in arcs[k].vertices ==> v in VerticesOf(arcs)
  {
    assert arcs[k] in arcs;
    forall v | v in VerticesOf(arcs[..k]) ensures v in VerticesOf(arcs) {
      var a :| a in arcs[..k] && v in a.vertices;
      assert a in arcs;
    }
    forall v | v in VerticesOf(arcs[k + 1..]) ensures v in VerticesOf(arcs) {
      var a :| a in arcs[k + 1..] && v in a.vertices;
      assert a in arcs;
    }
  }

  /**
   * The next identifier for a kind of node: one more than the largest id in
   * use, and 0 when there is no node (or every id is negative).
   */
  ghost function NextId(ns: seq<Node>): (r: int)
    reads ns`id
    ensures r >= 0
    ensures forall i :: 0 <= i < |ns| ==> ns[i].id < r
    ensures r == 0 || exists i :: 0 <= i < |ns| && ns[i].id + 1 == r
  {
    if ns == [] then 0
    else
      var front := ns[..|ns| - 1];
      var acc := NextId(front);
      assert forall i :: 0 <= i < |front| ==> front[i] == ns[i];
      var id := ns[|ns| - 1].id;
      if id >= acc then id + 1 else acc
  }

  /** The index of the first node whose square contains p. */
  ghost function FirstAt(ns: seq<Node>, p: Point): (r: Option<nat>)
    reads ns`bounds
    ensures r.Some? ==> r.value < |ns|
  {
    if ns == [] then None
    else if ns[0].IsNodeAtPoint(p) then Some(0)
    else
      match FirstAt(ns[1..], p)
      case None => None
      case Some(i) => Some(i + 1)
  }

  /** FirstAt finds a node containing p with none before it, or reports that there is none. */
  lemma {:induction false} FirstAtSpec(ns: seq<Node>, p: Point)
    ensures var r := FirstAt(ns, p);
      (r.Some? ==> r.value < |ns| && ns[r.value].IsNodeAtPoint(p) &&
                   forall j :: 0 <= j < r.value ==> !ns[j].IsNodeAtPoint(p)) &&
      (r.None? ==> forall j :: 0 <= j < |ns| ==> !ns[j].IsNodeAtPoint(p))
  {
    if ns != [] && !ns[0].IsNodeAtPoint(p) {
      FirstAtSpec(ns[1..], p);
      assert forall j :: 1 <= j < |ns| ==> ns[j] == ns[1..][j - 1];
    }
  }

  /** FirstAt is the first index whose node contains p. */
  lemma FirstAtIs(ns: seq<Node>, p: Point, i: nat)
    requires i < |ns| && ns[i].IsNodeAtPoint(p)
    requires forall j :: 0 <= j < i ==> !ns[j].IsNodeAtPoint(p)
    ensures FirstAt(ns, p) == Some(i)
  {
    FirstAtSpec(ns, p);
  }

  /** net_find_node_by_point: the first place at p, else the first transition at p, else none. */
  ghost function NodeAt(places: seq<Node>, transitions: seq<Node>, p: Point): Node?
    reads places`bounds, transitions`bounds
  {
    match FirstAt(places, p)
    case Some(i) => places[i]
    case None =>
      match FirstAt(transitions, p)
      case Some(i) => transitions[i]
      case None => null
  }

  /**
   * The node found contains p and comes from one of the two collections;
   * none is found exactly when no node contains p; places are searched first.
   */
  lemma NodeAtSpec(places: seq<Node>, transitions: seq<Node>, p: Point)
    ensures var r := NodeAt(places, transitions, p);
      (r != null ==> (r in places || r in transitions) && r.IsNodeAtPoint(p)) &&
      (r == null <==> (forall j :: 0 <= j < |places| ==> !places[j].IsNodeAtPoint(p)) &&
                      (forall j :: 0 <= j < |transitions| ==> !transitions[j].IsNodeAtPoint(p))) &&
      ((exists j :: 0 <= j < |places| && places[j].IsNodeAtPoint(p)) ==> r in places)
  {
    FirstAtSpec(places, p);
    FirstAtSpec(transitions, p);
  }

  /** The nodes whose square contains p, in order. */
  ghost function NodesAt(ns: seq<Node>, p: Point): seq<Node>
    reads ns`bounds
  {
    if ns == [] then []
    else NodesAt(ns[..|ns| - 1], p) + (if ns[|ns| - 1].IsNodeAtPoint(p) then [ns[|ns| - 1]] else [])
  }

  /** Exactly the nodes whose square contains p are kept. */
  lemma {:induction false} NodesAtSpec(ns: seq<Node>, p: Point)
    ensures forall n <- NodesAt(ns, p) :: n in ns && n.IsNodeAtPoint(p)
    ensures forall n <- ns :: n.IsNodeAtPoint(p) ==> n in NodesAt(ns, p)
  {
    if ns != [] {
      var front := ns[..|ns| - 1];
      NodesAtSpec(front, p);
      assert ns == front + [ns[|ns| - 1]];
    }
  }

  /** No node is collected exactly when no node's square contains p. */
  lemma NodesAtEmpty(ns: seq<Node>, p: Point)
    ensures NodesAt(ns, p) == [] <==> forall j :: 0 <= j < |ns| ==> !ns[j].IsNodeAtPoint(p)
  {
    NodesAtSpec(ns, p);
    var r := NodesAt(ns, p);
    if r != [] {
      assert r[0] in r;
    }
    if exists j :: 0 <= j < |ns| && ns[j].IsNodeAtPoint(p) {
      var j :| 0 <= j < |ns| && ns[j].IsNodeAtPoint(p);
      assert ns[j] in ns;
    }
  }

  /** A click finds a node exactly when some place or transition contains the point. */
  lemma NodeAtFound(places: seq<Node>, transitions: seq<Node>, p: Point)
    ensures NodeAt(places, transitions, p) == null <==> NodesAt(places, p) + NodesAt(transitions, p) == []
  {
    NodeAtSpec(places, transitions, p);
    NodesAtEmpty(places, p);
    NodesAtEmpty(transitions, p);
  }

  /** The arcs whose path passes through p, in order. */
  ghost function ArcsAt(arcs: seq<Arc>, p: Point): seq<Arc>
    reads arcs`vertices, VerticesOf(arcs)`point
  {
    if arcs == [] then []
    else
      var front := arcs[..|arcs| - 1];
      VerticesOfParts(arcs, |arcs| - 1);
      ArcsAt(front, p) + (if OnPath(arcs[|arcs| - 1].Path(), p) then [arcs[|arcs| - 1]] else [])
  }

  /** Exactly the arcs whose path passes through p are kept. */
  lemma {:induction false} ArcsAtSpec(arcs: seq<Arc>, p: Point)
    ensures forall a <- ArcsAt(arcs, p) :: a in arcs && OnPath(a.Path(), p)
    ensures forall a <- arcs :: OnPath(a.Path(), p) ==> a in ArcsAt(arcs, p)
  {
    if arcs != [] {
      var front := arcs[..|arcs| - 1];
      ArcsAtSpec(front, p);
      assert arcs == front + [arcs[|arcs| - 1]];
    }
  }

  /** The arcs that leave node n, in order. */
  ghost function ArcsFrom(arcs: seq<Arc>, n: Node): seq<Arc>
    reads arcs`source
  {
    if arcs == [] then []
    else ArcsFrom(arcs[..|arcs| - 1], n) + (if arcs[|arcs| - 1].source == n then [arcs[|arcs| - 1]] else [])
  }

  /** Exactly the arcs leaving n are kept. */
  lemma {:induction false} ArcsFromSpec(arcs: seq<Arc>, n: Node)
    ensures forall a <- ArcsFrom(arcs, n) :: a in arcs && a.source == n
    ensures forall a <- arcs :: a.source == n ==> a in ArcsFrom(arcs, n)
  {
    if arcs != [] {
      var front := arcs[..|arcs| - 1];
      ArcsFromSpec(front, n);
      assert arcs == front + [arcs[|arcs| - 1]];
    }
  }

  /** The arcs that enter node n, in order. */
  ghost function ArcsTo(arcs: seq<Arc>, n: Node): seq<Arc>
    reads arcs`target
  {
    if arcs == [] then []
    else ArcsTo(arcs[..|arcs| - 1], n) + (if arcs[|arcs| - 1].target == n then [arcs[|arcs| - 1]] else [])
  }

  /** Exactly the arcs entering n are kept. */
  lemma {:induction false} ArcsToSpec(arcs: seq<Arc>, n: Node)
    ensures forall a <- ArcsTo(arcs, n) :: a in arcs && a.target == n
    ensures forall a <- arcs :: a.target == n ==> a in ArcsTo(arcs, n)
  {
    if arcs != [] {
      var front := arcs[..|arcs| - 1];
      ArcsToSpec(front, n);
      assert arcs == front + [arcs[|arcs| - 1]];
    }
  }

  /** The nodes whose position lies in the rectangle, in order. */
  ghost function NodesIn(ns: seq<Node>, b: Bounds): seq<Node>
    reads ns`position
  {
    if ns == [] then []
    else
      var front := ns[..|ns| - 1];
      assert forall i :: 0 <= i < |front| ==> front[i] == ns[i];
      NodesIn(front, b) + (if ns[|ns| - 1].IsNodeInBounds(b) then [ns[|ns| - 1]] else [])
  }

  /** Exactly the nodes whose position lies in the rectangle are kept. */
  lemma {:induction false} NodesInSpec(ns: seq<Node>, b: Bounds)
    ensures forall n <- NodesIn(ns, b) :: n in ns && n.IsNodeInBounds(b)
    ensures forall n <- ns :: n.IsNodeInBounds(b) ==> n in NodesIn(ns, b)
  {
    if ns != [] {
      var front := ns[..|ns| - 1];
      NodesInSpec(front, b);
      assert ns == front + [ns[|ns| - 1]];
    }
  }

  /** The selected nodes, in order. */
  ghost function SelectedNodes(ns: seq<Node>): seq<Node>
    reads ns`selected
  {
    if ns == [] then []
    else SelectedNodes(ns[..|ns| - 1]) + (if ns[|ns| - 1].selected then [ns[|ns| - 1]] else [])
  }

  /** Exactly the selected nodes are kept. */
  lemma {:induction false} SelectedNodesSpec(ns: seq<Node>)
    ensures forall n <- SelectedNodes(ns) :: n in ns && n.selected
    ensures forall n <- ns :: n.selected ==> n in SelectedNodes(ns)
  {
    if ns != [] {
      var front := ns[..|ns| - 1];
      SelectedNodesSpec(front);
      assert ns == front + [ns[|ns| - 1]];
    }
  }

  /** For each node in turn, the arcs leaving it. */
  ghost function SourcesOf(arcs: seq<Arc>, nodes: seq<Node>): seq<Arc>
    reads arcs`source
  {
    if nodes == [] then []
    else SourcesOf(arcs, nodes[..|nodes| - 1]) + ArcsFrom(arcs, nodes[|nodes| - 1])
  }

  /** Exactly the arcs leaving one of the nodes are kept. */
  lemma {:induction false} SourcesOfSpec(arcs: seq<Arc>, nodes: seq<Node>)
    ensures forall a <- SourcesOf(arcs, nodes) :: a in arcs && a.source in nodes
    ensures forall a <- arcs :: a.source in nodes ==> a in SourcesOf(arcs, nodes)
  {
    if nodes != [] {
      var front := nodes[..|nodes| - 1];
      var n := nodes[|nodes| - 1];
      SourcesOfSpec(arcs, front);
      ArcsFromSpec(arcs, n);
      assert nodes == front + [n];
    }
  }

  /** For each node in turn, the arcs entering it. */
  ghost function TargetsOf(arcs: seq<Arc>, nodes: seq<Node>): seq<Arc>
    reads arcs`target
  {
    if nodes == [] then []
    else TargetsOf(arcs, nodes[..|nodes| - 1]) + ArcsTo(arcs, nodes[|nodes| - 1])
  }

  /** Exactly the arcs entering one of the nodes are kept. */
  lemma {:induction false} TargetsOfSpec(arcs: seq<Arc>, nodes: seq<Node>)
    ensures forall a <- TargetsOf(arcs, nodes) :: a in arcs && a.target in nodes
    ensures forall a <- arcs :: a.target in nodes ==> a in TargetsOf(arcs, nodes)
  {
    if nodes != [] {
      var front := nodes[..|nodes| - 1];
      var n := nodes[|nodes| - 1];
      TargetsOfSpec(arcs, front);
      ArcsToSpec(arcs, n);
      assert nodes == front + [n];
    }
  }

  /** One more node walked: its selection decides whether it is kept. */
  lemma SelectedNodesStep(ns: seq<Node>, i: nat)
    requires i < |ns|
    ensures SelectedNodes(ns[..i + 1]) == SelectedNodes(ns[..i]) + (if ns[i].selected then [ns[i]] else [])
  {
    assert ns[..i + 1][..i] == ns[..i];
  }

  /** One more node collected: the arcs leaving it and the arcs entering it follow the earlier ones. */
  lemma CollectedStep(arcs: seq<Arc>, nodes: seq<Node>, n: Node)
    ensures SourcesOf(arcs, nodes + [n]) == SourcesOf(arcs, nodes) + ArcsFrom(arcs, n)
    ensures TargetsOf(arcs, nodes + [n]) == TargetsOf(arcs, nodes) + ArcsTo(arcs, n)
  {
    assert (nodes + [n])[..|nodes|] == nodes;
  }

  /** The right and bottom edges of a node's square. */
  ghost function RightEdge(n: Node): int reads n`bounds { n.bounds.point.x + n.bounds.size.w }
  ghost function BottomEdge(n: Node): int reads n`bounds { n.bounds.point.y + n.bounds.size.h }

  /** Growing a size, starting from acc, to reach every node's right and bottom edge. */
  ghost function NodesExtent(ns: seq<Node>, acc: Size): Size
    reads ns`bounds
  {
    if ns == [] then acc
    else
      var s := NodesExtent(ns[..|ns| - 1], acc);
      var n := ns[|ns| - 1];
      Size(if s.w < RightEdge(n) then RightEdge(n) else s.w,
           if s.h < BottomEdge(n) then BottomEdge(n) else s.h)
  }

  /** The extent only grows from acc, reaches every node's right and bottom edge, and in each axis is acc or one of those edges. */
  lemma {:induction false} NodesExtentSpec(ns: seq<Node>, acc: Size)
    ensures var r := NodesExtent(ns, acc);
      r.w >= acc.w && r.h >= acc.h &&
      (forall i :: 0 <= i < |ns| ==> RightEdge(ns[i]) <= r.w && BottomEdge(ns[i]) <= r.h) &&
      (r.w == acc.w || exists i :: 0 <= i < |ns| && RightEdge(ns[i]) == r.w) &&
      (r.h == acc.h || exists i :: 0 <= i < |ns| && BottomEdge(ns[i]) == r.h)
  {
    if ns != [] {
      var front := ns[..|ns| - 1];
      NodesExtentSpec(front, acc);
      assert forall i :: 0 <= i < |front| ==> front[i] == ns[i];
    }
  }

  /** How far an arc's path reaches to the right and downwards. */
  ghost function ArcReach(a: Arc): Point
    reads a`vertices, a.vertices`point
  {
    Reach(a.Path())
  }

  /** How far each arc of a sequence reaches. */
  ghost function Reaches(arcs: seq<Arc>): (r: seq<Point>)
    reads arcs`vertices, VerticesOf(arcs)`point
    ensures |r| == |arcs|
    ensures forall i :: 0 <= i < |arcs| ==> r[i] == ArcReach(arcs[i])
  {
    if arcs == [] then []
    else
      VerticesOfParts(arcs, 0);
      var rest := Reaches(arcs[1..]);
      assert forall i :: 1 <= i < |arcs| ==> arcs[1..][i - 1] == arcs[i];
      [ArcReach(arcs[0])] + rest
  }

  /** Growing a size, starting from acc, to reach every point of a sequence. */
  function PointsExtent(ps: seq<Point>, acc: Size): Size
  {
    if ps == [] then acc
    else
      var s := PointsExtent(ps[..|ps| - 1], acc);
      var e := ps[|ps| - 1];
      Size(if s.w < e.x then e.x else s.w, if s.h < e.y then e.y else s.h)
  }

  /** The extent only grows from acc, reaches every point, and in each axis is acc or one of the points' coordinates. */
  lemma {:induction false} PointsExtentSpec(ps: seq<Point>, acc: Size)
    ensures var r := PointsExtent(ps, acc);
      r.w >= acc.w && r.h >= acc.h &&
      (forall i :: 0 <= i < |ps| ==> ps[i].x <= r.w && ps[i].y <= r.h) &&
      (r.w == acc.w || exists i :: 0 <= i < |ps| && ps[i].x == r.w) &&
      (r.h == acc.h || exists i :: 0 <= i < |ps| && ps[i].y == r.h)
  {
    if ps != [] {
      var front := ps[..|ps| - 1];
      PointsExtentSpec(front, acc);
      assert forall i :: 0 <= i < |front| ==> front[i] == ps[i];
    }
  }

  /** net_resize: the canvas size that shows every node and every arc, counted from the origin. */
  ghost function ViewSize(places: seq<Node>, transitions: seq<Node>, arcs: seq<Arc>): Size
    reads places`bounds, transitions`bounds, arcs`vertices, VerticesOf(arcs)`point
  {
    PointsExtent(Reaches(arcs), NodesExtent(transitions, NodesExtent(places, Size(0, 0))))
  }

  /**
   * The view size is never negative, covers every node's square and every
   * arc's path, and is 0 or exactly one of those edges in each axis.
   */
  lemma ViewSizeCovers(places: seq<Node>, transitions: seq<Node>, arcs: seq<Arc>)
    ensures var v := ViewSize(places, transitions, arcs);
      v.w >= 0 && v.h >= 0 &&
      (forall n :: n in places + transitions ==> RightEdge(n) <= v.w && BottomEdge(n) <= v.h) &&
      (forall a :: a in arcs ==> ArcReach(a).x <= v.w && ArcReach(a).y <= v.h)
    ensures var v := ViewSize(places, transitions, arcs);
      v.w == 0 ||
      (exists n :: n in places + transitions && RightEdge(n) == v.w) ||
      (exists a :: a in arcs && ArcReach(a).x == v.w)
    ensures var v := ViewSize(places, transitions, arcs);
      v.h == 0 ||
      (exists n :: n in places + transitions && BottomEdge(n) == v.h) ||
      (exists a :: a in arcs && ArcReach(a).y == v.h)
  {
    var s1 := NodesExtent(places, Size(0, 0));
    var s2 := NodesExtent(transitions, s1);
    var rs := Reaches(arcs);
    var v := PointsExtent(rs, s2);
    NodesExtentSpec(places, Size(0, 0));
    NodesExtentSpec(transitions, s1);
    PointsExtentSpec(rs, s2);
    forall n | n in places + transitions
      ensures RightEdge(n) <= v.w && BottomEdge(n) <= v.h
    {
      if n in places {
        var i :| 0 <= i < |places| && places[i] == n;
      } else {
        var i :| 0 <= i < |transitions| && transitions[i] == n;
      }
    }
    forall a | a in arcs
      ensures ArcReach(a).x <= v.w && ArcReach(a).y <= v.h
    {
      var i :| 0 <= i < |arcs| && arcs[i] == a;
    }
    if v.w != s2.w {
      var i :| 0 <= i < |rs| && rs[i].x == v.w;
      assert arcs[i] in arcs;
    } else if s2.w != s1.w {
      var i :| 0 <= i < |transitions| && RightEdge(transitions[i]) == v.w;
      assert transitions[i] in places + transitions;
    } else if s1.w != 0 {
      var i :| 0 <= i < |places| && RightEdge(places[i]) == v.w;
      assert places[i] in places + transitions;
    }
    if v.h != s2.h {
      var i :| 0 <= i < |rs| && rs[i].y == v.h;
      assert arcs[i] in arcs;
    } else if s2.h != s1.h {
      var i :| 0 <= i < |transitions| && BottomEdge(transitions[i]) == v.h;
      assert transitions[i] in places + transitions;
    } else if s1.h != 0 {
      var i :| 0 <= i < |places| && BottomEdge(places[i]) == v.h;
      assert places[i] in places + transitions;
    }
  }

  /** net_find_vertex_by_point: the first control vertex within reach of p, taking the arcs in order. */
  ghost function VertexAt(arcs: seq<Arc>, p: Point): Vertex?
    reads arcs`vertices, VerticesOf(arcs)`point
  {
    if arcs == [] then null
    else
      VerticesOfParts(arcs, 0);
      match FirstHandle(arcs[0].Path(), p)
      case Some(j) => arcs[0].vertices[j]
      case None => VertexAt(arcs[1..], p)
  }

  /** The vertex found is a control vertex of one of the arcs within reach of p; there is none exactly when no arc has one. */
  lemma {:induction false} VertexAtSpec(arcs: seq<Arc>, p: Point)
    ensures var r := VertexAt(arcs, p);
      (r != null ==> r.role == Control && PointOnPoint(r.point, p, HandleReach)) &&
      (r != null ==> r in VerticesOf(arcs)) &&
      (r == null <==> forall i :: 0 <= i < |arcs| ==> FirstHandle(arcs[i].Path(), p).None?)
  {
    if arcs != [] {
      VerticesOfParts(arcs, 0);
      match FirstHandle(arcs[0].Path(), p)
      case Some(j) =>
        assert arcs[0].vertices[j] in arcs[0].vertices;
      case None =>
        VertexAtSpec(arcs[1..], p);
        assert forall i :: 1 <= i < |arcs| ==> arcs[1..][i - 1] == arcs[i];
    }
  }

  /** The vertex found is arc i's first handle when arc i is the first arc with a handle within reach. */
  lemma {:induction false} VertexAtFirst(arcs: seq<Arc>, i: nat, p: Point)
    requires i < |arcs|
    requires forall j :: 0 <= j < i ==> FirstHandle(arcs[j].Path(), p).None?
    requires FirstHandle(arcs[i].Path(), p).Some?
    ensures VertexAt(arcs, p) == arcs[i].vertices[FirstHandle(arcs[i].Path(), p).value]
  {
    if i > 0 {
      assert forall j :: 0 <= j < i - 1 ==> arcs[1..][j] == arcs[j + 1];
      VertexAtFirst(arcs[1..], i - 1, p);
    }
  }

  /** The index of the first node with the given id. */
  ghost function FirstWithId(ns: seq<Node>, id: int): (r: Option<nat>)
    reads ns`id
    ensures r.Some? ==> r.value < |ns| && ns[r.value].id == id
    ensures r.Some? ==> forall j :: 0 <= j < r.value ==> ns[j].id != id
    ensures r.None? ==> forall j :: 0 <= j < |ns| ==> ns[j].id != id
  {
    if ns == [] then None
    else if ns[0].id == id then Some(0)
    else
      match FirstWithId(ns[1..], id)
      case None => None
      case Some(i) => Some(i + 1)
  }

  /** The nodes of one kind, in order: what the reader's nodes become once added to the net. */
  function OfKind(ns: seq<Node>, kind: Kind): seq<Node>
  {
    if ns == [] then []
    else OfKind(ns[..|ns| - 1], kind) + (if ns[|ns| - 1].kind == kind then [ns[|ns| - 1]] else [])
  }

  /** Exactly the nodes of that kind are kept. */
  lemma {:induction false} OfKindSpec(ns: seq<Node>, kind: Kind)
    ensures forall n <- OfKind(ns, kind) :: n in ns && n.kind == kind
    ensures forall n <- ns :: n.kind == kind ==> n in OfKind(ns, kind)
  {
    if ns != [] {
      var front := ns[..|ns| - 1];
      OfKindSpec(front, kind);
      assert forall i :: 0 <= i < |front| ==> front[i] == ns[i];
      assert ns == front + [ns[|ns| - 1]];
    }
  }

  lemma {:induction false} OfKindDistinct(ns: seq<Node>, kind: Kind)
    requires Distinct(ns)
    ensures Distinct(OfKind(ns, kind))
  {
    if ns != [] {
      var front := ns[..|ns| - 1];
      OfKindDistinct(front, kind);
      OfKindSpec(front, kind);
      if ns[|ns| - 1].kind == kind {
        DistinctAppend(OfKind(front, kind), ns[|ns| - 1]);
        assert OfKind(ns, kind) == OfKind(front, kind) + [ns[|ns| - 1]];
      } else {
        assert OfKind(ns, kind) == OfKind(front, kind);
      }
    }
  }

  lemma {:induction false} ArcsAtDistinct(arcs: seq<Arc>, p: Point)
    requires Distinct(arcs)
    ensures Distinct(ArcsAt(arcs, p))
  {
    if arcs != [] {
      var front := arcs[..|arcs| - 1];
      ArcsAtDistinct(front, p);
      ArcsAtSpec(front, p);
      VerticesOfParts(arcs, |arcs| - 1);
      if OnPath(arcs[|arcs| - 1].Path(), p) {
        DistinctAppend(ArcsAt(front, p), arcs[|arcs| - 1]);
        assert ArcsAt(arcs, p) == ArcsAt(front, p) + [arcs[|arcs| - 1]];
      } else {
        assert ArcsAt(arcs, p) == ArcsAt(front, p);
      }
    }
  }
}
