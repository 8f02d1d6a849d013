/**
 * The editing engine: the net with its event processors, the controller that
 * owns the interaction mode and the list of registered event handlers, and
 * the short-lived drag sessions (movers, selectors, connectors) that register
 * themselves with the controller and unregister when the drag ends.
 */
module Editor {
  import opened Geometry
  import opened Wrappers
  import opened Seqs
  import opened Decimal
  import opened Vertices
  import opened Paths
  import opened Nodes
  import opened Arcs
  import opened Folds

  /** The drawing tool chosen on the toolbar. */
  datatype Tool = SelectTool | PlaceTool | TransitionTool

  /** The controller's interaction mode, driven by the modifier keys and by completed gestures. */
  datatype Mode = Normal | Connect | Move | Drag | Finalise

  /** What a mover drags. */
  datatype Moving = MovingNode | MovingVertex

  /** The node type number that a "type-id" lookup compares with to choose the places. */
  const PlaceType: int := 0

  /** Grid pitch for dropped nodes, and for vertices while they are dragged. */
  const NodeGrid: int := 8
  const VertexGrid: int := 4

  /**
   * The events the controller delivers. Pointer coordinates are integers.
   * The reader's output is the sequence of nodes and arcs it adds to the
   * net, in order.
   */
  datatype Event =
    | DrawRequested
    | ToolSelected(tool: Tool)
    | CreateNode(presses: int, x: int, y: int)
    | CreateNet(tool: Tool)
    | StartDrag(x: int, y: int, mode: Mode)
    | UpdateDrag(dx: int, dy: int, mode: Mode)
    | EndDrag(dx: int, dy: int, mode: Mode)
    | ConnectNodes(source: Node, target: Point)
    | DeleteSelected
    | ReadNet(nodes: seq<Node>, arcs: seq<Arc>)
    | WriteNet
    | ClearNet

  /** What the reader hands over is a list of distinct nodes and a list of distinct arcs. */
  ghost predicate WellFormed(e: Event)
  {
    e.ReadNet? ==> Distinct(e.nodes) && Distinct(e.arcs)
  }

  /** A registered handler: the net itself, or one drag session. */
  datatype Handler =
    | NetHandler(net: Net)
    | MoverHandler(mover: Mover)
    | SelectorHandler(selector: Selector)
    | ConnectorHandler(connector: Connector)

  /** A drag session working on the given net and reporting to the net's controller. */
  predicate IsSessionOf(h: Handler, net: Net)
  {
    match h
    case NetHandler(_) => false
    case MoverHandler(m) => m.net == net && m.controller == net.controller
    case SelectorHandler(s) => s.net == net && s.controller == net.controller
    case ConnectorHandler(c) => c.net == net && c.controller == net.controller
  }

  /** What a notification may change: nodes, arcs, vertices and selectors' rubber bands. */
  predicate Editable(o: object)
  {
    o is Node || o is Arc || o is Vertex || o is Selector
  }

  /** One event handed to each handler of a list, in list order. */
  function Deliveries(hs: seq<Handler>, e: Event): (r: seq<(Handler, Event)>)
    ensures |r| == |hs|
    ensures forall i :: 0 <= i < |hs| ==> r[i] == (hs[i], e)
  {
    seq(|hs|, i requires 0 <= i < |hs| => (hs[i], e))
  }

  /** Unregistering a session keeps the net first and every other handler a session. */
  lemma SessionsAfterRemoval(hs: seq<Handler>, h: Handler, net: Net)
    requires |hs| > 0 && hs[0].NetHandler? && !h.NetHandler?
    requires forall j :: 1 <= j < |hs| ==> IsSessionOf(hs[j], net)
    ensures |RemoveFirst(hs, h)| > 0 && RemoveFirst(hs, h)[0] == hs[0]
    ensures forall j :: 1 <= j < |RemoveFirst(hs, h)| ==> IsSessionOf(RemoveFirst(hs, h)[j], net)
  {
    var r := RemoveFirst(hs, h);
    assert r == [hs[0]] + RemoveFirst(hs[1..], h);
    forall j | 1 <= j < |r|
      ensures IsSessionOf(r[j], net)
    {
      assert r[j] in RemoveFirst(hs[1..], h);
      RemoveFirstMembers(hs[1..], h, r[j]);
    }
  }

  /** net_get_arcs_for_node over a sequence of arcs: those leaving the node and those entering it, in order. */
  method ArcsForNode(arcs: seq<Arc>, node: Node) returns (sources: seq<Arc>, targets: seq<Arc>)
    ensures sources == ArcsFrom(arcs, node) && targets == ArcsTo(arcs, node)
  {
    sources, targets := [], [];
    var i := 0;
    while i < |arcs|
      invariant 0 <= i <= |arcs|
      invariant sources == ArcsFrom(arcs[..i], node) && targets == ArcsTo(arcs[..i], node)
    {
      assert arcs[..i + 1][..i] == arcs[..i];
      if arcs[i].source == node {
        sources := sources + [arcs[i]];
      }
      if arcs[i].target == node {
        targets := targets + [arcs[i]];
      }
      i := i + 1;
    }
    assert arcs[..|arcs|] == arcs;
  }

  /** What net_get_selected_nodes has collected once it has walked the nodes ns. */
  ghost predicate CollectedFrom(ns: seq<Node>, arcs: seq<Arc>, nodes: seq<Node>, sources: seq<Arc>, targets: seq<Arc>)
    reads ns`selected, arcs`source, arcs`target
  {
    nodes == SelectedNodes(ns) && sources == SourcesOf(arcs, nodes) && targets == TargetsOf(arcs, nodes)
  }

  /** One step of net_get_selected_nodes: a selected node joins the collected nodes, with the arcs leaving it and the arcs entering it. */
  method VisitNode(ns: seq<Node>, i: nat, arcs: seq<Arc>, nodes: seq<Node>, sources: seq<Arc>, targets: seq<Arc>)
    returns (nodes': seq<Node>, sources': seq<Arc>, targets': seq<Arc>)
    requires i < |ns| && CollectedFrom(ns[..i], arcs, nodes, sources, targets)
    ensures CollectedFrom(ns[..i + 1], arcs, nodes', sources', targets')
  {
    SelectedNodesStep(ns, i);
    if ns[i].selected {
      var s, t := ArcsForNode(arcs, ns[i]);
      CollectedStep(arcs, nodes, ns[i]);
      nodes', sources', targets' := nodes + [ns[i]], sources + s, targets + t;
    } else {
      nodes', sources', targets' := nodes, sources, targets;
    }
  }

  /**
   * net_get_selected_nodes along a sequence of nodes: each selected node,
   * then the arcs leaving it and the arcs entering it.
   */
  method SelectedWithArcs(ns: seq<Node>, arcs: seq<Arc>) returns (nodes: seq<Node>, sources: seq<Arc>, targets: seq<Arc>)
    ensures nodes == SelectedNodes(ns)
    ensures sources == SourcesOf(arcs, nodes) && targets == TargetsOf(arcs, nodes)
  {
    nodes, sources, targets := [], [], [];
    var i := 0;
    assert ns[..0] == [];
    while i < |ns|
      invariant 0 <= i <= |ns|
      invariant CollectedFrom(ns[..i], arcs, nodes, sources, targets)
    {
      nodes, sources, targets := VisitNode(ns, i, arcs, nodes, sources, targets);
      i := i + 1;
    }
    assert ns[..|ns|] == ns;
  }

  /** net_get_node_view_size along a sequence of nodes, starting from acc. */
  method GrowOverNodes(ns: seq<Node>, acc: Size) returns (size: Size)
    ensures size == NodesExtent(ns, acc)
  {
    size := acc;
    var i := 0;
    while i < |ns|
      invariant 0 <= i <= |ns|
      invariant size == NodesExtent(ns[..i], acc)
    {
      assert ns[..i + 1][..i] == ns[..i];
      var w := ns[i].bounds.point.x + ns[i].bounds.size.w;
      var h := ns[i].bounds.point.y + ns[i].bounds.size.h;
      size := Size(if size.w < w then w else size.w, if size.h < h then h else size.h);
      i := i + 1;
    }
    assert ns[..|ns|] == ns;
  }

  /**
   * net_get_arc_view_size along a sequence of arcs, starting from acc; the
   * ghost reaches are how far each arc's path extends.
   */
  method GrowOverArcs(arcs: seq<Arc>, ghost reaches: seq<Point>, acc: Size) returns (size: Size)
    requires |reaches| == |arcs| && forall i :: 0 <= i < |arcs| ==> reaches[i] == Reach(arcs[i].Path())
    ensures size == PointsExtent(reaches, acc)
  {
    size := acc;
    var i := 0;
    while i < |arcs|
      invariant 0 <= i <= |arcs|
      invariant size == PointsExtent(reaches[..i], acc)
    {
      var r := arcs[i].GetPathBounds();
      assert reaches[i] == r;
      assert reaches[..i + 1][..i] == reaches[..i];
      size := Size(if size.w < r.x then r.x else size.w, if size.h < r.y then r.y else size.h);
      i := i + 1;
    }
    assert reaches[..|reaches|] == reaches;
  }

  /** net_unselect_all_nodes, applied along a sequence of nodes. */
  method UnselectNodes(ns: seq<Node>)
    modifies ns`selected
    ensures forall n <- ns :: !n.selected
  {
    var i := 0;
    while i < |ns|
      invariant 0 <= i <= |ns|
      invariant forall j :: 0 <= j < i ==> !ns[j].selected
    {
      ns[i].selected := false;
      i := i + 1;
    }
  }

  /** net_unselect_all_arcs, applied along a sequence of arcs. */
  method UnselectArcs(arcs: seq<Arc>)
    modifies arcs`selected
    ensures forall a <- arcs :: !a.selected
  {
    var i := 0;
    while i < |arcs|
      invariant 0 <= i <= |arcs|
      invariant forall j :: 0 <= j < i ==> !arcs[j].selected
    {
      arcs[i].selected := false;
      i := i + 1;
    }
  }

  /**
   * net_select_node_by_point, applied along a sequence: each node is selected
   * exactly when its square contains p, and the hits are collected in order.
   */
  method SelectNodesAt(ns: seq<Node>, p: Point) returns (found: seq<Node>)
    modifies ns`selected
    ensures found == NodesAt(ns, p)
    ensures forall n <- ns :: n.selected == n.IsNodeAtPoint(p)
  {
    found := [];
    var i := 0;
    while i < |ns|
      invariant 0 <= i <= |ns|
      invariant found == old(NodesAt(ns[..i], p))
      invariant forall j :: 0 <= j < i ==> ns[j].selected == old(ns[j].IsNodeAtPoint(p))
    {
      assert ns[..i + 1][..i] == ns[..i];
      if ns[i].IsNodeAtPoint(p) {
        ns[i].selected := true;
        found := found + [ns[i]];
      } else {
        ns[i].selected := false;
      }
      i := i + 1;
    }
    assert ns[..|ns|] == ns;
  }

  /**
   * The first loop of net_delete_selected: each listed node in turn is
   * removed from places and from transitions (its first occurrence, if any).
   */
  method RemoveNodes(places: seq<Node>, transitions: seq<Node>, nodes: seq<Node>) returns (ps: seq<Node>, ts: seq<Node>)
    requires Distinct(places) && Distinct(transitions)
    ensures ps == Without(places, Elements(nodes))
    ensures ts == Without(transitions, Elements(nodes))
  {
    ps, ts := places, transitions;
    WithoutNoop(places, {});
    WithoutNoop(transitions, {});
    assert Elements(nodes[..0]) == {};
    var i := 0;
    while i < |nodes|
      invariant 0 <= i <= |nodes|
      invariant ps == Without(places, Elements(nodes[..i]))
      invariant ts == Without(transitions, Elements(nodes[..i]))
    {
      ElementsStep(nodes, i);
      RemoveFirstStep(places, Elements(nodes[..i]), nodes[i]);
      RemoveFirstStep(transitions, Elements(nodes[..i]), nodes[i]);
      ps := RemoveFirst(ps, nodes[i]);
      ts := RemoveFirst(ts, nodes[i]);
      i := i + 1;
    }
    assert nodes[..|nodes|] == nodes;
  }

  /** Dropping nodes and arcs keeps the net's invariant: kinds stay apart and nothing repeats. */
  lemma KeptValid(places: seq<Node>, transitions: seq<Node>, arcs: seq<Arc>, doomed: set<Node>, doomedArcs: set<Arc>)
    requires forall i :: 0 <= i < |places| ==> places[i].kind == Place
    requires forall i :: 0 <= i < |transitions| ==> transitions[i].kind == Transition
    requires Distinct(places) && Distinct(transitions) && Distinct(arcs)
    ensures var ps := Without(places, doomed); forall i :: 0 <= i < |ps| ==> ps[i].kind == Place
    ensures var ts := Without(transitions, doomed); forall i :: 0 <= i < |ts| ==> ts[i].kind == Transition
    ensures Distinct(Without(places, doomed)) && Distinct(Without(transitions, doomed))
    ensures Distinct(Without(arcs, doomedArcs))
  {
    WithoutMembers(places, doomed);
    WithoutMembers(transitions, doomed);
    var ps, ts := Without(places, doomed), Without(transitions, doomed);
    forall i | 0 <= i < |ps| ensures ps[i].kind == Place {
      assert ps[i] in places;
    }
    forall i | 0 <= i < |ts| ensures ts[i].kind == Transition {
      assert ts[i] in transitions;
    }
    WithoutDistinct(places, doomed);
    WithoutDistinct(transitions, doomed);
    WithoutDistinct(arcs, doomedArcs);
  }

  /**
   * The arc loops of net_delete_selected: each listed arc in turn is removed
   * from the arcs (its first occurrence, if any).
   */
  method RemoveArcs(arcs: seq<Arc>, doomed: seq<Arc>) returns (kept: seq<Arc>)
    requires Distinct(arcs)
    ensures kept == Without(arcs, Elements(doomed))
  {
    kept := arcs;
    WithoutNoop(arcs, {});
    assert Elements(doomed[..0]) == {};
    var i := 0;
    while i < |doomed|
      invariant 0 <= i <= |doomed|
      invariant kept == Without(arcs, Elements(doomed[..i]))
    {
      ElementsStep(doomed, i);
      RemoveFirstStep(arcs, Elements(doomed[..i]), doomed[i]);
      kept := RemoveFirst(kept, doomed[i]);
      i := i + 1;
    }
    assert doomed[..|doomed|] == doomed;
  }

  /**
   * net_select_arc_by_point, applied along a sequence: each arc is selected
   * exactly when its path passes through p, and the hits are collected in
   * order.
   */
  method SelectArcsAt(arcs: seq<Arc>, p: Point) returns (hits: seq<Arc>)
    modifies arcs`selected
    ensures hits == old(ArcsAt(arcs, p))
    ensures forall a <- arcs :: a.selected == old(OnPath(a.Path(), p))
  {
    hits := [];
    var i := 0;
    while i < |arcs|
      invariant 0 <= i <= |arcs|
      invariant hits == old(ArcsAt(arcs[..i], p))
      invariant forall j :: 0 <= j < i ==> arcs[j].selected == old(OnPath(arcs[j].Path(), p))
    {
      assert arcs[..i + 1][..i] == arcs[..i];
      assert arcs[i].Path() == old(arcs[i].Path());
      var hit := SelectArcAt(arcs[i], p);
      if hit {
        hits := hits + [arcs[i]];
      }
      i := i + 1;
    }
    assert arcs[..|arcs|] == arcs;
  }

  /** net_select_arc_by_point on one arc: it is selected exactly when its path passes through p. */
  method SelectArcAt(a: Arc, p: Point) returns (hit: bool)
    modifies a`selected
    ensures hit == OnPath(old(a.Path()), p) && a.selected == hit
  {
    hit := a.IsArcAtPoint(p);
    if hit {
      a.selected := true;
    } else {
      a.selected := false;
    }
  }

  /** SELECT_ARC_BY_POINT as the first pass of a click on arcs: selecting leaves every path as it was. */
  method SelectArcsKeepingPaths(arcs: seq<Arc>, p: Point) returns (hits: seq<Arc>)
    modifies arcs`selected
    ensures hits == old(ArcsAt(arcs, p))
    ensures forall a <- arcs :: a.selected == old(OnPath(a.Path(), p))
    ensures forall a <- arcs :: a.Path() == old(a.Path())
  {
    hits := SelectArcsAt(arcs, p);
  }

  /**
   * The arc half of a click that hit no node: the arcs whose path passes
   * through p are selected and the others unselected; when connecting and
   * something was hit, each hit arc gains a control vertex at p.
   */
  method PickArcs(arcs: seq<Arc>, p: Point, connect: bool)
    requires Distinct(arcs)
    modifies arcs`selected, arcs`vertices
    ensures forall a <- arcs :: a.selected == old(OnPath(a.Path(), p))
    ensures connect ==> forall a <- arcs :: a.Path() == WithControl(old(a.Path()), p)
    ensures !connect ==> forall a <- arcs :: a.vertices == old(a.vertices)
  {
    ArcsAtDistinct(arcs, p);
    ArcsAtSpec(arcs, p);
    var hits := SelectArcsKeepingPaths(arcs, p);
    if connect && |hits| > 0 {
      forall j | 0 <= j < |hits| ensures hits[j] in arcs {
        assert hits[j] in hits;
      }
      InsertOnArcs(arcs, hits, p);
    } else if connect {
      forall a | a in arcs
        ensures a.Path() == WithControl(old(a.Path()), p)
      {
        FirstHitFound(old(a.Path()), p);
      }
    }
  }

  /**
   * The second pass of a CONNECT-mode click on arcs, seen from all the arcs:
   * the hit arcs gain a control vertex at p, and an arc that was not hit
   * misses p, so its path is what inserting at p leaves of it.
   */
  method InsertOnArcs(arcs: seq<Arc>, hits: seq<Arc>, p: Point)
    requires Distinct(hits)
    requires forall a <- arcs :: a !in hits ==> !OnPath(a.Path(), p)
    modifies hits`vertices
    ensures forall a <- arcs :: a.Path() == WithControl(old(a.Path()), p)
  {
    InsertControlPoints(hits, p);
    forall a | a in arcs
      ensures a.Path() == WithControl(old(a.Path()), p)
    {
      if a !in hits {
        FirstHitFound(old(a.Path()), p);
      }
    }
  }

  /** UNSELECT_ALL_NODES and UNSELECT_ALL_ARCS over the three collections. */
  method ClearSelection(places: seq<Node>, transitions: seq<Node>, arcs: seq<Arc>)
    modifies places`selected, transitions`selected, arcs`selected
    ensures forall n <- places + transitions :: !n.selected
    ensures forall a <- arcs :: !a.selected
  {
    UnselectNodes(places);
    UnselectNodes(transitions);
    UnselectArcs(arcs);
  }

  /**
   * A click with the select tool, over the three collections: everything is
   * unselected, the nodes containing p are selected, and only when there are
   * none the arcs are picked as PickArcs does.
   */
  method Pick(places: seq<Node>, transitions: seq<Node>, arcs: seq<Arc>, p: Point, connect: bool)
    requires Distinct(arcs)
    modifies places`selected, transitions`selected, arcs`selected, arcs`vertices
    ensures forall n <- places + transitions :: n.selected == n.IsNodeAtPoint(p)
    ensures NodeAt(places, transitions, p) != null ==> forall a <- arcs :: !a.selected
    ensures NodeAt(places, transitions, p) == null ==> forall a <- arcs :: a.selected == old(OnPath(a.Path(), p))
    ensures NodeAt(places, transitions, p) == null && connect ==>
      forall a <- arcs :: a.Path() == WithControl(old(a.Path()), p)
    ensures !(NodeAt(places, transitions, p) == null && connect) ==>
      forall a <- arcs :: a.vertices == old(a.vertices)
  {
    var found := ClickNodes(places, transitions, arcs, p);
    NodeAtFound(places, transitions, p);
    if found == [] {
      PickArcs(arcs, p, connect);
    }
  }

  /**
   * The node half of a click: every node and arc is unselected, then the
   * nodes containing p are selected and returned, places first.
   */
  method ClickNodes(places: seq<Node>, transitions: seq<Node>, arcs: seq<Arc>, p: Point) returns (found: seq<Node>)
    modifies places`selected, transitions`selected, arcs`selected
    ensures found == NodesAt(places, p) + NodesAt(transitions, p)
    ensures forall n <- places + transitions :: n.selected == n.IsNodeAtPoint(p)
    ensures forall a <- arcs :: !a.selected
    ensures forall a <- arcs :: a.vertices == old(a.vertices) && a.Path() == old(a.Path())
  {
    ClearSelection(places, transitions, arcs);
    found := SelectBothAt(places, transitions, p);
  }

  /** SelectNodesAt over the places, then over the transitions: the hits of both, places first. */
  method SelectBothAt(places: seq<Node>, transitions: seq<Node>, p: Point) returns (found: seq<Node>)
    modifies places`selected, transitions`selected
    ensures found == NodesAt(places, p) + NodesAt(transitions, p)
    ensures forall n <- places + transitions :: n.selected == n.IsNodeAtPoint(p)
  {
    var fromPlaces := SelectNodesAt(places, p);
    var fromTransitions := SelectNodesAt(transitions, p);
    found := fromPlaces + fromTransitions;
  }

  /**
   * net_select_node_by_bounds, applied along a sequence: the nodes whose
   * position lies in the rectangle are collected in order, and every node
   * is left unselected.
   */
  method CollectNodesIn(ns: seq<Node>, b: Bounds) returns (found: seq<Node>)
    modifies ns`selected
    ensures found == NodesIn(ns, b)
    ensures forall n <- ns :: !n.selected
  {
    found := [];
    var i := 0;
    while i < |ns|
      invariant 0 <= i <= |ns|
      invariant found == old(NodesIn(ns[..i], b))
      invariant forall j :: 0 <= j < i ==> !ns[j].selected
    {
      assert ns[..i + 1][..i] == ns[..i];
      if ns[i].IsNodeInBounds(b) {
        found := found + [ns[i]];
      }
      ns[i].selected := false;
      i := i + 1;
    }
    assert ns[..|ns|] == ns;
  }

  /**
   * The second pass of a CONNECT-mode click on arcs: each arc hit gains a
   * control vertex at p where its path passes through p.
   */
  method InsertControlPoints(hits: seq<Arc>, p: Point)
    requires Distinct(hits)
    modifies hits`vertices
    ensures forall a <- hits :: a.Path() == WithControl(old(a.Path()), p)
  {
    DistinctIndices(hits);
    var i := 0;
    while i < |hits|
      invariant 0 <= i <= |hits|
      invariant forall j :: 0 <= j < i ==> hits[j].Path() == WithControl(old(hits[j].Path()), p)
      invariant forall j :: i <= j < |hits| ==> hits[j].vertices == old(hits[j].vertices)
    {
      InsertOnPathAt(hits, i, p);
      i := i + 1;
    }
  }

  /** arc_set_vertex on the i-th arc hit, seen from the paths alone: only that arc's path changes. */
  method InsertOnPathAt(hits: seq<Arc>, i: nat, p: Point)
    requires i < |hits|
    requires forall j :: 0 <= j < |hits| && j != i ==> hits[j] != hits[i]
    modifies {hits[i]}`vertices
    ensures hits[i].Path() == WithControl(old(hits[i].Path()), p)
    ensures forall j :: 0 <= j < |hits| && j != i ==> hits[j].vertices == old(hits[j].vertices)
    ensures forall j :: 0 <= j < |hits| && j != i ==> hits[j].Path() == old(hits[j].Path())
  {
    hits[i].SetVertex(p);
  }

  /** The first vertex of every arc that has one, in arc order. */
  function Heads(arcs: seq<Arc>): (vs: seq<Vertex>)
    reads arcs
    ensures |vs| <= |arcs|
    ensures forall a <- arcs :: |a.vertices| > 0 ==> a.vertices[0] in vs
    ensures forall v <- vs :: exists a <- arcs :: |a.vertices| > 0 && v == a.vertices[0]
  {
    if arcs == [] then []
    else
      var a := arcs[|arcs| - 1];
      Heads(arcs[..|arcs| - 1]) + if |a.vertices| > 0 then [a.vertices[0]] else []
  }

  /** The last vertex of every arc that has one, in arc order. */
  function Tails(arcs: seq<Arc>): (vs: seq<Vertex>)
    reads arcs
    ensures |vs| <= |arcs|
    ensures forall a <- arcs :: |a.vertices| > 0 ==> a.vertices[|a.vertices| - 1] in vs
    ensures forall v <- vs :: exists a <- arcs :: |a.vertices| > 0 && v == a.vertices[|a.vertices| - 1]
  {
    if arcs == [] then []
    else
      var a := arcs[|arcs| - 1];
      Tails(arcs[..|arcs| - 1]) + if |a.vertices| > 0 then [a.vertices[|a.vertices| - 1]] else []
  }

  /** Every vertex of vs goes to pos; its selection and activation stay as they were. */
  method MoveAll(vs: seq<Vertex>, pos: Point)
    modifies vs`point
    ensures forall v <- vs :: v.point == pos
  {
    var i := 0;
    while i < |vs|
      invariant 0 <= i <= |vs|
      invariant forall j :: 0 <= j < i ==> vs[j].point == pos
    {
      vs[i].SetPoint(pos);
      i := i + 1;
    }
  }

  class Controller {
    var mode: Mode
    var handlers: seq<Handler>
    /** Every delivery of an event to a handler so far, in order. */
    ghost var delivered: seq<(Handler, Event)>

    /**
     * The net is the first handler and belongs to this controller; every
     * other handler is a drag session on that net.
     */
    ghost predicate Valid()
      reads this, if |handlers| > 0 && handlers[0].NetHandler? then {handlers[0].net} else {}
    {
      |handlers| > 0 && handlers[0].NetHandler? &&
      handlers[0].net.controller == this && handlers[0].net.Valid() &&
      forall j :: 1 <= j < |handlers| ==> IsSessionOf(handlers[j], handlers[0].net)
    }

    /**
     * create_controller, the part that is not widget wiring: NORMAL mode, and
     * a new empty net registered as the only handler, given the select tool.
     */
    constructor ()
      ensures Valid() && mode == Normal && |handlers| == 1 && delivered == []
      ensures fresh(handlers[0].net) && handlers[0].net.tool == SelectTool
      ensures handlers[0].net.places == [] && handlers[0].net.transitions == [] && handlers[0].net.arcs == []
    {
      mode := Normal;
      handlers := [];
      delivered := [];
      new;
      var net := new Net(this);
      Monitor(NetHandler(net));
      net.SetTool(SelectTool);
    }

    /** controller_monitor: the handler is appended at the end. */
    method Monitor(h: Handler)
      modifies this`handlers
      ensures handlers == old(handlers) + [h]
    {
      handlers := handlers + [h];
    }

    /** controller_unmonitor: the first registration of the handler is removed. */
    method Unmonitor(h: Handler)
      modifies this`handlers
      ensures handlers == RemoveFirst(old(handlers), h)
    {
      handlers := RemoveFirst(handlers, h);
    }

    /** One handler's response to an event: the net's processors, or a session's handler. */
    method Deliver(h: Handler, e: Event)
      requires Valid() && WellFormed(e)
      requires h == handlers[0] || IsSessionOf(h, handlers[0].net)
      modifies this, handlers[0].net
      modifies iset o: object | Editable(o)
      ensures Valid() && handlers[0] == old(handlers[0])
      ensures delivered == old(delivered) + [(h, e)]
      ensures e.CreateNode? ==> mode == old(mode) && handlers == old(handlers)
    {
      ghost var log := delivered;
      if h.NetHandler? {
        DeliverToNet(e);
      } else {
        DeliverToSession(h, e);
      }
      delivered := log + [(h, e)];
    }

    /** The net's processors handle the event. */
    method DeliverToNet(e: Event)
      requires Valid() && WellFormed(e)
      modifies this, handlers[0].net
      modifies iset o: object | Editable(o)
      ensures Valid() && handlers[0] == old(handlers[0])
      ensures e.CreateNode? ==> mode == old(mode) && handlers == old(handlers)
    {
      handlers[0].net.Handle(e);
    }

    /** A drag session handles the event; a mover or a selector that ends removes its own registration. */
    method DeliverToSession(h: Handler, e: Event)
      requires Valid() && WellFormed(e)
      requires IsSessionOf(h, handlers[0].net)
      modifies this, handlers[0].net
      modifies iset o: object | Editable(o)
      ensures Valid() && handlers[0] == old(handlers[0])
      ensures e.CreateNode? ==> mode == old(mode) && handlers == old(handlers)
    {
      match h {
        case MoverHandler(m) =>
          DeliverToMover(m, e);
        case SelectorHandler(s) =>
          DeliverToSelector(s, e);
        case ConnectorHandler(_) =>
      }
    }

    /** A mover handles the event as nodes or as vertices, as it was started. */
    method DeliverToMover(m: Mover, e: Event)
      requires Valid() && WellFormed(e)
      requires IsSessionOf(MoverHandler(m), handlers[0].net)
      modifies this, handlers[0].net
      modifies iset o: object | Editable(o)
      ensures Valid() && handlers[0] == old(handlers[0])
      ensures e.CreateNode? ==> mode == old(mode) && handlers == old(handlers)
    {
      var net := handlers[0].net;
      if m.moving == MovingNode {
        m.MoveNodes(e);
      } else {
        m.MoveVertices(e);
      }
      SessionsAfterRemoval(old(handlers), MoverHandler(m), net);
    }

    /** A selector handles the event. */
    method DeliverToSelector(s: Selector, e: Event)
      requires Valid() && WellFormed(e)
      requires IsSessionOf(SelectorHandler(s), handlers[0].net)
      modifies this, handlers[0].net
      modifies iset o: object | Editable(o)
      ensures Valid() && handlers[0] == old(handlers[0])
      ensures e.CreateNode? ==> mode == old(mode) && handlers == old(handlers)
    {
      var net := handlers[0].net;
      s.Handle(e);
      SessionsAfterRemoval(old(handlers), SelectorHandler(s), net);
    }

    /**
     * controller_notify: the event goes to each handler registered when the
     * notification starts, in list order.
     */
    method Notify(e: Event)
      requires Valid() && WellFormed(e)
      modifies this, handlers[0].net
      modifies iset o: object | Editable(o)
      ensures Valid() && handlers[0] == old(handlers[0])
      ensures delivered == old(delivered) + Deliveries(old(handlers), e)
      ensures e.CreateNode? ==> mode == old(mode) && handlers == old(handlers)
    {
      var hs := handlers;
      var i := 0;
      while i < |hs|
        invariant 0 <= i <= |hs|
        invariant Valid() && handlers[0] == hs[0]
        invariant delivered == old(delivered) + Deliveries(hs[..i], e)
        invariant e.CreateNode? ==> mode == old(mode) && handlers == old(handlers)
      {
        assert Deliveries(hs[..i + 1], e) == Deliveries(hs[..i], e) + [(hs[i], e)];
        Deliver(hs[i], e);
        i := i + 1;
      }
      assert hs[..|hs|] == hs;
    }

    /**
     * controller_gesture_released: a click release in FINALISE mode is
     * swallowed and resets the mode to NORMAL; in any other mode it is
     * delivered as one CREATE_NODE event.
     */
    method GestureReleased(presses: int, x: int, y: int)
      requires Valid()
      modifies this, handlers[0].net
      modifies iset o: object | Editable(o)
      ensures Valid() && handlers == old(handlers)
      ensures old(mode) == Finalise ==> mode == Normal && delivered == old(delivered)
      ensures old(mode) != Finalise ==>
        mode == old(mode) && delivered == old(delivered) + Deliveries(old(handlers), CreateNode(presses, x, y))
    {
      if mode != Finalise {
        Notify(CreateNode(presses, x, y));
      } else {
        mode := Normal;
      }
    }

    /** controller_key_pressed: Control selects CONNECT, then Shift selects MOVE; the key is always consumed. */
    method KeyPressed(control: bool, shift: bool) returns (handled: bool)
      modifies this`mode
      ensures handled
      ensures shift ==> mode == Move
      ensures control && !shift ==> mode == Connect
      ensures !control && !shift ==> mode == old(mode)
    {
      if control {
        mode := Connect;
      }
      if shift {
        mode := Move;
      }
      handled := true;
    }

    /** controller_key_released: any key release returns to NORMAL. */
    method KeyReleased()
      modifies this`mode
      ensures mode == Normal
    {
      mode := Normal;
    }

    /** controller_drag_begin: START_DRAG at the pointer, carrying the current mode. */
    method DragBegin(x: int, y: int)
      requires Valid()
      modifies this, handlers[0].net
      modifies iset o: object | Editable(o)
      ensures Valid()
      ensures delivered == old(delivered) + Deliveries(old(handlers), StartDrag(x, y, old(mode)))
    {
      Notify(StartDrag(x, y, mode));
    }

    /** controller_drag_update: UPDATE_DRAG with the offset from the drag's start. */
    method DragUpdate(dx: int, dy: int)
      requires Valid()
      modifies this, handlers[0].net
      modifies iset o: object | Editable(o)
      ensures Valid()
      ensures delivered == old(delivered) + Deliveries(old(handlers), UpdateDrag(dx, dy, old(mode)))
    {
      Notify(UpdateDrag(dx, dy, mode));
    }

    /** controller_drag_end: END_DRAG with the final offset from the drag's start. */
    method DragEnd(dx: int, dy: int)
      requires Valid()
      modifies this, handlers[0].net
      modifies iset o: object | Editable(o)
      ensures Valid()
      ensures delivered == old(delivered) + Deliveries(old(handlers), EndDrag(dx, dy, old(mode)))
    {
      Notify(EndDrag(dx, dy, mode));
    }
  }

  class Net {
    const controller: Controller
    var places: seq<Node>
    var transitions: seq<Node>
    var arcs: seq<Arc>
    var tool: Tool

    /** Places hold place nodes and transitions transition nodes; no collection holds an object twice. */
    ghost predicate Valid()
      reads this
    {
      (forall i :: 0 <= i < |places| ==> places[i].kind == Place) &&
      (forall i :: 0 <= i < |transitions| ==> transitions[i].kind == Transition) &&
      Distinct(places) && Distinct(transitions) && Distinct(arcs)
    }

    /** net_create: an empty net attached to its controller; the tool is set by the first CREATE_NET. */
    constructor (controller: Controller)
      ensures this.controller == controller
      ensures places == [] && transitions == [] && arcs == []
      ensures Valid()
    {
      this.controller := controller;
      places, transitions, arcs := [], [], [];
      tool := SelectTool;
    }

    /** net_tool_event_processor and net_create_processor: the tool becomes the event's. */
    method SetTool(t: Tool)
      modifies this`tool
      ensures tool == t
    {
      tool := t;
    }

    /** net_add_node: a node goes at the end of the collection of its kind. */
    method AddNode(n: Node)
      modifies this`places, this`transitions
      ensures n.kind == Place ==> places == old(places) + [n] && transitions == old(transitions)
      ensures n.kind == Transition ==> transitions == old(transitions) + [n] && places == old(places)
    {
      if n.kind == Place {
        places := places + [n];
      } else {
        transitions := transitions + [n];
      }
    }

    /** net_add_arc: an arc goes at the end of the arcs. */
    method AddArc(a: Arc)
      modifies this`arcs
      ensures arcs == old(arcs) + [a]
    {
      arcs := arcs + [a];
    }

    /** net_get_next_node_id over the collection of one kind. */
    method NextNodeId(kind: Kind) returns (id: int)
      ensures id == NextId(if kind == Place then places else transitions)
    {
      var ns := if kind == Place then places else transitions;
      id := 0;
      var i := 0;
      while i < |ns|
        invariant 0 <= i <= |ns|
        invariant id == NextId(ns[..i])
      {
        assert ns[..i + 1][..i] == ns[..i];
        id := if ns[i].id >= id then ns[i].id + 1 else id;
        i := i + 1;
      }
      assert ns[..|ns|] == ns;
    }

    /** net_find_node_by_point: the first place at p, else the first transition at p, else none. */
    method FindNodeByPoint(p: Point) returns (node: Node?)
      ensures node == NodeAt(places, transitions, p)
    {
      var i := 0;
      while i < |places|
        invariant 0 <= i <= |places|
        invariant forall j :: 0 <= j < i ==> !places[j].IsNodeAtPoint(p)
      {
        if places[i].IsNodeAtPoint(p) {
          FirstAtIs(places, p, i);
          return places[i];
        }
        i := i + 1;
      }
      FirstAtSpec(places, p);
      i := 0;
      while i < |transitions|
        invariant 0 <= i <= |transitions|
        invariant forall j :: 0 <= j < i ==> !transitions[j].IsNodeAtPoint(p)
      {
        if transitions[i].IsNodeAtPoint(p) {
          FirstAtIs(transitions, p, i);
          return transitions[i];
        }
        i := i + 1;
      }
      FirstAtSpec(transitions, p);
      return null;
    }

    /** net_find_vertex_by_point: the first control vertex within reach of p, arc by arc. */
    method FindVertexByPoint(p: Point) returns (v: Vertex?)
      ensures v == VertexAt(arcs, p)
    {
      var i := 0;
      while i < |arcs|
        invariant 0 <= i <= |arcs|
        invariant forall j :: 0 <= j < i ==> FirstHandle(arcs[j].Path(), p).None?
      {
        v := arcs[i].GetVertex(p);
        if v != null {
          VertexAtFirst(arcs, i, p);
          return v;
        }
        i := i + 1;
      }
      VertexAtSpec(arcs, p);
      return null;
    }

    /**
     * net_find_node: reads "type-id" from the text and looks for the first
     * node with that id among the places (type 0) or the transitions.
     */
    method FindNode(buffer: string) returns (node: Node?)
      ensures ScanPair(buffer).None? ==> node == null
      ensures ScanPair(buffer).Some? ==>
        var ns := if ScanPair(buffer).value.0 == PlaceType then places else transitions;
        match FirstWithId(ns, ScanPair(buffer).value.1)
        case None => node == null
        case Some(k) => node == ns[k]
    {
      match ScanPair(buffer) {
        case None =>
          node := null;
        case Some((kind, id)) =>
          var ns := if kind == PlaceType then places else transitions;
          var i := 0;
          while i < |ns|
            invariant 0 <= i <= |ns|
            invariant forall j :: 0 <= j < i ==> ns[j].id != id
          {
            if ns[i].id == id {
              assert FirstWithId(ns, id) == Some(i);
              return ns[i];
            }
            i := i + 1;
          }
          node := null;
      }
    }

    /**
     * net_get_selected_nodes over places then transitions: the selected
     * nodes, and for each of them in turn the arcs leaving and entering it.
     */
    method GetSelectedNodes() returns (nodes: seq<Node>, sources: seq<Arc>, targets: seq<Arc>)
      ensures nodes == SelectedNodes(places + transitions)
      ensures sources == SourcesOf(arcs, nodes) && targets == TargetsOf(arcs, nodes)
    {
      nodes, sources, targets := SelectedWithArcs(places + transitions, arcs);
    }

    /**
     * net_resize: the canvas size, grown from (0, 0) over the places, the
     * transitions and then the arcs' path extents.
     */
    method Resize() returns (size: Size)
      ensures size == old(ViewSize(places, transitions, arcs))
    {
      ghost var rs := Reaches(arcs);
      ghost var n1 := NodesExtent(places, Size(0, 0));
      size := GrowOverNodes(places, Size(0, 0));
      size := GrowOverNodes(transitions, size);
      assert size == old(NodesExtent(transitions, n1));
      assert forall a <- arcs :: a.Path() == old(a.Path());
      forall i | 0 <= i < |arcs| ensures rs[i] == Reach(arcs[i].Path()) {
        assert arcs[i] in arcs;
      }
      size := GrowOverArcs(arcs, rs, size);
    }

    /** UNSELECT_ALL_NODES over places and transitions. */
    method UnselectAllNodes()
      modifies places`selected, transitions`selected
      ensures forall n <- places + transitions :: !n.selected
    {
      UnselectNodes(places);
      UnselectNodes(transitions);
    }

    /** UNSELECT_ALL_ARCS over the arcs. */
    method UnselectAllArcs()
      modifies arcs`selected
      ensures forall a <- arcs :: !a.selected
    {
      UnselectArcs(arcs);
    }

    /** UNSELECT_ALL_NODES then UNSELECT_ALL_ARCS: nothing in the net stays selected. */
    method UnselectAll()
      modifies places`selected, transitions`selected, arcs`selected
      ensures forall n <- places + transitions :: !n.selected
      ensures forall a <- arcs :: !a.selected
    {
      ClearSelection(places, transitions, arcs);
    }

    /** SELECT_NODE_BY_POINT over places then transitions. */
    method SelectNodesByPoint(p: Point) returns (found: seq<Node>)
      modifies places`selected, transitions`selected
      ensures found == NodesAt(places, p) + NodesAt(transitions, p)
      ensures forall n <- places + transitions :: n.selected == n.IsNodeAtPoint(p)
    {
      var fromPlaces := SelectNodesAt(places, p);
      var fromTransitions := SelectNodesAt(transitions, p);
      found := fromPlaces + fromTransitions;
    }

    /** SELECT_ARC_BY_POINT over the arcs. */
    method SelectArcsByPoint(p: Point) returns (hits: seq<Arc>)
      modifies arcs`selected
      ensures hits == old(ArcsAt(arcs, p))
      ensures forall a <- arcs :: a.selected == old(OnPath(a.Path(), p))
    {
      hits := SelectArcsAt(arcs, p);
    }

    /**
     * net_select: every arc is unselected, every node is unselected, and the
     * nodes whose position lies in the rectangle are returned, places first.
     */
    method Select(b: Bounds) returns (nodes: seq<Node>)
      modifies places`selected, transitions`selected, arcs`selected
      ensures nodes == NodesIn(places, b) + NodesIn(transitions, b)
      ensures forall a <- arcs :: !a.selected
      ensures forall n <- places + transitions :: !n.selected
    {
      UnselectArcs(arcs);
      var fromPlaces := CollectNodesIn(places, b);
      var fromTransitions := CollectNodesIn(transitions, b);
      nodes := fromPlaces + fromTransitions;
    }

    /**
     * net_select_node_processor with the select tool: everything is
     * unselected, then the nodes containing p are selected; when there are
     * none, the arcs whose path passes through p are selected instead, and
     * in CONNECT mode each of them gains a control vertex at p.
     */
    method PickAt(p: Point)
      requires Valid()
      modifies places`selected, transitions`selected, arcs`selected, arcs`vertices
      ensures forall n <- places + transitions :: n.selected == n.IsNodeAtPoint(p)
      ensures NodeAt(places, transitions, p) != null ==> forall a <- arcs :: !a.selected
      ensures NodeAt(places, transitions, p) == null ==> forall a <- arcs :: a.selected == old(OnPath(a.Path(), p))
      ensures NodeAt(places, transitions, p) == null && controller.mode == Connect ==>
        forall a <- arcs :: a.Path() == WithControl(old(a.Path()), p)
      ensures !(NodeAt(places, transitions, p) == null && controller.mode == Connect) ==>
        forall a <- arcs :: a.vertices == old(a.vertices)
    {
      Pick(places, transitions, arcs, p, controller.mode == Connect);
    }

    /**
     * The node a click with the place or transition tool creates: of the
     * tool's kind, numbered one past the largest id of that kind, named
     * after its number, and centred on p snapped to the 8-pixel grid.
     */
    method CreateNode(kind: Kind, p: Point) returns (n: Node)
      ensures fresh(n) && n.kind == kind && !n.selected
      ensures n.id == old(NextId(if kind == Place then places else transitions))
      ensures n.name == DefaultName(kind, n.id)
      ensures n.position == AdjustPoint(p, NodeGrid) && n.bounds == BoundsAround(n.position)
    {
      var id := NextNodeId(kind);
      n := NumberedNode(kind, id, AdjustPoint(p, NodeGrid));
    }

    /** create_node, then the id, the default name that goes with it, and the position. */
    static method NumberedNode(kind: Kind, id: int, pos: Point) returns (n: Node)
      ensures fresh(n) && n.kind == kind && !n.selected
      ensures n.id == id && n.name == DefaultName(kind, id)
      ensures n.position == pos && n.bounds == BoundsAround(pos)
    {
      n := new Node(kind);
      n.id := id;
      n.SetDefaultName();
      n.SetPosition(pos);
    }

    /** A node created for a click with the place or transition tool joins the collection of its kind. */
    method AddCreatedNode(kind: Kind, p: Point) returns (n: Node)
      requires Valid()
      modifies this`places, this`transitions
      ensures Valid()
      ensures fresh(n) && n.kind == kind && !n.selected
      ensures n.id == old(NextId(if kind == Place then places else transitions))
      ensures n.name == DefaultName(kind, n.id)
      ensures n.position == AdjustPoint(p, NodeGrid) && n.bounds == BoundsAround(n.position)
      ensures kind == Place ==> places == old(places) + [n] && transitions == old(transitions)
      ensures kind == Transition ==> transitions == old(transitions) + [n] && places == old(places)
    {
      n := CreateNode(kind, p);
      if kind == Place {
        DistinctAppend(places, n);
      } else {
        DistinctAppend(transitions, n);
      }
      AddNode(n);
    }

    /**
     * net_select_node_processor with the place or transition tool: everything
     * is unselected; a node already at p is selected, otherwise a new node
     * of the tool's kind, numbered one past the largest id of its kind and
     * named after it, is put at p snapped to the 8-pixel grid and appended.
     */
    method PlaceAt(p: Point, kind: Kind) returns (ghost created: Node?)
      requires Valid()
      modifies this`places, this`transitions, places`selected, transitions`selected, arcs`selected
      ensures Valid() && arcs == old(arcs)
      ensures forall a <- arcs :: !a.selected
      ensures forall n <- old(places) + old(transitions) :: n.selected == (n == old(NodeAt(places, transitions, p)))
      ensures old(NodeAt(places, transitions, p)) != null ==>
        created == null && places == old(places) && transitions == old(transitions)
      ensures old(NodeAt(places, transitions, p)) == null ==>
        created != null && fresh(created) && created.kind == kind && !created.selected &&
        created.id == old(NextId(if kind == Place then places else transitions)) &&
        created.name == DefaultName(kind, created.id) &&
        created.position == AdjustPoint(p, NodeGrid) && created.bounds == BoundsAround(created.position) &&
        (kind == Place ==> places == old(places) + [created] && transitions == old(transitions)) &&
        (kind == Transition ==> transitions == old(transitions) + [created] && places == old(places))
    {
      ghost var hit := NodeAt(places, transitions, p);
      ghost var next := NextId(if kind == Place then places else transitions);
      UnselectAll();
      assert NodeAt(places, transitions, p) == hit;
      assert NextId(if kind == Place then places else transitions) == next;
      created := PlaceOnCleared(p, kind);
    }

    /** The part of PlaceAt after everything has been unselected. */
    method PlaceOnCleared(p: Point, kind: Kind) returns (ghost created: Node?)
      requires Valid()
      modifies this`places, this`transitions, places`selected, transitions`selected
      ensures Valid() && arcs == old(arcs)
      ensures forall n <- old(places) + old(transitions) ::
        n.selected == (old(n.selected) || n == old(NodeAt(places, transitions, p)))
      ensures old(NodeAt(places, transitions, p)) != null ==>
        created == null && places == old(places) && transitions == old(transitions)
      ensures old(NodeAt(places, transitions, p)) == null ==>
        created != null && fresh(created) && created.kind == kind && !created.selected &&
        created.id == old(NextId(if kind == Place then places else transitions)) &&
        created.name == DefaultName(kind, created.id) &&
        created.position == AdjustPoint(p, NodeGrid) && created.bounds == BoundsAround(created.position) &&
        (kind == Place ==> places == old(places) + [created] && transitions == old(transitions)) &&
        (kind == Transition ==> transitions == old(transitions) + [created] && places == old(places))
    {
      var node := FindNodeByPoint(p);
      if node == null {
        var n := AddCreatedNode(kind, p);
        created := n;
      } else {
        node.selected := true;
        created := null;
      }
    }

    /**
     * net_start_drag_processor: pressing on a node starts a connector in
     * CONNECT mode and a node mover (with the node's arcs) in MOVE mode;
     * pressing elsewhere starts a vertex mover on a control vertex within
     * reach, or else a rubber-band selector. The new session registers
     * itself with the controller.
     */
    method StartDragProcessor(x: int, y: int, mode: Mode) returns (started: Option<Handler>)
      modifies controller`handlers, VerticesOf(arcs)`selected
      ensures started.None? ==> controller.handlers == old(controller.handlers)
      ensures started.Some? ==>
        controller.handlers == old(controller.handlers) + [started.value] && IsSessionOf(started.value, this)
      ensures var node := old(NodeAt(places, transitions, Point(x, y)));
        node != null && mode == Connect ==>
          started.Some? && started.value.ConnectorHandler? && fresh(started.value.connector) &&
          started.value.connector.source == node
      ensures var node := old(NodeAt(places, transitions, Point(x, y)));
        node != null && mode == Move ==>
          started.Some? && started.value.MoverHandler? && fresh(started.value.mover) &&
          var m := started.value.mover;
          m.moving == MovingNode && m.offset == Point(x, y) && m.nodes == [node] && m.vertices == [] &&
          m.sources == ArcsFrom(arcs, node) && m.targets == ArcsTo(arcs, node)
      ensures var node := old(NodeAt(places, transitions, Point(x, y)));
        node != null && mode != Connect && mode != Move ==> started.None?
      ensures old(NodeAt(places, transitions, Point(x, y))) == null && old(VertexAt(arcs, Point(x, y))) == null ==>
        started.Some? && started.value.SelectorHandler? && fresh(started.value.selector) &&
        started.value.selector.position == Point(x, y) && started.value.selector.offset == Point(x, y)
      ensures var v := old(VertexAt(arcs, Point(x, y)));
        old(NodeAt(places, transitions, Point(x, y))) == null && v != null ==>
          started.Some? && started.value.MoverHandler? && fresh(started.value.mover) &&
          var m := started.value.mover;
          m.moving == MovingVertex && m.offset == Point(x, y) && m.vertices == [v] && m.nodes == [] &&
          m.sources == [] && m.targets == [] && v.selected
      ensures forall v <- old(VerticesOf(arcs)) :: v.selected == old(v.selected) || v == old(VertexAt(arcs, Point(x, y)))
    {
      var p := Point(x, y);
      ghost var hit, handle := NodeAt(places, transitions, p), VertexAt(arcs, p);
      VertexAtSpec(arcs, p);
      var node := FindNodeByPoint(p);
      assert node == hit;
      if node != null {
        started := StartNodeSession(node, p, mode);
      } else {
        var v := FindVertexByPoint(p);
        assert v == handle;
        if v == null {
          var s := new Selector(controller, p, this);
          started := Some(SelectorHandler(s));
        } else {
          var h := StartVertexMover(v, p);
          started := Some(h);
        }
      }
    }

    /** The session a press on a node starts: a connector in CONNECT mode, a mover of the node and its arcs in MOVE mode. */
    method StartNodeSession(node: Node, p: Point, mode: Mode) returns (started: Option<Handler>)
      modifies controller`handlers
      ensures started.None? ==> controller.handlers == old(controller.handlers)
      ensures started.Some? ==>
        controller.handlers == old(controller.handlers) + [started.value] && IsSessionOf(started.value, this)
      ensures mode == Connect ==>
        started.Some? && started.value.ConnectorHandler? && fresh(started.value.connector) &&
        started.value.connector.source == node
      ensures mode == Move ==>
        started.Some? && started.value.MoverHandler? && fresh(started.value.mover) &&
        var m := started.value.mover;
        m.moving == MovingNode && m.offset == p && m.nodes == [node] && m.vertices == [] &&
        m.sources == ArcsFrom(arcs, node) && m.targets == ArcsTo(arcs, node)
      ensures mode != Connect && mode != Move ==> started.None?
    {
      if mode == Connect {
        var c := new Connector(controller, this, node);
        started := Some(ConnectorHandler(c));
      } else if mode == Move {
        var s, t := ArcsForNode(arcs, node);
        var m := new Mover(MovingNode, controller, p, this);
        m.AddNode(node);
        m.sources, m.targets := s, t;
        started := Some(MoverHandler(m));
      } else {
        started := None;
      }
    }

    /** The session a press on a control vertex starts: a mover of that vertex, which becomes selected. */
    method StartVertexMover(v: Vertex, p: Point) returns (started: Handler)
      modifies controller`handlers, v`selected
      ensures controller.handlers == old(controller.handlers) + [started] && IsSessionOf(started, this)
      ensures started.MoverHandler? && fresh(started.mover)
      ensures var m := started.mover;
        m.moving == MovingVertex && m.offset == p && m.vertices == [v] && m.nodes == [] &&
        m.sources == [] && m.targets == [] && v.selected
    {
      var m := new Mover(MovingVertex, controller, p, this);
      m.AddVertex(v);
      v.selected := true;
      started := MoverHandler(m);
    }

    /**
     * net_connect_processor: when a node of the other kind lies at the
     * target point, everything is unselected and a new selected arc from the
     * source to that node is appended, and the mode becomes FINALISE.
     */
    method ConnectProcessor(source: Node, target: Point)
      requires Valid()
      modifies this`arcs, places`selected, transitions`selected, arcs`selected, controller`mode
      ensures Valid()
      ensures var t := old(NodeAt(places, transitions, target));
        t != null && t.kind != source.kind ==>
          |arcs| == |old(arcs)| + 1 && arcs[..|old(arcs)|] == old(arcs) &&
          var a := arcs[|old(arcs)|];
          fresh(a) && a.source == source && a.target == t && a.weight == 1 && a.selected &&
          a.Path() == [Waypoint(Source, source.position), Waypoint(Target, t.position)] &&
          (forall n <- places + transitions :: !n.selected) &&
          (forall b <- old(arcs) :: !b.selected) &&
          controller.mode == Finalise
      ensures var t := old(NodeAt(places, transitions, target));
        !(t != null && t.kind != source.kind) ==>
          arcs == old(arcs) && controller.mode == old(controller.mode) &&
          (forall n <- places + transitions :: n.selected == old(n.selected)) &&
          (forall b <- arcs :: b.selected == old(b.selected))
    {
      ghost var hit := NodeAt(places, transitions, target);
      var t := FindNodeByPoint(target);
      assert t == hit;
      if t != null && source.kind != t.kind {
        ConnectNodes(source, t);
      }
    }

    /** The connection itself: everything unselected, a new selected arc from source to t appended, FINALISE mode. */
    method ConnectNodes(source: Node, t: Node)
      requires Valid()
      modifies this`arcs, places`selected, transitions`selected, arcs`selected, controller`mode
      ensures Valid()
      ensures |arcs| == |old(arcs)| + 1 && arcs[..|old(arcs)|] == old(arcs)
      ensures var a := arcs[|old(arcs)|];
        fresh(a) && a.source == source && a.target == t && a.weight == 1 && a.selected &&
        a.Path() == [Waypoint(Source, source.position), Waypoint(Target, t.position)]
      ensures forall n <- places + transitions :: !n.selected
      ensures forall b <- old(arcs) :: !b.selected
      ensures controller.mode == Finalise
    {
      UnselectAll();
      controller.mode := Finalise;
      var a := NewSelectedArc(source, t);
      DistinctAppend(arcs, a);
      arcs := arcs + [a];
    }

    /** new_arc followed by selecting it: a fresh selected arc of weight 1 straight from source to t. */
    static method NewSelectedArc(source: Node, t: Node) returns (a: Arc)
      ensures fresh(a) && a.source == source && a.target == t && a.weight == 1 && a.selected
      ensures a.Path() == [Waypoint(Source, source.position), Waypoint(Target, t.position)]
    {
      a := new Arc.Between(source, t);
      a.selected := true;
    }

    /** The selected nodes. */
    ghost function Doomed(): set<Node>
      reads this, places`selected, transitions`selected
    {
      set n | n in places + transitions && n.selected
    }

    /** The arcs leaving or entering a selected node. */
    ghost function DoomedArcs(): set<Arc>
      reads this, places`selected, transitions`selected, arcs`source, arcs`target
    {
      set a | a in arcs && (a.source in Doomed() || a.target in Doomed())
    }

    /**
     * net_delete_selected: the selected nodes leave places and transitions,
     * and the arcs touching them leave the arcs; the order of what remains
     * is kept.
     */
    method DeleteSelected()
      requires Valid()
      modifies this`places, this`transitions, this`arcs
      ensures Valid()
      ensures places == Without(old(places), old(Doomed()))
      ensures transitions == Without(old(transitions), old(Doomed()))
      ensures arcs == Without(old(arcs), old(DoomedArcs()))
    {
      ghost var doomed, doomedArcs := Doomed(), DoomedArcs();
      var nodes, sources, targets := GetSelectedNodes();
      assert Doomed() == doomed && DoomedArcs() == doomedArcs;
      DeleteCollected(nodes, sources, targets);
    }

    /** The removal half of net_delete_selected, once the doomed nodes and arcs are collected. */
    method DeleteCollected(nodes: seq<Node>, sources: seq<Arc>, targets: seq<Arc>)
      requires Valid()
      requires nodes == SelectedNodes(places + transitions)
      requires sources == SourcesOf(arcs, nodes) && targets == TargetsOf(arcs, nodes)
      modifies this`places, this`transitions, this`arcs
      ensures Valid()
      ensures places == Without(old(places), old(Doomed()))
      ensures transitions == Without(old(transitions), old(Doomed()))
      ensures arcs == Without(old(arcs), old(DoomedArcs()))
    {
      DoomedAre(nodes);
      DoomedArcsAre(nodes, sources, targets);
      var ps, ts := RemoveNodes(places, transitions, nodes);
      var kept := RemoveArcs(arcs, sources);
      WithoutDistinct(arcs, Elements(sources));
      var as1 := RemoveArcs(kept, targets);
      WithoutWithout(arcs, Elements(sources), Elements(targets));
      KeptValid(places, transitions, arcs, Elements(nodes), Elements(sources) + Elements(targets));
      places, transitions, arcs := ps, ts, as1;
    }

    /** What GetSelectedNodes collects is exactly the selected nodes. */
    lemma DoomedAre(nodes: seq<Node>)
      requires nodes == SelectedNodes(places + transitions)
      ensures Elements(nodes) == Doomed()
    {
      SelectedNodesSpec(places + transitions);
      forall n | n in Doomed() ensures n in nodes {
        assert n in places + transitions && n.selected;
      }
    }

    /** What GetSelectedNodes collects as arcs is exactly the arcs touching a selected node. */
    lemma DoomedArcsAre(nodes: seq<Node>, sources: seq<Arc>, targets: seq<Arc>)
      requires nodes == SelectedNodes(places + transitions)
      requires sources == SourcesOf(arcs, nodes) && targets == TargetsOf(arcs, nodes)
      ensures Elements(sources) + Elements(targets) == DoomedArcs()
    {
      DoomedAre(nodes);
      SourcesOfSpec(arcs, nodes);
      TargetsOfSpec(arcs, nodes);
    }

    /** net_reset: places, transitions and arcs are emptied one first element at a time. */
    method Reset()
      modifies this`places, this`transitions, this`arcs
      ensures places == [] && transitions == [] && arcs == []
    {
      while |places| != 0
        decreases |places|
      {
        places := RemoveFirst(places, places[0]);
      }
      while |transitions| != 0
        invariant places == []
        decreases |transitions|
      {
        transitions := RemoveFirst(transitions, transitions[0]);
      }
      while |arcs| != 0
        invariant places == [] && transitions == []
        decreases |arcs|
      {
        arcs := RemoveFirst(arcs, arcs[0]);
      }
    }

    /**
     * net_read_net: the net is reset, the reader's nodes are added by kind
     * and its arcs in order, and then everything is unselected.
     */
    method ReadNet(newNodes: seq<Node>, newArcs: seq<Arc>)
      requires Distinct(newNodes) && Distinct(newArcs)
      modifies this`places, this`transitions, this`arcs, newNodes`selected, newArcs`selected
      ensures Valid()
      ensures places == OfKind(newNodes, Place) && transitions == OfKind(newNodes, Transition) && arcs == newArcs
      ensures forall n <- newNodes :: !n.selected
      ensures forall a <- newArcs :: !a.selected
    {
      Reset();
      AddNodes(newNodes);
      AddArcs(newArcs);
      SplitByKind(newNodes);
      assert Valid();
      // Every node read is now a place or a transition of the net, and every
      // arc read one of its arcs, so unselecting what was read is unselecting
      // the whole net.
      UnselectNodes(newNodes);
      UnselectArcs(newArcs);
    }

    /** Splitting distinct nodes by kind gives collections fit for a net: each of one kind, without repeats. */
    static lemma SplitByKind(ns: seq<Node>)
      requires Distinct(ns)
      ensures var ps := OfKind(ns, Place); forall i :: 0 <= i < |ps| ==> ps[i].kind == Place
      ensures var ts := OfKind(ns, Transition); forall i :: 0 <= i < |ts| ==> ts[i].kind == Transition
      ensures Distinct(OfKind(ns, Place)) && Distinct(OfKind(ns, Transition))
    {
      OfKindDistinct(ns, Place);
      OfKindDistinct(ns, Transition);
      OfKindSpec(ns, Place);
      OfKindSpec(ns, Transition);
    }

    /** The reader's nodes added one by one to an empty net: each goes to the collection of its kind. */
    method AddNodes(newNodes: seq<Node>)
      requires places == [] && transitions == []
      modifies this`places, this`transitions
      ensures places == OfKind(newNodes, Place) && transitions == OfKind(newNodes, Transition)
    {
      var i := 0;
      while i < |newNodes|
        invariant 0 <= i <= |newNodes|
        invariant places == OfKind(newNodes[..i], Place) && transitions == OfKind(newNodes[..i], Transition)
      {
        var n := newNodes[i];
        assert newNodes[..i + 1][..i] == newNodes[..i];
        assert OfKind(newNodes[..i + 1], Place) == OfKind(newNodes[..i], Place) + (if n.kind == Place then [n] else []);
        assert OfKind(newNodes[..i + 1], Transition) == OfKind(newNodes[..i], Transition) + (if n.kind == Transition then [n] else []);
        AddNode(n);
        i := i + 1;
      }
      assert newNodes[..|newNodes|] == newNodes;
    }

    /** The reader's arcs added one by one, in order, to a net without arcs. */
    method AddArcs(newArcs: seq<Arc>)
      requires arcs == []
      modifies this`arcs
      ensures arcs == newArcs
    {
      var i := 0;
      while i < |newArcs|
        invariant 0 <= i <= |newArcs|
        invariant arcs == newArcs[..i]
      {
        AddArc(newArcs[i]);
        i := i + 1;
      }
    }

    /** net_clear: the net is reset to empty. */
    method Clear()
      modifies this`places, this`transitions, this`arcs
      ensures Valid()
      ensures places == [] && transitions == [] && arcs == []
    {
      Reset();
    }

    /**
     * net_event_handler: the processor registered for the event's kind runs;
     * drag updates and drag ends have none, and drawing and writing leave
     * the net as it is.
     */
    method Handle(e: Event)
      requires Valid() && WellFormed(e)
      modifies this`places, this`transitions, this`arcs, this`tool
      modifies places`selected, transitions`selected, arcs`selected, arcs`vertices, VerticesOf(arcs)`selected
      modifies controller`mode, controller`handlers
      modifies if e.ReadNet? then e.nodes else []
      modifies if e.ReadNet? then e.arcs else []
      ensures Valid()
      ensures controller.handlers == old(controller.handlers) ||
        (e.StartDrag? && |controller.handlers| == |old(controller.handlers)| + 1 &&
         controller.handlers[..|old(controller.handlers)|] == old(controller.handlers) &&
         IsSessionOf(controller.handlers[|old(controller.handlers)|], this))
      ensures !e.ConnectNodes? ==> controller.mode == old(controller.mode)
      ensures e.ToolSelected? || e.CreateNet? ==> tool == e.tool
      ensures !(e.ToolSelected? || e.CreateNet?) ==> tool == old(tool)
      ensures e.DrawRequested? || e.UpdateDrag? || e.EndDrag? || e.WriteNet? ==>
        places == old(places) && transitions == old(transitions) && arcs == old(arcs)
      ensures e.ReadNet? ==>
        places == OfKind(e.nodes, Place) && transitions == OfKind(e.nodes, Transition) && arcs == e.arcs
      ensures e.ClearNet? ==> places == [] && transitions == [] && arcs == []
    {
      match e {
        case DrawRequested =>
        case ToolSelected(t) =>
          SetTool(t);
        case CreateNet(t) =>
          SetTool(t);
        case UpdateDrag(_, _, _) =>
        case EndDrag(_, _, _) =>
        case WriteNet =>
        case ReadNet(_, _) =>
          HandleFile(e);
        case ClearNet =>
          HandleFile(e);
        case CreateNode(_, _, _) =>
          HandlePointer(e);
        case StartDrag(_, _, _) =>
          HandlePointer(e);
        case ConnectNodes(_, _) =>
          HandleCommand(e);
        case DeleteSelected =>
          HandleCommand(e);
      }
    }

    /** The processors a press on the canvas runs: picking or placing, and starting a drag. */
    method HandlePointer(e: Event)
      requires Valid() && (e.CreateNode? || e.StartDrag?)
      modifies this`places, this`transitions
      modifies places`selected, transitions`selected, arcs`selected, arcs`vertices, VerticesOf(arcs)`selected
      modifies controller`handlers
      ensures Valid() && tool == old(tool) && arcs == old(arcs)
      ensures controller.handlers == old(controller.handlers) ||
        (e.StartDrag? && |controller.handlers| == |old(controller.handlers)| + 1 &&
         controller.handlers[..|old(controller.handlers)|] == old(controller.handlers) &&
         IsSessionOf(controller.handlers[|old(controller.handlers)|], this))
    {
      match e {
        case CreateNode(_, x, y) =>
          if tool == SelectTool {
            PickAt(Point(x, y));
          } else {
            ghost var _ := PlaceAt(Point(x, y), if tool == PlaceTool then Place else Transition);
          }
        case StartDrag(x, y, m) =>
          var _ := StartDragProcessor(x, y, m);
      }
    }

    /** The processors that change the net's structure: connecting two nodes, deleting the selection. */
    method HandleCommand(e: Event)
      requires Valid() && (e.ConnectNodes? || e.DeleteSelected?)
      modifies this`places, this`transitions, this`arcs
      modifies places`selected, transitions`selected, arcs`selected
      modifies controller`mode
      ensures Valid() && tool == old(tool) && controller.handlers == old(controller.handlers)
      ensures e.DeleteSelected? ==> controller.mode == old(controller.mode)
    {
      match e {
        case ConnectNodes(s, t) =>
          ConnectProcessor(s, t);
        case DeleteSelected =>
          DeleteSelected();
      }
    }

    /** The processors that replace the net's contents: reading a net, clearing it. */
    method HandleFile(e: Event)
      requires WellFormed(e) && (e.ReadNet? || e.ClearNet?)
      modifies this`places, this`transitions, this`arcs
      modifies if e.ReadNet? then e.nodes else []
      modifies if e.ReadNet? then e.arcs else []
      ensures Valid() && tool == old(tool)
      ensures controller.handlers == old(controller.handlers) && controller.mode == old(controller.mode)
      ensures e.ReadNet? ==>
        places == OfKind(e.nodes, Place) && transitions == OfKind(e.nodes, Transition) && arcs == e.arcs
      ensures e.ClearNet? ==> places == [] && transitions == [] && arcs == []
    {
      match e {
        case ReadNet(ns, rs) =>
          ReadNet(ns, rs);
        case ClearNet =>
          Clear();
      }
    }
  }

  class Mover {
    const moving: Moving
    const controller: Controller
    const net: Net
    /** Where the drag started. */
    const offset: Point
    var vertices: seq<Vertex>
    var nodes: seq<Node>
    /** Arcs leaving the moved node, and arcs entering it. */
    var sources: seq<Arc>
    var targets: seq<Arc>

    /** create_mover: the start point, nothing to move yet, and the mover registered as a handler. */
    constructor (moving: Moving, controller: Controller, p: Point, net: Net)
      modifies controller`handlers
      ensures this.moving == moving && this.controller == controller && this.net == net && offset == p
      ensures vertices == [] && nodes == [] && sources == [] && targets == []
      ensures controller.handlers == old(controller.handlers) + [MoverHandler(this)]
    {
      this.moving := moving;
      this.controller := controller;
      this.net := net;
      offset := p;
      vertices, nodes, sources, targets := [], [], [], [];
      new;
      controller.Monitor(MoverHandler(this));
    }

    /** mover_add_node */
    method AddNode(n: Node)
      modifies this`nodes
      ensures nodes == old(nodes) + [n]
    {
      nodes := nodes + [n];
    }

    /** mover_add_vertex */
    method AddVertex(v: Vertex)
      modifies this`vertices
      ensures vertices == old(vertices) + [v]
    {
      vertices := vertices + [v];
    }

    /** The vertices a node move drags along: the first of each leaving arc and the last of each entering arc. */
    ghost function Endpoints(): set<Vertex>
      reads this, sources, targets
    {
      set v: Vertex | v in Heads(sources) + Tails(targets)
    }

    /** Where a drag event puts the moved nodes: the start moved by the offset, on the 8-pixel grid once the drag ends. */
    function NodeDrop(e: Event): Point
      requires e.UpdateDrag? || e.EndDrag?
    {
      var p := Point(offset.x + e.dx, offset.y + e.dy);
      if e.EndDrag? then AdjustPoint(p, NodeGrid) else p
    }

    /**
     * The node loop of mover_node_event_handler: every moved node goes to pos,
     * with its square re-derived, and after each node the ends of the arcs
     * follow it (mover_source_arc_iterator and mover_target_arc_iterator).
     */
    method PlaceNodes(pos: Point)
      modifies nodes`position, nodes`bounds, Endpoints()`point
      ensures forall n <- nodes :: n.position == pos && n.bounds == BoundsAround(pos)
      ensures |nodes| > 0 ==>
        (forall a <- sources :: |a.vertices| > 0 ==> a.vertices[0].point == pos) &&
        (forall a <- targets :: |a.vertices| > 0 ==> a.vertices[|a.vertices| - 1].point == pos)
    {
      var ends := Heads(sources) + Tails(targets);
      var i := 0;
      while i < |nodes|
        invariant 0 <= i <= |nodes|
        invariant forall j :: 0 <= j < i ==> nodes[j].position == pos && nodes[j].bounds == BoundsAround(pos)
        invariant i > 0 ==> forall v <- ends :: v.point == pos
      {
        PlaceNode(nodes, i, ends, pos);
        i := i + 1;
      }
    }

    /** One step of the node loop: node i goes to pos and the arc ends follow it there; no other node moves. */
    static method PlaceNode(ns: seq<Node>, i: nat, ends: seq<Vertex>, pos: Point)
      requires i < |ns|
      modifies {ns[i]}`position, {ns[i]}`bounds, ends`point
      ensures forall j :: 0 <= j < |ns| && ns[j] != ns[i] ==> ns[j].position == old(ns[j].position) && ns[j].bounds == old(ns[j].bounds)
      ensures ns[i].position == pos && ns[i].bounds == BoundsAround(pos)
      ensures forall v <- ends :: v.point == pos
    {
      ns[i].SetPosition(pos);
      MoveAll(ends, pos);
    }

    /**
     * mover_node_event_handler: on UPDATE_DRAG and END_DRAG every moved node
     * goes to the drop point and drags the ends of its arcs along; END_DRAG
     * also unregisters the mover. Other events change nothing.
     */
    method MoveNodes(e: Event)
      modifies nodes`position, nodes`bounds, Endpoints()`point, net.controller`handlers
      ensures e.UpdateDrag? || e.EndDrag? ==>
        forall n <- nodes :: n.position == NodeDrop(e) && n.bounds == BoundsAround(NodeDrop(e))
      ensures (e.UpdateDrag? || e.EndDrag?) && |nodes| > 0 ==>
        (forall a <- sources :: |a.vertices| > 0 ==> a.vertices[0].point == NodeDrop(e)) &&
        (forall a <- targets :: |a.vertices| > 0 ==> a.vertices[|a.vertices| - 1].point == NodeDrop(e))
      ensures !(e.UpdateDrag? || e.EndDrag?) ==> forall n <- nodes :: n.position == old(n.position) && n.bounds == old(n.bounds)
      ensures e.EndDrag? ==> net.controller.handlers == RemoveFirst(old(net.controller.handlers), MoverHandler(this))
      ensures !e.EndDrag? ==> net.controller.handlers == old(net.controller.handlers)
    {
      if e.UpdateDrag? || e.EndDrag? {
        PlaceNodes(NodeDrop(e));
        if e.EndDrag? {
          Release();
        }
      }
    }

    /**
     * mover_vertex_event_handler: on UPDATE_DRAG every moved vertex goes to
     * the start moved by the offset, snapped to the 4-pixel grid; on END_DRAG
     * it goes there unsnapped and is unselected, and the mover unregisters.
     */
    method MoveVertices(e: Event)
      modifies vertices, net.controller`handlers
      ensures e.UpdateDrag? ==> forall v <- vertices ::
        v.point == AdjustPoint(Point(offset.x + e.dx, offset.y + e.dy), VertexGrid) && v.selected == old(v.selected)
      ensures e.EndDrag? ==> forall v <- vertices :: v.point == Point(offset.x + e.dx, offset.y + e.dy) && !v.selected
      ensures !(e.UpdateDrag? || e.EndDrag?) ==> forall v <- vertices :: v.point == old(v.point) && v.selected == old(v.selected)
      ensures forall v <- vertices :: v.state == old(v.state)
      ensures e.EndDrag? ==> net.controller.handlers == RemoveFirst(old(net.controller.handlers), MoverHandler(this))
      ensures !e.EndDrag? ==> net.controller.handlers == old(net.controller.handlers)
    {
      if e.UpdateDrag? {
        MoveAll(vertices, AdjustPoint(Point(offset.x + e.dx, offset.y + e.dy), VertexGrid));
      } else if e.EndDrag? {
        var pos := Point(offset.x + e.dx, offset.y + e.dy);
        var i := 0;
        while i < |vertices|
          invariant 0 <= i <= |vertices|
          invariant net.controller.handlers == old(net.controller.handlers)
          invariant forall j :: 0 <= j < i ==> vertices[j].point == pos && !vertices[j].selected
          invariant forall v <- vertices :: v.state == old(v.state)
        {
          vertices[i].SetPoint(pos);
          vertices[i].selected := false;
          i := i + 1;
        }
        Release();
      }
    }

    /** release_mover: the mover's handler is removed from the net's controller. */
    method Release()
      modifies net.controller`handlers
      ensures net.controller.handlers == RemoveFirst(old(net.controller.handlers), MoverHandler(this))
    {
      net.controller.Unmonitor(MoverHandler(this));
    }
  }

  class Selector {
    const controller: Controller
    const net: Net
    /** Where the drag started. */
    const position: Point
    /** Where the drag was last seen. */
    var offset: Point

    /** create_selector: an empty rubber band at the start point, registered as a handler. */
    constructor (controller: Controller, p: Point, net: Net)
      modifies controller`handlers
      ensures this.controller == controller && this.net == net && position == p && offset == p
      ensures controller.handlers == old(controller.handlers) + [SelectorHandler(this)]
    {
      this.controller := controller;
      this.net := net;
      position := p;
      offset := p;
      new;
      controller.Monitor(SelectorHandler(this));
    }

    /** The rubber band: from the start point to the last point seen, so its size may be negative. */
    ghost function Band(): Bounds
      reads this
    {
      Bounds(position, Size(offset.x - position.x, offset.y - position.y))
    }

    /**
     * selector_event_handler: UPDATE_DRAG moves the band's far corner;
     * END_DRAG selects exactly the nodes whose position lies in the band,
     * unselects every arc, switches to FINALISE when some node was selected,
     * and unregisters the selector.
     */
    method Handle(e: Event)
      requires net.Valid()
      modifies this`offset, net.places`selected, net.transitions`selected, net.arcs`selected
      modifies controller`mode, net.controller`handlers
      ensures e.UpdateDrag? ==> offset == Point(position.x + e.dx, position.y + e.dy)
      ensures !e.UpdateDrag? ==> offset == old(offset)
      ensures !e.EndDrag? ==>
        controller.mode == old(controller.mode) && net.controller.handlers == old(net.controller.handlers) &&
        (forall n <- net.places + net.transitions :: n.selected == old(n.selected)) &&
        (forall a <- net.arcs :: a.selected == old(a.selected))
      ensures e.EndDrag? ==>
        (forall a <- net.arcs :: !a.selected) &&
        (forall n <- net.places + net.transitions :: n.selected == n.IsNodeInBounds(Band()))
      ensures e.EndDrag? ==>
        controller.mode ==
          if NodesIn(net.places, Band()) + NodesIn(net.transitions, Band()) == [] then old(controller.mode) else Finalise
      ensures e.EndDrag? ==> net.controller.handlers == RemoveFirst(old(net.controller.handlers), SelectorHandler(this))
    {
      if e.UpdateDrag? {
        offset := Point(position.x + e.dx, position.y + e.dy);
      } else if e.EndDrag? {
        EndBand();
      }
    }

    /** The END_DRAG case: the band's selection is made, then the selector unregisters. */
    method EndBand()
      modifies net.places`selected, net.transitions`selected, net.arcs`selected
      modifies controller`mode, net.controller`handlers
      ensures forall a <- net.arcs :: !a.selected
      ensures forall n <- net.places + net.transitions :: n.selected == n.IsNodeInBounds(Band())
      ensures controller.mode ==
        if NodesIn(net.places, Band()) + NodesIn(net.transitions, Band()) == [] then old(controller.mode) else Finalise
      ensures net.controller.handlers == RemoveFirst(old(net.controller.handlers), SelectorHandler(this))
    {
      SelectInBand();
      Release();
    }

    /**
     * The END_DRAG selection: the nodes in the band end up selected and all
     * else unselected; selecting at least one node switches to FINALISE.
     */
    method SelectInBand()
      modifies net.places`selected, net.transitions`selected, net.arcs`selected, controller`mode
      ensures forall a <- net.arcs :: !a.selected
      ensures forall n <- net.places + net.transitions :: n.selected == n.IsNodeInBounds(Band())
      ensures controller.mode ==
        if NodesIn(net.places, Band()) + NodesIn(net.transitions, Band()) == [] then old(controller.mode) else Finalise
    {
      var b := Bounds(position, Size(offset.x - position.x, offset.y - position.y));
      assert b == Band();
      var places, transitions := net.places, net.transitions;
      var nodes := net.Select(b);
      SelectFound(places, transitions, nodes, b, controller);
    }

    /**
     * MarkFound on the nodes found in the band b, when every node was
     * unselected: afterwards a node is selected iff it lies in the band.
     */
    static method SelectFound(places: seq<Node>, transitions: seq<Node>, nodes: seq<Node>, b: Bounds, controller: Controller)
      requires forall n <- places + transitions :: !n.selected
      requires nodes == NodesIn(places, b) + NodesIn(transitions, b)
      modifies places`selected, transitions`selected, controller`mode
      ensures forall n <- places + transitions :: n.selected == n.IsNodeInBounds(b)
      ensures controller.mode == if NodesIn(places, b) + NodesIn(transitions, b) == [] then old(controller.mode) else Finalise
    {
      FoundAmong(places, transitions, b);
      MarkFound(nodes, controller);
      forall n | n in places + transitions ensures n.selected == (n in nodes) {
      }
      SelectedIffInBand(places, transitions, nodes, b);
    }

    /** The nodes found in a band are among the nodes searched. */
    static lemma FoundAmong(places: seq<Node>, transitions: seq<Node>, b: Bounds)
      ensures var found := NodesIn(places, b) + NodesIn(transitions, b);
        forall j | 0 <= j < |found| :: found[j] in places + transitions
    {
      var found := NodesIn(places, b) + NodesIn(transitions, b);
      NodesInSpec(places, b);
      NodesInSpec(transitions, b);
      forall j | 0 <= j < |found| ensures found[j] in places + transitions {
        assert found[j] in NodesIn(places, b) || found[j] in NodesIn(transitions, b);
      }
    }

    /** When exactly the nodes found are selected, a node is selected iff it lies in the band. */
    static lemma SelectedIffInBand(places: seq<Node>, transitions: seq<Node>, nodes: seq<Node>, b: Bounds)
      requires nodes == NodesIn(places, b) + NodesIn(transitions, b)
      requires forall n <- places + transitions :: n.selected == (n in nodes)
      ensures forall n <- places + transitions :: n.selected == n.IsNodeInBounds(b)
    {
      NodesInSpec(places, b);
      NodesInSpec(transitions, b);
      forall n | n in places + transitions ensures n.selected == n.IsNodeInBounds(b) {
        assert n in nodes <==> n in NodesIn(places, b) || n in NodesIn(transitions, b);
      }
    }

    /** The loop of the END_DRAG case: each node found is selected, and each one sets FINALISE mode. */
    static method MarkFound(nodes: seq<Node>, controller: Controller)
      modifies nodes`selected, controller`mode
      ensures forall n <- nodes :: n.selected
      ensures controller.mode == if nodes == [] then old(controller.mode) else Finalise
    {
      var i := 0;
      while i < |nodes|
        invariant 0 <= i <= |nodes|
        invariant forall j :: 0 <= j < i ==> nodes[j].selected
        invariant controller.mode == if i == 0 then old(controller.mode) else Finalise
      {
        nodes[i].selected := true;
        controller.mode := Finalise;
        i := i + 1;
      }
    }

    /** release_selector: the selector's handler is removed from the net's controller. */
    method Release()
      modifies net.controller`handlers
      ensures net.controller.handlers == RemoveFirst(old(net.controller.handlers), SelectorHandler(this))
    {
      net.controller.Unmonitor(SelectorHandler(this));
    }
  }

  /** A connecting drag from a source node. What it does with later events is not part of this model. */
  class Connector {
    const controller: Controller
    const net: Net
    const source: Node

    /** create_connector: a session from the source node, registered as a handler. */
    constructor (controller: Controller, net: Net, source: Node)
      modifies controller`handlers
      ensures this.controller == controller && this.net == net && this.source == source
      ensures controller.handlers == old(controller.handlers) + [ConnectorHandler(this)]
    {
      this.controller := controller;
      this.net := net;
      this.source := source;
      new;
      controller.Monitor(ConnectorHandler(this));
    }
  }
}
