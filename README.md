# gtk-twirl editing engine

This project models the interactive editing engine of gtk-twirl, a GTK
editor for Petri nets, and proves properties of that model.

- A net holds **places** and **transitions** (the nodes) and **arcs**.
- An arc joins two nodes along a path of **vertices**: a source end, any
  number of control points, and a target end.
- A **controller** keeps an interaction mode (NORMAL, CONNECT, MOVE, DRAG,
  FINALISE) and a list of registered event handlers.
  - The net is always the first handler.
  - Short-lived drag sessions register after it: **movers** drag nodes or
    vertices, **selectors** draw a rubber band, and **connectors** drag from
    a node.
  - The controller turns pointer and key input into events and hands each
    event to every registered handler in order.
- The net answers each event with the processor registered for its kind:
  - a click picks or places nodes;
  - a press starts a drag session;
  - the other processors connect two nodes, delete the selection, load a
    net or clear it.
- A **container** collects the arcs that run from one of its places to one
  of its transitions.

## Modules

- `geometry.dfy` (`Geometry`) — points, sizes, rectangles, integer distance,
  the line/point/rectangle hit tests and grid snapping (`src/geometry.c`).
- `vertex.dfy` (`Vertices`) — the vertex object (`src/vertex.c`).
- `node.dfy` (`Nodes`) — the node object, its square and its default name
  (`src/node.c`).
- `paths.dfy` (`Paths`) — an arc's path as a value, with:
  - the first segment a point hits;
  - the control point an insertion adds;
  - the first handle within reach;
  - the far corner of the path's extent.
- `arc.dfy` (`Arcs`) — the arc object (`src/arc.c`).
- `folds.dfy` (`Folds`) — the per-element actions `src/net.c` runs over its
  collections, as functions over sequences.
- `editor.dfy` (`Editor`):
  - the net (`src/net.c`);
  - the controller (`src/controller.c`);
  - movers (`src/mover.c`);
  - selectors (`src/selector.c`);
  - connectors.
- `container.dfy` (`Containers`) — the container (`src/container.c`).
- Supporting modules:
  - `seqs.dfy` (`Seqs`) — `g_ptr_array_remove` as `RemoveFirst`, and
    removing a set of elements as `Without`;
  - `decimal.dfy` (`Decimal`) — printing an integer with `%d` and reading
    one back;
  - `wrappers.dfy` — an option type;
  - `artifact.dfy` — the activation state.

## How the objects are modelled

- Nodes, arcs, vertices, the net, the controller, movers, selectors,
  connectors and the container are classes. Their fields are updated in
  place, as the C code does.
- Each `GPtrArray` the C code mutates is a `seq` field that the methods
  reassign.
- Points, sizes and rectangles are datatypes. Copying a point is copying a
  value, so a vertex or node never shares its point with the caller.
- The node type is a datatype `Kind`, so exactly one of `IsPlace()` and
  `IsTransition()` holds for every node.
- The loops and `g_ptr_array_foreach` walks of the source are methods with
  loops.
  - Each is proved against a function over the sequence it walks: the
    `Folds` functions and `Paths` functions.
  - Lemmas prove what those functions mean.
- Event delivery walks a snapshot of the handler list, taken when the
  notification starts.
  - A mover or selector that ends removes its own registration while the
    walk is under way.
  - The net is first in the list, and its processors for UPDATE_DRAG and
    END_DRAG are null. So for UPDATE_DRAG and END_DRAG the snapshot walk
    delivers to the same handlers as the walk over the live array.
  - The live walk re-reads the array's length at each step. So a session
    that the net registers while it handles START_DRAG also receives that
    same START_DRAG, which the snapshot walk does not deliver. Movers and
    selectors ignore START_DRAG, so the outcome is the same.

## Model

| member | source | states |
|---|---|---|
| Geometry.Isqrt | src/geometry.c:29 | the integer result of the square root is the largest r with r*r <= n |
| Geometry.IsqrtUnique | src/geometry.c:24-30 | only one integer brackets the square root, so the truncated distance is well defined |
| Geometry.Distance | src/geometry.c:24-30 | the truncated Euclidean distance: d*d <= dx*dx+dy*dy < (d+1)*(d+1) |
| Geometry.DistanceSymmetric | src/geometry.c:24-30 | the distance from s to t equals the distance from t to s |
| Geometry.DistanceToSelf | src/geometry.c:24-30 | a point is at distance 0 from itself |
| Geometry.PointOnLineSymmetric | src/geometry.c:36-44 | the on-line test gives the same answer with the segment's ends swapped |
| Geometry.EndpointsOnLine | src/geometry.c:36-44 | for any tolerance >= 0, both ends of a segment lie on it |
| Geometry.FarPointNotOnLine | src/geometry.c:36-44 | a point farther from the source than the segment's length plus the tolerance is not on the segment |
| Geometry.Normalised | src/geometry.c:104-112 | the normalised rectangle has non-negative size and spans the same interval min..max on each axis |
| Geometry.PointInBoundsOppositeCorner | src/geometry.c:104-118 | describing a rectangle from its opposite corner with the size negated does not change the hit test |
| Geometry.PointInFlippedBounds | src/geometry.c:104-118 | a rectangle with negative width and height hits the same points as the flipped rectangle (origin+size, abs(size)) |
| Geometry.CornersInBounds | src/geometry.c:114-117 | all four edges are inclusive: every corner of a rectangle is inside it |
| Geometry.PointOnPointAsBounds | src/geometry.c:91-98 | point_on_point(p, t, a) holds iff p lies in the square t-a..t+a on both axes, edges included |
| Geometry.PointOnPointSymmetric | src/geometry.c:91-98 | p is within reach of q iff q is within reach of p |
| Geometry.CRem | src/geometry.c:167-168 | the C remainder truncates toward zero: it has the sign of the dividend and is smaller than the divisor in magnitude |
| Geometry.SnapOnGrid | src/geometry.c:164-174 | a snapped coordinate is at least the grid pitch and a multiple of it, for every input including negative ones |
| Geometry.SnapRoundsDown | src/geometry.c:164-174 | a coordinate >= the pitch is rounded down to the grid, by less than one pitch |
| Geometry.SnapIdempotent | src/geometry.c:164-174 | snapping a snapped coordinate changes nothing |
| Geometry.AdjustPointOnGrid | src/geometry.c:164-174 | after adjust_point both coordinates are >= the pitch and multiples of it |
| Geometry.AdjustPointIdempotent | src/geometry.c:164-174 | adjust_point applied twice equals adjust_point applied once |
| Geometry.AdjustPointNearby | src/geometry.c:164-174 | for non-negative inputs each coordinate lands at or below max(input, pitch) and less than one pitch below the input |
| Geometry.MidpointEquidistant | src/geometry.c:124-130 | the midpoint is equally far from both ends on each axis and does not depend on their order |
| Vertices.Vertex.constructor | src/vertex.c:63-78 | a new vertex has exactly the given role and point, is unselected and inactive |
| Vertices.Vertex.SetPoint | src/vertex.c:45-48 | the vertex is moved to p; only its point changes, so setting the same point twice is setting it once |
| Nodes.BoundsAround | src/node.c:119-130 | a node's square is already normalised and contains the node's position |
| Nodes.BoundsAroundHit | src/node.c:98-102 | a point hits a node's square iff it is within 15 pixels of the centre on both axes |
| Nodes.DefaultNameSpec | src/node.c:147-156 | a default name is "p-" for a place or "t-" for a transition, followed by the id printed with %d |
| Nodes.DefaultNameInjective | src/node.c:147-156 | different kinds or different ids give different default names |
| Nodes.Node.constructor | src/node.c:175-288 | a new node has the requested kind, id 0, the name p-0 or t-0 with its text length, no tokens and not occupied for a place, duration 0 for a transition, and is unselected and inactive |
| Nodes.Node.SetPosition | src/node.c:119-130 | the position becomes p and the bounds become the 30-pixel square centred on it; the node is then at exactly the points within 15 pixels of p |
| Nodes.Utf8Length | src/node.c:139 | the UTF-8 byte length is between one and four bytes per character, and equals the number of characters exactly when every character is ASCII |
| Nodes.DefaultNameAscii | src/node.c:147-156 | a default name is ASCII, so its byte length is its length |
| Nodes.Node.SetName | src/node.c:136-141 | the name is set and the text length is 10 pixels per UTF-8 byte of the name, which is 10 per character exactly for an ASCII name |
| Nodes.Node.SetDefaultName | src/node.c:147-156 | the name becomes the kind's letter, a dash and the id, with its text length |
| Nodes.Node.Edit | src/node.c:36-57 | field 0 sets the name, with 10 pixels of text length per UTF-8 byte; field 1 sets the token count (the overlaid duration for a transition); any other field changes nothing |
| Paths.FirstHitFrom | src/arc.c:129-144 | the scan of consecutive vertex pairs returns the first segment, from the given one on, that passes through p, or reports that none does |
| Paths.FirstHitFound | src/arc.c:167-190 | the insertion search finds a segment iff the path passes through p, so is_arc_at_point holds iff arc_set_vertex inserts |
| Paths.WithControlShape | src/arc.c:122-150 | inserting at p adds one control point iff the path passes through p, at a position strictly inside the path, so the first and last vertices stay; removing it gives back the old path |
| Paths.WithControlOnPath | src/arc.c:122-150 | after a control point is inserted at p, the path still passes through p |
| Paths.FirstHandleFrom | src/arc.c:100-116 | the result is the first control vertex within 4 pixels of p, from the given index on, or none if there is none |
| Paths.ReachSpec | src/arc.c:49-74 | the path's extent is non-negative, bounds every vertex, and on each axis is 0 or some vertex's coordinate |
| Arcs.Arc.constructor | src/arc.c:219-245 | new_arc: no source, no target, no vertices, weight 1 |
| Arcs.Arc.Between | src/arc.c:251-262 | create_arc: weight 1, the given ends, and exactly two new vertices: SOURCE at the source node's position and TARGET at the target node's position |
| Arcs.Arc.AddVertex | src/arc.c:156-161 | the vertex is appended at the end and the earlier vertices are unchanged |
| Arcs.Arc.IsArcAtPoint | src/arc.c:167-190 | the arc is at p iff some segment of its path passes through p |
| Arcs.Arc.SetVertex | src/arc.c:122-150 | the path becomes the path with a control point inserted at p; when no segment is hit the vertex list is unchanged, and otherwise one new unselected vertex is inserted at the first segment hit |
| Arcs.Arc.InsertControl | src/arc.c:146-149 | one new unselected control vertex at p is inserted at index i; the others keep their order |
| Arcs.Arc.GetVertex | src/arc.c:100-116 | the result is the first control vertex within 4 pixels of p, never a source or target vertex, or null |
| Arcs.Arc.GetPathBounds | src/arc.c:62-74 | the result is the far corner of the path's extent, starting from (0, 0) |
| Arcs.Arc.Edit | src/arc.c:80-94 | field 1 sets the weight; any other field leaves it |
| Folds.NextId | src/net.c:215-221 | the next id is non-negative, exceeds every id in the collection, and is 0 or one more than some id |
| Folds.FirstAtSpec | src/net.c:334-338 | the search by point returns the first node whose square contains p, or none if there is none |
| Folds.FirstAtIs | src/net.c:334-338 | a node that contains p with no earlier node containing p is the one the search returns |
| Folds.NodeAtSpec | src/net.c:385-407 | the node found contains p and is a place or a transition; none is found iff no node contains p; a place is preferred whenever one contains p |
| Folds.NodesAtSpec | src/net.c:126-138 | the nodes the click collects are exactly the nodes of the collection that contain p |
| Folds.NodesAtEmpty | src/net.c:126-138 | the click collects nothing iff no node contains p |
| Folds.NodeAtFound | src/net.c:385-407 | net_find_node_by_point returns null iff SELECT_NODE_BY_POINT over places and transitions finds nothing |
| Folds.ArcsAtSpec | src/net.c:144-156 | the arcs a click collects are exactly the arcs whose path passes through p |
| Folds.ArcsAtDistinct | src/net.c:144-156 | a click collects each arc at most once |
| Folds.ArcsFromSpec | src/net.c:266-277 | the sources collected for a node are exactly the arcs leaving it |
| Folds.ArcsToSpec | src/net.c:266-277 | the targets collected for a node are exactly the arcs entering it |
| Folds.NodesInSpec | src/net.c:283-293 | the nodes collected for a rectangle are exactly those whose position lies in it |
| Folds.SelectedNodesSpec | src/net.c:299-318 | the nodes collected are exactly the selected ones |
| Folds.SourcesOfSpec | src/net.c:299-318 | the leaving arcs collected are exactly the arcs whose source is a collected node |
| Folds.TargetsOfSpec | src/net.c:299-318 | the entering arcs collected are exactly the arcs whose target is a collected node |
| Folds.NodesExtentSpec | src/net.c:227-240 | the size grows to cover every node's right and bottom edges and on each axis is the start value or some node's edge |
| Folds.PointsExtentSpec | src/net.c:246-260 | the size grows to cover every arc's path extent and on each axis is the start value or some arc's extent |
| Folds.ViewSizeCovers | src/net.c:546-566 | the canvas size is non-negative, covers every node's edges and every arc's path, and on each axis is 0 or attained by some node or arc |
| Folds.VertexAtSpec | src/net.c:364-379 | the vertex found is a control vertex of some arc within 4 pixels of p; none is found iff no arc has such a vertex |
| Folds.VertexAtFirst | src/net.c:364-379 | the arcs are searched in order: the first arc with a handle near p supplies the vertex |
| Folds.FirstWithId | src/net.c:324-328 | the lookup by id returns the first node with that id, or none if there is none |
| Folds.OfKindSpec | src/net.c:973-977 | adding nodes one by one sends exactly the nodes of each kind to that kind's collection |
| Folds.OfKindDistinct | src/net.c:973-977 | adding distinct nodes by kind gives collections without repeats |
| Seqs.RemoveFirst | src/controller.c:387-390 | g_ptr_array_remove leaves the array unchanged when the element is absent, and otherwise removes exactly one element |
| Seqs.RemoveFirstMultiset | src/controller.c:387-390 | removal takes away exactly one occurrence of the element and keeps every other |
| Seqs.RemoveFirstMembers | src/controller.c:387-390 | what remains after removal was there before, and every other element is still there |
| Seqs.RemoveFirstKeepsHead | src/controller.c:387-390 | removing an element other than the first keeps the first in place |
| Seqs.RemoveFirstSplit | src/controller.c:387-390 | removal cuts the array at the element's first occurrence and keeps the rest in order |
| Seqs.Without | src/net.c:832-850 | removing a set of elements never lengthens the array |
| Seqs.WithoutMembers | src/net.c:832-850 | what remains is exactly the elements not removed |
| Seqs.WithoutDistinct | src/net.c:832-850 | removing from an array without repeats leaves an array without repeats |
| Seqs.RemoveFirstDistinct | src/net.c:836-837 | in an array without repeats, removing one element is removing every occurrence of it |
| Seqs.RemoveFirstStep | src/net.c:832-850 | removing the listed elements one at a time equals removing the set of all of them |
| Seqs.WithoutNoop | src/net.c:832-850 | removing elements that are absent changes nothing |
| Seqs.WithoutWithout | src/net.c:832-850 | removing one set and then another is removing their union |
| Seqs.WithoutAppend | src/net.c:832-850 | removal acts on each part of a concatenation separately, keeping order |
| Decimal.NatToString | src/node.c:151 | %d of a natural number is a non-empty run of digits without a leading zero |
| Decimal.IntToString | src/node.c:151 | %d of an integer is never empty |
| Decimal.DigitsValueOfNatToString | src/node.c:151 | the digits printed by %d read back to the number |
| Decimal.IntToStringInjective | src/node.c:151 | different integers print differently |
| Decimal.ScanInt | src/net.c:919 | a successful %d scan consumes at least one and at most all characters |
| Decimal.ScanIntSkipsSpace | src/net.c:919 | %d skips the white space in front of a number and counts it as consumed |
| Decimal.ScanIntToString | src/net.c:919 | scanning %d over a printed integer followed by a non-digit returns that integer and the printed length |
| Decimal.ScanPairOfWritten | src/net.c:914-934 | scanning "%d-%d" over two printed integers joined by a dash returns both integers |
| Decimal.ScanPairNeedsDash | src/net.c:919 | when the first number is not followed by a dash the scan fails |
| Decimal.ScanPairSpaced | src/net.c:919 | "0- 3" and " 0- 3" both scan as (0, 3): white space is skipped in front of each number |
| Decimal.ScanPairSpaceBeforeDash | src/net.c:919 | "0 -3" does not scan as a pair: the dash in the format must come right after the first number |
| Editor.SessionsAfterRemoval | src/controller.c:387-390 | unregistering a session keeps the net first and leaves only sessions after it |
| Editor.ArcsForNode | src/net.c:266-277 | the walk collects, in order, the arcs leaving the node and the arcs entering it |
| Editor.SelectedWithArcs | src/net.c:299-318 | the walk collects the selected nodes and, for each in turn, the arcs leaving and entering it |
| Editor.VisitNode | src/net.c:299-318 | after one more node is walked, the collected nodes are still the selected ones walked so far, each followed in the arc lists by the arcs leaving it and entering it |
| Editor.GrowOverNodes | src/net.c:227-240 | the walk grows the size over the nodes' edges as NodesExtent describes |
| Editor.GrowOverArcs | src/net.c:246-260 | the walk grows the size over the arcs' path extents as PointsExtent describes |
| Editor.UnselectNodes | src/net.c:195-199 | every node walked is unselected |
| Editor.UnselectArcs | src/net.c:205-209 | every arc walked is unselected |
| Editor.SelectNodesAt | src/net.c:126-138 | each node is selected iff its square contains p, and the hits are collected in order |
| Editor.SelectArcsAt | src/net.c:144-156 | each arc is selected iff its path passed through p, and the hits are collected in order |
| Editor.SelectArcAt | src/net.c:144-156 | one arc is selected iff its path passed through p, and the hit is reported |
| Editor.SelectArcsKeepingPaths | src/net.c:636-639 | selecting the arcs at p leaves every path as it was |
| Editor.RemoveNodes | src/net.c:832-838 | the listed nodes leave places and transitions, and the rest stay in order |
| Editor.KeptValid | src/net.c:832-850 | removing nodes and arcs keeps places holding places and transitions holding transitions, with no repeats |
| Editor.RemoveArcs | src/net.c:840-850 | the listed arcs leave the arcs, and the rest stay in order |
| Editor.PickArcs | src/net.c:632-662 | each arc is selected iff its path passed through p; in CONNECT mode each path gains a control point at p, and otherwise no vertex list changes |
| Editor.InsertOnArcs | src/net.c:652-662 | inserting on the hit arcs gives every arc its path with a control point inserted at p |
| Editor.InsertControlPoints | src/net.c:656-661 | each hit arc gains a control point where its path passes through p |
| Editor.InsertOnPathAt | src/net.c:656-661 | the i-th arc hit gains a control point where its path passes through p, and every other arc keeps its vertices and its path |
| Editor.ClearSelection | src/net.c:604-605 | nothing in the net stays selected |
| Editor.Pick | src/net.c:604-663 | a node is selected iff it contains p; arcs are selected only when no node was hit, and then iff their path passes through p; in CONNECT mode those paths gain a control point |
| Editor.ClickNodes | src/net.c:604-618 | everything is unselected, then the nodes containing p are selected and returned with places first; no arc changes |
| Editor.SelectBothAt | src/net.c:618 | over the places and then the transitions, a node is selected iff its square contains p, and the hits are returned with places first |
| Editor.CollectNodesIn | src/net.c:283-293 | the nodes whose position is in the rectangle are collected, and every node walked is unselected |
| Editor.Heads | src/mover.c:49-55 | the first vertex of each arc that has vertices, and nothing else |
| Editor.Tails | src/mover.c:61-66 | the last vertex of each arc that has vertices, and nothing else |
| Editor.MoveAll | src/mover.c:49-66 | every listed vertex is moved to the given point |
| Editor.Controller.constructor | src/controller.c:419-527 | the mode is NORMAL and the only handler is a new empty net, whose tool is SELECT |
| Editor.Controller.Monitor | src/controller.c:378-381 | the handler is appended at the end |
| Editor.Controller.Unmonitor | src/controller.c:387-390 | the first registration of the handler is removed and the others keep their order |
| Editor.Controller.Deliver | src/controller.c:43-47 | one delivery is recorded; the net stays first; a CREATE_NODE delivery changes neither mode nor handlers |
| Editor.Controller.DeliverToNet | src/net.c:949-956 | the net runs the processor for the event; the net stays first |
| Editor.Controller.DeliverToSession | src/controller.c:43-47 | a session handles the event; the net stays first |
| Editor.Controller.DeliverToMover | src/mover.c:220 | a mover handles the event as nodes or as vertices, as it was created; the net stays first and every other handler stays a session |
| Editor.Controller.DeliverToSelector | src/selector.c:133 | a selector handles the event; the net stays first and every other handler stays a session |
| Editor.Controller.Notify | src/controller.c:53-57 | the event is delivered to each handler registered when notification starts, in list order |
| Editor.Controller.GestureReleased | src/controller.c:277-294 | in FINALISE mode nothing is delivered and the mode becomes NORMAL; otherwise exactly one CREATE_NODE is delivered to every handler and the mode stays |
| Editor.Controller.KeyPressed | src/controller.c:300-317 | Shift gives MOVE, Control alone gives CONNECT, neither leaves the mode; the key is always consumed |
| Editor.Controller.KeyReleased | src/controller.c:323-330 | any key release sets NORMAL |
| Editor.Controller.DragBegin | src/controller.c:336-341 | START_DRAG at the pointer, carrying the current mode, is delivered to every handler |
| Editor.Controller.DragUpdate | src/controller.c:347-352 | UPDATE_DRAG with the offset and the current mode is delivered to every handler |
| Editor.Controller.DragEnd | src/controller.c:358-363 | END_DRAG with the offset and the current mode is delivered to every handler |
| Editor.Net.constructor | src/net.c:1002-1053 | a new net is attached to its controller and has no places, transitions or arcs |
| Editor.Net.SetTool | src/net.c:354-358 | the tool becomes the event's |
| Editor.Net.AddNode | src/net.c:973-977 | a node is appended to the collection of its kind, and the other collection is unchanged |
| Editor.Net.AddArc | src/net.c:983-987 | the arc is appended at the end |
| Editor.Net.NextNodeId | src/net.c:679-686 | the id for a new node is the next id of its kind's collection |
| Editor.Net.FindNodeByPoint | src/net.c:385-407 | the first place containing p, else the first transition containing p, else null |
| Editor.Net.FindVertexByPoint | src/net.c:364-379 | the first control vertex within reach of p, arc by arc, else null |
| Editor.Net.FindNode | src/net.c:914-934 | "type-id" is scanned; type 0 searches the places and any other type the transitions, for the first node with that id; an unreadable text gives null |
| Editor.Net.GetSelectedNodes | src/net.c:299-318 | the selected nodes, places first, and the arcs leaving and entering each of them |
| Editor.Net.Resize | src/net.c:546-566 | the reported size is the net's view size: grown from (0, 0) over the nodes' edges and then the arcs' paths |
| Editor.Net.UnselectAllNodes | src/net.c:195-199 | no node stays selected |
| Editor.Net.UnselectAllArcs | src/net.c:205-209 | no arc stays selected |
| Editor.Net.UnselectAll | src/net.c:604-605 | nothing in the net stays selected |
| Editor.Net.SelectNodesByPoint | src/net.c:126-138 | each node is selected iff it contains p; the hits are returned with places first |
| Editor.Net.SelectArcsByPoint | src/net.c:144-156 | each arc is selected iff its path passed through p; the hits are returned in order |
| Editor.Net.Select | src/net.c:572-591 | every arc and node is unselected, and the nodes whose position is in the rectangle are returned with places first |
| Editor.Net.PickAt | src/net.c:604-668 | a click with the select tool: a node is selected iff it contains p; if no node does, an arc is selected iff its path passes through p, and in CONNECT mode such paths gain a control point; otherwise no vertex list changes |
| Editor.Net.CreateNode | src/net.c:679-695 | the new node has the tool's kind, the next id of its kind, its default name, and a position snapped to the 8-pixel grid |
| Editor.Net.NumberedNode | src/net.c:682-695 | a new unselected node of the given kind carrying the given id, the default name for it, and the given position with its square |
| Editor.Net.AddCreatedNode | src/net.c:679-703 | the created node is appended to the collection of its kind |
| Editor.Net.PlaceAt | src/net.c:669-729 | a click with the place or transition tool: a node is created only if none is at p, and is then appended; otherwise no collection changes and the node at p is the only selected one |
| Editor.Net.PlaceOnCleared | src/net.c:671-724 | the same choice once everything is unselected: select the node at p, or create and append a new one |
| Editor.Net.StartDragProcessor | src/net.c:736-782 | a press on a node starts a connector in CONNECT mode, a node mover with its leaving and entering arcs in MOVE mode, and nothing in other modes; elsewhere it starts a vertex mover on a control vertex within reach, else a selector; the new session is appended to the handlers |
| Editor.Net.StartNodeSession | src/net.c:745-763 | on a node: a connector in CONNECT mode, a mover of the node and its arcs in MOVE mode, nothing otherwise |
| Editor.Net.StartVertexMover | src/net.c:772-780 | a mover of the vertex is registered, and the vertex becomes selected |
| Editor.Net.ConnectProcessor | src/net.c:788-814 | an arc is appended iff a node of the other kind is at the target point; it is then the only selected node or arc and the mode is FINALISE; otherwise nothing changes |
| Editor.Net.ConnectNodes | src/net.c:794-809 | everything is unselected, a new selected arc from source to target is appended, and the mode is FINALISE |
| Editor.Net.NewSelectedArc | src/net.c:797-799 | a new selected arc of weight 1 whose path runs straight from the source's position to the target's |
| Editor.Net.DeleteSelected | src/net.c:820-857 | the selected nodes leave places and transitions and the arcs touching them leave the arcs; everything else stays, in order |
| Editor.Net.DeleteCollected | src/net.c:832-850 | removing the collected nodes and arcs removes exactly the selected nodes and the arcs touching them |
| Editor.Net.DoomedAre | src/net.c:299-318 | the collected nodes are exactly the selected nodes |
| Editor.Net.DoomedArcsAre | src/net.c:299-318 | the collected arcs are exactly the arcs leaving or entering a selected node |
| Editor.Net.Reset | src/net.c:496-527 | places, transitions and arcs all end empty |
| Editor.Net.ReadNet | src/net.c:863-882 | the net is replaced by the reader's nodes, split by kind in order, and its arcs; nothing stays selected |
| Editor.Net.AddNodes | src/net.c:973-977 | the reader's nodes are added by kind, keeping their order |
| Editor.Net.SplitByKind | src/net.c:973-977 | adding nodes by kind leaves only places among the places and only transitions among the transitions, with no repetition when the nodes are distinct |
| Editor.Net.AddArcs | src/net.c:983-987 | the reader's arcs are added in order |
| Editor.Net.Clear | src/net.c:888-896 | the net ends empty |
| Editor.Net.Handle | src/net.c:949-956 | the processor for the event runs: the tool changes only on TOOL_SELECTED and CREATE_NET, only START_DRAG registers a session, only CONNECT_NODES changes the mode, drawing, writing and the two drag events without a processor leave the net alone, READ_NET and CLEAR_NET replace its contents |
| Editor.Net.HandlePointer | src/net.c:1021-1023 | the click and press processors keep the arcs and the tool, and register at most one session |
| Editor.Net.HandleCommand | src/net.c:1025-1026 | connecting and deleting keep the tool, and deleting keeps the mode |
| Editor.Net.HandleFile | src/net.c:1027-1030 | reading replaces the contents with the reader's; clearing empties the net |
| Editor.Mover.constructor | src/mover.c:214-241 | the start point is the offset, all four lists are empty, and the mover's handler is appended to the controller's |
| Editor.Mover.AddNode | src/mover.c:193-196 | the node is appended |
| Editor.Mover.AddVertex | src/mover.c:184-187 | the vertex is appended |
| Editor.Mover.PlaceNodes | src/mover.c:78-89 | every moved node goes to the point with its square re-derived, and the first vertex of each leaving arc and the last vertex of each entering arc follow it |
| Editor.Mover.PlaceNode | src/mover.c:80-88 | one node goes to the point and the arc ends follow; no other node moves |
| Editor.Mover.MoveNodes | src/mover.c:72-121 | UPDATE_DRAG puts the nodes at offset+drag and END_DRAG at that point snapped to the 8-pixel grid, with the arc ends following; other events move nothing; END_DRAG unregisters the mover |
| Editor.Mover.MoveVertices | src/mover.c:127-177 | UPDATE_DRAG puts each vertex at offset+drag snapped to the 4-pixel grid; END_DRAG puts it there unsnapped and unselects it, then unregisters the mover; other events change nothing |
| Editor.Mover.Release | src/mover.c:202-208 | the mover's registration is removed from the controller |
| Editor.Selector.constructor | src/selector.c:129-156 | the start point is both position and offset, and the selector is registered |
| Editor.Selector.Handle | src/selector.c:49-111 | UPDATE_DRAG sets offset = position + drag; END_DRAG unselects every arc, selects exactly the nodes whose position is in the band from position to the last offset, switches to FINALISE iff some node was selected, and unregisters; other events change nothing |
| Editor.Selector.SelectInBand | src/selector.c:64-87 | every arc is unselected, a node is selected iff its position is in the band, and the mode becomes FINALISE iff some node is |
| Editor.Selector.EndBand | src/selector.c:61-97 | the END_DRAG case: the band's selection is made as Editor.Selector.SelectInBand states, then the selector's handler is removed |
| Editor.Selector.SelectFound | src/selector.c:79-87 | when every node was unselected and the nodes found are those in the band, marking them selects a node iff its position is in the band, and FINALISE is set iff some node is in it |
| Editor.Selector.MarkFound | src/selector.c:79-87 | each node found is selected, and the mode becomes FINALISE iff at least one was found |
| Editor.Selector.Release | src/selector.c:117-123 | the selector's registration is removed from the controller |
| Editor.Connector.constructor | src/net.c:747 | a connector from the source node is registered with the controller |
| Containers.ConnectingSpec | src/container.c:41-66 | an arc is kept iff it is one of the scanned arcs, its source is one of the places and its target one of the transitions |
| Containers.ConnectingCount | src/container.c:41-66 | each passing arc is kept as many times as it is listed, and no other arc is kept |
| Containers.ConnectingAppend | src/container.c:41-92 | scanning two lists one after the other keeps each list's order |
| Containers.Container.constructor | src/container.c:110-126 | all five lists start empty |
| Containers.Container.Clean | src/container.c:37-94 | the passing leaving arcs, then the passing entering arcs, are appended to arcs in order; no other list changes |
| Containers.CleanedCount | src/container.c:41-92 | an arc that passes and is listed in both the leaving and the entering arcs is appended twice: nothing is de-duplicated |

## Left out

- GTK wiring is not modelled: widgets, the toolbar and file-dialog callbacks, `controller_send` and `controller_message`, and all of `src/editor.c`. The `node->edit`/`arc->edit` calls and CLEAR_EDITOR messages only fill editor widgets, and are left out with them.
- Rendering is not modelled: DRAW_REQUESTED processors, painters, drawers and redraw requests. It is all cairo and GTK calls.
- `src/reader.c` and `src/writer.c` are not part of this model. A READ_NET event carries the nodes and arcs the reader would add, in order, and WRITE_NET leaves the net alone.
- Editor.Net.ReadNet: it requires the reader's nodes and arcs to be distinct. The reader always creates new objects.
- Events are a datatype; `create_event` and its varargs are not modelled.
- Editor.Net.Resize: it returns the size instead of sending SET_VIEW_SIZE. The ACTIVATE_DELETE and ACTIVATE_TOOLBAR notifications are not modelled either.
- `get_length`, `distance_between` and `get_point_on_line` are not modelled; they are floating-point helpers that the editing engine never calls.
- Coordinates are integers: the model limits pointer input to whole pixels. The source stores doubles, and pointer positions arrive as doubles. Placing a node (`set_point` then `adjust_point`), dropping a node at the end of a node move, and the selector's band use them without an `(int)` cast. On fractional input the source leaves created and dropped nodes off the grid (x = 100.5 snaps to 96.5), which the model does not capture. `get_distance` is the truncated square root.
- `src/connector.c` is not part of this model. A connector registers itself, but what it does with later drag events is not modelled.
- Key state is modelled as two booleans (Control held, Shift held). The rest of the GDK modifier mask is not modelled.
- The node's back pointer to its net is not modelled. Memory release (`release_*`, `g_free`) is not modelled.
- The activation state of nodes is not modelled, and neither is the `artifact` setup. New nodes and vertices are unselected and INACTIVE, as `new_place`, `new_transition` and `create_vertex` leave them.
- Arcs.Arc.constructor: it states nothing about `selected` and `state`, because `new_arc` does not initialise them. The model stores false and INACTIVE.
- Nodes.Node.constructor: it leaves the position unspecified, because `new_node` does not initialise it. It states only that the bounds are the square around it; every node the editor keeps gets a position through `set_position`.
- Editor.Net.FindNode: it answers null when the text does not scan as "%d-%d". In that case the source goes on with an uninitialised type or id.
- Decimal.ScanInt: it reads numbers of any size, where `%d` on a value outside the range of `int` is undefined behaviour in C. It does not model a NUL character ending the text early.
- Editor.Net.Handle: it treats event kinds without a processor as no-ops. In the source, the processor table entries that `net_create` never assigns are uninitialised.
- Editor.Net.constructor: it leaves the tool unspecified, as the source leaves it uninitialised before the first CREATE_NET. Editor.Controller.constructor sets it to SELECT at once, as the CREATE_NET sent at start-up does.
- Editor.Mover.PlaceNodes: it moves an arc end only if the arc has at least one vertex, where the source would index an empty array. Every arc the editor builds has two vertices or more.
- Editor.Mover.MoveNodes: it states that only the positions, bounds and arc ends change through its `modifies` frame, not through an `ensures` clause.
- Editor.Net.Handle: for a click, a press, connecting and deleting, its own contract states only the invariant, the tool, the mode and the session registration. The effect on nodes and arcs is stated by `Editor.Net.PickAt`, `Editor.Net.PlaceAt`, `Editor.Net.StartDragProcessor`, `Editor.Net.ConnectProcessor` and `Editor.Net.DeleteSelected`.
- Editor.Net.HandlePointer: its contract is limited in the same way as Editor.Net.Handle's.
- Editor.Net.HandleCommand: its contract is limited in the same way as Editor.Net.Handle's.
- Editor.Controller.Notify: it states which handler received which event, and that the net stays first. It does not compose each handler's effect on the net.
- Editor.Controller.Notify: it delivers to the handlers registered when notification starts. The source's `g_ptr_array_foreach` also delivers a START_DRAG to the session the net registers while handling it. That delivery is left out because movers and selectors ignore START_DRAG, and what a connector does with events is not modelled.
- Editor.Controller.Deliver: limited in the same way as Editor.Controller.Notify.
- Editor.Controller.DeliverToNet: limited in the same way as Editor.Controller.Notify.
- Editor.Controller.DeliverToSession: limited in the same way as Editor.Controller.Notify.
- Editor.Controller.DeliverToMover: limited in the same way as Editor.Controller.Notify.
- Editor.Controller.DeliverToSelector: limited in the same way as Editor.Controller.Notify.
- Editor.Controller.GestureReleased: limited in the same way as Editor.Controller.Notify.
- Editor.Controller.DragBegin: limited in the same way as Editor.Controller.Notify.
- Editor.Controller.DragBegin: it does not record the START_DRAG delivery to the session registered during it, for the reason given for Editor.Controller.Notify.
- Editor.Controller.DragUpdate: limited in the same way as Editor.Controller.Notify.
- Editor.Controller.DragEnd: limited in the same way as Editor.Controller.Notify.
- Editor.Selector.Handle: it evaluates the band test on the nodes' positions after the event, where the source tests them during it. Selecting does not move nodes, so the answer is the same.
- Editor.Selector.SelectInBand: it evaluates the band test in the same way as Editor.Selector.Handle.
- Editor.Selector.EndBand: it evaluates the band test in the same way as Editor.Selector.Handle.
- Nodes.Node.SetName: a name containing a NUL character is stored whole, where `g_string_new` would cut it at the NUL. Names typed into the editor contain none.
- Containers.Container.Clean: the unused writer that `container_clean` creates is not modelled.
