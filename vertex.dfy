/** A vertex: one corner of an arc's path (its source end, its target end, or a control point). */
module Vertices {
  import opened Geometry
  import opened Artifacts

  datatype Role = Source | Target | Control

  class Vertex {
    const role: Role
    var point: Point
    var selected: bool
    var state: Activation

    /** create_vertex: an inactive, unselected vertex with the given role and point. */
    constructor (role: Role, p: Point)
      ensures this.role == role && point == p
      ensures !selected && state == Inactive
    {
      this.role := role;
      point := p;
      selected := false;
      state := Inactive;
    }

    /** vertex_set_point: moves the vertex; its role and flags stay as they were. */
    method SetPoint(p: Point)
      modifies this`point
      ensures point == p
    {
      point := p;
    }
  }
}
