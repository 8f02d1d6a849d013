/**
 * Nodes of a Petri net: places, which hold tokens, and transitions. A node is
 * drawn as a 30-pixel square centred on its position.
 */
module Nodes {
  import opened Geometry
  import opened Artifacts
  import opened Decimal

  datatype Kind = Place | Transition

  /** Half the side of a node's square, and the side itself. */
  const HalfExtent: int := 15
  const Extent: int := 30
  /** Width in pixels reserved per byte of a node's name. */
  const CharWidth: int := 10

  /** The square a node at p occupies. */
  function BoundsAround(p: Point): (b: Bounds)
    ensures Normalised(b) == b
    ensures PointInBounds(p, b)
  {
    Bounds(Point(p.x - HalfExtent, p.y - HalfExtent), Size(Extent, Extent))
  }

  /** A point hits the square around c exactly when it is within 15 pixels of c along both axes. */
  lemma BoundsAroundHit(c: Point, p: Point)
    ensures PointInBounds(p, BoundsAround(c)) <==> Abs(p.x - c.x) <= HalfExtent && Abs(p.y - c.y) <= HalfExtent
  {
  }

  function KindLetter(kind: Kind): char
  {
    if kind == Transition then 't' else 'p'
  }

  /** The name a node gets when it is created: its kind's letter, a dash and its id. */
  function DefaultName(kind: Kind, id: int): string
  {
    [KindLetter(kind), '-'] + IntToString(id)
  }

  /** A default name is "p-" or "t-" followed by the id printed in decimal. */
  lemma DefaultNameSpec(kind: Kind, id: int)
    ensures var s := DefaultName(kind, id);
      |s| >= 3 && s[..2] == (if kind == Place then "p-" else "t-") && s[2..] == IntToString(id)
  {
  }

  /** Nodes of different kind, or with different ids, get different default names. */
  lemma DefaultNameInjective(k1: Kind, i1: int, k2: Kind, i2: int)
    requires DefaultName(k1, i1) == DefaultName(k2, i2)
    ensures k1 == k2 && i1 == i2
  {
    DefaultNameSpec(k1, i1);
    DefaultNameSpec(k2, i2);
    assert DefaultName(k1, i1)[0] == KindLetter(k1);
    assert DefaultName(k1, i1)[2..] == IntToString(i1);
    assert DefaultName(k2, i2)[2..] == IntToString(i2);
    IntToStringInjective(i1, i2);
  }

  /** The number of bytes UTF-8 encodes c in. */
  function Utf8Width(c: char): (n: int)
    ensures 1 <= n <= 4
    ensures n == 1 <==> c as int < 0x80
  {
    if c as int < 0x80 then 1
    else if c as int < 0x800 then 2
    else if c as int < 0x10000 then 3
    else 4
  }

  /** The length in bytes of s encoded in UTF-8, which a GString's len counts. */
  function Utf8Length(s: string): (n: nat)
    ensures |s| <= n <= 4 * |s|
    ensures n == |s| <==> forall i :: 0 <= i < |s| ==> s[i] as int < 0x80
  {
    if s == [] then 0
    else
      var n := Utf8Width(s[0]) + Utf8Length(s[1..]);
      assert forall i :: 1 <= i < |s| ==> s[i] == s[1..][i - 1];
      n
  }

  /** Default names are plain ASCII, so their byte length is their length. */
  lemma DefaultNameAscii(kind: Kind, id: int)
    ensures Utf8Length(DefaultName(kind, id)) == |DefaultName(kind, id)|
  {
    var s := DefaultName(kind, id);
    var digits := if id < 0 then -id else id;
    assert AllDigits(NatToString(digits));
    forall i | 0 <= i < |s|
      ensures s[i] as int < 0x80
    {
      if i >= 2 {
        if id < 0 && i >= 3 {
          assert s[i] == NatToString(digits)[i - 3];
        } else if id >= 0 {
          assert s[i] == NatToString(digits)[i - 2];
        }
      }
    }
  }

  /** The values a node holds besides its selection flag. */
  datatype NodeData = NodeData(id: int, name: string, textLength: int, position: Point, bounds: Bounds,
                               marked: int, occupied: bool, duration: int, state: Activation)

  class Node {
    const kind: Kind
    var id: int
    var name: string
    var textLength: int
    var position: Point
    var bounds: Bounds
    /** Tokens held by a place. */
    var marked: int
    var occupied: bool
    /** Firing duration of a transition; in memory it overlays a place's token count. */
    var duration: int
    var selected: bool
    var state: Activation

    ghost function Data(): NodeData
      reads this`id, this`name, this`textLength, this`position, this`bounds
      reads this`marked, this`occupied, this`duration, this`state
    {
      NodeData(id, name, textLength, position, bounds, marked, occupied, duration, state)
    }

    /**
     * create_node: a place or a transition with id 0, its default name, no
     * tokens (or zero duration), inactive and unselected.
     */
    constructor (kind: Kind)
      ensures this.kind == kind && id == 0
      ensures name == DefaultName(kind, 0) && textLength == |name| * CharWidth
      ensures textLength == Utf8Length(name) * CharWidth
      ensures kind == Place ==> marked == 0 && !occupied
      ensures kind == Transition ==> duration == 0
      ensures !selected && state == Inactive
      ensures bounds == BoundsAround(position)
    {
      this.kind := kind;
      id := 0;
      var n := DefaultName(kind, 0);
      name := n;
      textLength := Utf8Length(n) * CharWidth;
      DefaultNameAscii(kind, 0);
      position := Point(0, 0);
      bounds := BoundsAround(Point(0, 0));
      marked := 0;
      occupied := false;
      duration := 0;
      selected := false;
      state := Inactive;
    }

    predicate IsPlace() { kind == Place }
    predicate IsTransition() { kind == Transition }

    /** is_node_at_point: the point lies in the node's bounds, edges included. */
    predicate IsNodeAtPoint(p: Point)
      reads this`bounds
    {
      PointInBounds(p, bounds)
    }

    /** is_node_in_bounds: the node's position lies in the rectangle. */
    predicate IsNodeInBounds(b: Bounds)
      reads this`position
    {
      PointInBounds(position, b)
    }

    /** set_position: moves the node and re-derives its square from the new position. */
    method SetPosition(p: Point)
      modifies this`position, this`bounds
      ensures position == p && bounds == BoundsAround(p)
      ensures forall q :: IsNodeAtPoint(q) <==> Abs(q.x - p.x) <= HalfExtent && Abs(q.y - p.y) <= HalfExtent
    {
      position := p;
      bounds := BoundsAround(p);
      forall q {
        BoundsAroundHit(p, q);
      }
    }

    /**
     * set_name: replaces the name; the text width follows its length in
     * UTF-8 bytes, which is its number of characters for an ASCII name.
     */
    method SetName(s: string)
      modifies this`name, this`textLength
      ensures name == s && textLength == Utf8Length(s) * CharWidth
      ensures textLength >= |s| * CharWidth
      ensures (forall i :: 0 <= i < |s| ==> s[i] as int < 0x80) <==> textLength == |s| * CharWidth
    {
      name := s;
      textLength := Utf8Length(s) * CharWidth;
    }

    /** set_default_name: names the node after its kind and current id. */
    method SetDefaultName()
      modifies this`name, this`textLength
      ensures name == DefaultName(kind, id) && textLength == |name| * CharWidth
    {
      SetName(DefaultName(kind, id));
      DefaultNameAscii(kind, id);
    }

    /**
     * node_edit_handler: field 0 of the property editor renames the node;
     * field 1 sets the token count, which for a transition lands in the
     * duration that shares its storage. Any other field changes nothing.
     */
    method Edit(field: int, text: string, tokens: int)
      modifies this`name, this`textLength, this`marked, this`duration
      ensures field == 0 ==> name == text && textLength == Utf8Length(text) * CharWidth
      ensures field == 0 ==> marked == old(marked) && duration == old(duration)
      ensures field == 1 && kind == Place ==> marked == tokens && duration == old(duration)
      ensures field == 1 && kind == Transition ==> duration == tokens && marked == old(marked)
      ensures field == 1 ==> name == old(name) && textLength == old(textLength)
      ensures field != 0 && field != 1 ==> Data() == old(Data())
    {
      if field == 0 {
        SetName(text);
      } else if field == 1 {
        if kind == Place {
          marked := tokens;
        } else {
          duration := tokens;
        }
      }
    }
  }
}
