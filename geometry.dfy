/**
 * Plane geometry of the editing canvas: points, sizes, rectangles and the
 * hit tests built from them. Coordinates are whole pixels.
 */
module Geometry {

  datatype Point = Point(x: int, y: int)
  datatype Size = Size(w: int, h: int)
  /** A rectangle given by one corner and a (possibly negative) extent. */
  datatype Bounds = Bounds(point: Point, size: Size)

  function Abs(v: int): nat { if v < 0 then -v else v }
  function Min(a: int, b: int): int { if a <= b then a else b }
  function Max(a: int, b: int): int { if a <= b then b else a }

  lemma SquareMonotone(a: nat, b: nat)
    requires a <= b
    ensures a * a <= b * b
  {
    assert a * a <= a * b <= b * b;
  }

  /** The integer square root: the largest r whose square does not exceed n. */
  function Isqrt(n: nat): (r: nat)
    ensures r * r <= n < (r + 1) * (r + 1)
  {
    if n == 0 then 0
    else
      var s := Isqrt(n - 1);
      if (s + 1) * (s + 1) <= n then
        assert n <= (s + 1) * (s + 1);
        assert (s + 1) * (s + 1) < (s + 2) * (s + 2);
        s + 1
      else s
  }

  /** The bracketing of Isqrt determines it. */
  lemma IsqrtUnique(n: nat, r: nat)
    requires r * r <= n < (r + 1) * (r + 1)
    ensures r == Isqrt(n)
  {
    var q := Isqrt(n);
    if r < q {
      SquareMonotone(r + 1, q);
    } else if q < r {
      SquareMonotone(q + 1, r);
    }
  }

  function SquaredDistance(s: Point, t: Point): nat
  {
    (s.x - t.x) * (s.x - t.x) + (s.y - t.y) * (s.y - t.y)
  }

  /** Distance between two points, converted to an integer: the floor of the Euclidean distance. */
  function Distance(s: Point, t: Point): (d: nat)
    ensures d * d <= SquaredDistance(s, t) < (d + 1) * (d + 1)
  {
    Isqrt(SquaredDistance(s, t))
  }

  lemma DistanceSymmetric(s: Point, t: Point)
    ensures Distance(s, t) == Distance(t, s)
  {
    assert (s.x - t.x) * (s.x - t.x) == (t.x - s.x) * (t.x - s.x);
    assert (s.y - t.y) * (s.y - t.y) == (t.y - s.y) * (t.y - s.y);
  }

  lemma DistanceToSelf(s: Point)
    ensures Distance(s, s) == 0
  {
  }

  /**
   * A point lies on the segment source-target, within tolerance, when the two
   * distances through it add up to the segment's length give or take the tolerance.
   */
  predicate PointOnLine(source: Point, target: Point, p: Point, tolerance: int)
  {
    var d1 := Distance(source, target);
    var d2 := Distance(source, p);
    var d3 := Distance(target, p);
    d1 - tolerance <= d2 + d3 <= d1 + tolerance
  }

  /** The test does not depend on the direction of the segment. */
  lemma PointOnLineSymmetric(source: Point, target: Point, p: Point, tolerance: int)
    ensures PointOnLine(source, target, p, tolerance) == PointOnLine(target, source, p, tolerance)
  {
    DistanceSymmetric(source, target);
  }

  /** Both ends of a segment lie on it. */
  lemma EndpointsOnLine(source: Point, target: Point, tolerance: nat)
    ensures PointOnLine(source, target, source, tolerance)
    ensures PointOnLine(source, target, target, tolerance)
  {
    DistanceToSelf(source);
    DistanceToSelf(target);
    DistanceSymmetric(source, target);
  }

  /** A point far from both ends (beyond the segment length plus tolerance) is not on the segment. */
  lemma FarPointNotOnLine(source: Point, target: Point, p: Point, tolerance: int)
    requires Distance(source, p) > Distance(source, target) + tolerance
    ensures !PointOnLine(source, target, p, tolerance)
  {
  }

  /** Point near point: p lies in the square of half-side `adjustment` centred on `test`. */
  predicate PointOnPoint(p: Point, test: Point, adjustment: int)
  {
    test.x - adjustment <= p.x <= test.x + adjustment &&
    test.y - adjustment <= p.y <= test.y + adjustment
  }

  /** The rectangle with the same span, described from its low corner with a non-negative extent. */
  function Normalised(b: Bounds): (r: Bounds)
    ensures r.size.w >= 0 && r.size.h >= 0
    ensures r.point.x == Min(b.point.x, b.point.x + b.size.w)
    ensures r.point.x + r.size.w == Max(b.point.x, b.point.x + b.size.w)
    ensures r.point.y == Min(b.point.y, b.point.y + b.size.h)
    ensures r.point.y + r.size.h == Max(b.point.y, b.point.y + b.size.h)
  {
    Bounds(Point(if b.size.w < 0 then b.point.x + b.size.w else b.point.x,
                 if b.size.h < 0 then b.point.y + b.size.h else b.point.y),
           Size(Abs(b.size.w), Abs(b.size.h)))
  }

  /** Inclusive containment in a rectangle whose extent may be negative. */
  predicate PointInBounds(p: Point, b: Bounds)
  {
    var a := Normalised(b);
    a.point.x <= p.x <= a.point.x + a.size.w &&
    a.point.y <= p.y <= a.point.y + a.size.h
  }

  /** Describing a rectangle from its opposite corner does not change what it contains. */
  lemma PointInBoundsOppositeCorner(p: Point, b: Bounds)
    ensures PointInBounds(p, b) ==
            PointInBounds(p, Bounds(Point(b.point.x + b.size.w, b.point.y + b.size.h), Size(-b.size.w, -b.size.h)))
  {
  }

  /** A rectangle drawn towards the upper left contains what the mirrored, normal one does. */
  lemma PointInFlippedBounds(p: Point, o: Point, w: int, h: int)
    requires w >= 0 && h >= 0
    ensures PointInBounds(p, Bounds(o, Size(-w, -h))) ==
            PointInBounds(p, Bounds(Point(o.x - w, o.y - h), Size(w, h)))
  {
  }

  /** Containment is inclusive: every corner of a rectangle is inside it. */
  lemma CornersInBounds(b: Bounds)
    ensures PointInBounds(b.point, b)
    ensures PointInBounds(Point(b.point.x + b.size.w, b.point.y), b)
    ensures PointInBounds(Point(b.point.x, b.point.y + b.size.h), b)
    ensures PointInBounds(Point(b.point.x + b.size.w, b.point.y + b.size.h), b)
  {
  }

  /** Nearness to a point is containment in the square around it. */
  lemma PointOnPointAsBounds(p: Point, test: Point, adjustment: nat)
    ensures PointOnPoint(p, test, adjustment) ==
            PointInBounds(p, Bounds(Point(test.x - adjustment, test.y - adjustment), Size(2 * adjustment, 2 * adjustment)))
  {
  }

  /** Nearness is symmetric. */
  lemma PointOnPointSymmetric(p: Point, q: Point, adjustment: int)
    ensures PointOnPoint(p, q, adjustment) == PointOnPoint(q, p, adjustment)
  {
  }

  lemma MulAtLeast(m: int, a: int)
    requires m >= 1 && a > 0
    ensures m * a >= a
  {
    var k := m - 1;
    assert k * a >= 0;
    assert m * a == k * a + a;
  }

  /** Dividing a multiple of a by a gives back the multiplier, with no remainder. */
  lemma DivOfMultiple(k: int, a: int)
    requires a > 0
    ensures (k * a) / a == k
    ensures (k * a) % a == 0
  {
    var m := k * a;
    var d := m / a;
    var r := m % a;
    assert m == d * a + r;
    assert (k - d) * a == r;
    if k - d >= 1 {
      MulAtLeast(k - d, a);
    } else if d - k >= 1 {
      MulAtLeast(d - k, a);
    }
  }

  /** The quotient of C's integer division, which truncates toward zero. */
  function CQuot(v: int, a: int): int
    requires a > 0
  {
    if v >= 0 then v / a else -((-v) / a)
  }

  /** The remainder of C's integer division: it takes the sign of the dividend. */
  function CRem(v: int, a: int): (r: int)
    requires a > 0
    ensures v >= 0 ==> 0 <= r < a
    ensures v < 0 ==> -a < r <= 0
  {
    v - CQuot(v, a) * a
  }

  /** One coordinate of adjust_point: round down to a multiple of the grid, and never below one grid step. */
  function Snap(v: int, grid: int): int
    requires grid > 0
  {
    var c := v - CRem(v, grid);
    if c < grid then grid else c
  }

  function AdjustPoint(p: Point, grid: int): (r: Point)
    requires grid > 0
  {
    Point(Snap(p.x, grid), Snap(p.y, grid))
  }

  /** A snapped coordinate is a positive multiple of the grid, for every input. */
  lemma SnapOnGrid(v: int, grid: int)
    requires grid > 0
    ensures Snap(v, grid) >= grid
    ensures Snap(v, grid) % grid == 0
  {
    var k := CQuot(v, grid);
    if k * grid < grid {
      DivOfMultiple(1, grid);
    } else {
      DivOfMultiple(k, grid);
    }
  }

  /** From one grid step on, snapping picks the largest grid multiple that does not exceed the input. */
  lemma SnapRoundsDown(v: int, grid: int)
    requires grid > 0 && v >= grid
    ensures v - grid < Snap(v, grid) <= v
  {
  }

  /** Snapping an already snapped value changes nothing. */
  lemma SnapIdempotent(v: int, grid: int)
    requires grid > 0
    ensures Snap(Snap(v, grid), grid) == Snap(v, grid)
  {
    var k := CQuot(v, grid);
    var m := if k * grid < grid then 1 else k;
    assert Snap(v, grid) == m * grid;
    MulAtLeast(m, grid);
    DivOfMultiple(m, grid);
  }

  /** adjust_point lands on the grid, at or after the first grid line. */
  lemma AdjustPointOnGrid(p: Point, grid: int)
    requires grid > 0
    ensures AdjustPoint(p, grid).x >= grid && AdjustPoint(p, grid).x % grid == 0
    ensures AdjustPoint(p, grid).y >= grid && AdjustPoint(p, grid).y % grid == 0
  {
    SnapOnGrid(p.x, grid);
    SnapOnGrid(p.y, grid);
  }

  /** adjust_point is idempotent. */
  lemma AdjustPointIdempotent(p: Point, grid: int)
    requires grid > 0
    ensures AdjustPoint(AdjustPoint(p, grid), grid) == AdjustPoint(p, grid)
  {
    SnapIdempotent(p.x, grid);
    SnapIdempotent(p.y, grid);
  }

  /** A non-negative point moves by less than one grid step per axis, or up to the first grid line. */
  lemma AdjustPointNearby(p: Point, grid: int)
    requires grid > 0 && p.x >= 0 && p.y >= 0
    ensures AdjustPoint(p, grid).x <= Max(p.x, grid) && p.x - grid < AdjustPoint(p, grid).x
    ensures AdjustPoint(p, grid).y <= Max(p.y, grid) && p.y - grid < AdjustPoint(p, grid).y
  {
  }

  /** The midpoint of two points; the division is exact (not integer). */
  datatype Exact = Exact(x: real, y: real)

  function Midpoint(s: Point, t: Point): (m: Exact)
  {
    Exact((s.x + t.x) as real / 2.0, (s.y + t.y) as real / 2.0)
  }

  /** The midpoint is as far (per axis) from one end as from the other. */
  lemma MidpointEquidistant(s: Point, t: Point)
    ensures Midpoint(s, t).x - s.x as real == t.x as real - Midpoint(s, t).x
    ensures Midpoint(s, t).y - s.y as real == t.y as real - Midpoint(s, t).y
    ensures Midpoint(s, t) == Midpoint(t, s)
  {
  }
}
