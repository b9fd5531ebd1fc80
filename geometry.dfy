/** Points, rigid rotations and distance comparisons (create_gear.py `rotatePts`, `dist`). */
module Geometry {

  /** A point of a profile cloud; coordinates are exact reals. */
  datatype Point = Point(x: real, y: real)

  /** An angle given by its cosine and sine, as `math.cos(theta)`, `math.sin(theta)` return them. */
  datatype Rot = Rot(c: real, s: real)

  const Origin := Point(0.0, 0.0)

  /** The pair is (cos theta, sin theta) for some real theta. */
  predicate Unit(r: Rot) {
    r.c * r.c + r.s * r.s == 1.0
  }

  /** The angle -theta. */
  function Inverse(r: Rot): Rot {
    Rot(r.c, -r.s)
  }

  function SqDist(p: Point, q: Point): real {
    (p.x - q.x) * (p.x - q.x) + (p.y - q.y) * (p.y - q.y)
  }

  /** The counter-clockwise rotation of one point about `axis`, written as rotatePts writes it. */
  function RotatePoint(p: Point, axis: Point, r: Rot): Point {
    Point(((p.x - axis.x) * r.c - (p.y - axis.y) * r.s) + axis.x,
          ((p.x - axis.x) * r.s + (p.y - axis.y) * r.c) + axis.y)
  }

  /** rotatePts: the list comprehension over `points`, in order. */
  function RotatePts(pts: seq<Point>, axis: Point, r: Rot): (out: seq<Point>)
    ensures |out| == |pts|
    ensures forall k :: 0 <= k < |pts| ==> out[k] == RotatePoint(pts[k], axis, r)
  {
    seq(|pts|, k requires 0 <= k < |pts| => RotatePoint(pts[k], axis, r))
  }

  /** `dist(x, y) >= r`, that is sqrt(x*x + y*y) >= r, decided without a square root. */
  predicate DistAtLeast(x: real, y: real, r: real) {
    r <= 0.0 || x * x + y * y >= r * r
  }

  /** For any non-negative d with d*d == x*x + y*y (the value `math.sqrt` returns),
      `d >= r` holds exactly when DistAtLeast does; so `dist(x, y) < r` is `!DistAtLeast(x, y, r)`. */
  lemma DistAtLeastIsDist(x: real, y: real, d: real, r: real)
    requires d >= 0.0 && d * d == x * x + y * y
    ensures d >= r <==> DistAtLeast(x, y, r)
  {
    if d >= r && r > 0.0 {
      assert (d - r) * d >= 0.0 && (d - r) * r >= 0.0;
      assert d * d >= r * r;
    }
    if r > 0.0 && d < r {
      var dd, dr, rr := d * d, d * r, r * r;
      assert dd <= dr;
      assert (r - d) * r > 0.0;
      assert (r - d) * r == rr - dr;
      assert x * x + y * y == dd;
      assert !DistAtLeast(x, y, r);
    }
  }

  /** A point strictly within distance r of the origin lies strictly inside the square of half-side r. */
  lemma InsideDiskInsideSquare(p: Point, r: real)
    requires !DistAtLeast(p.x, p.y, r)
    ensures -r < p.x < r && -r < p.y < r
  {
    assert r > 0.0;
    SquareBelow(p.x, r, p.y * p.y);
    SquareBelow(p.y, r, p.x * p.x);
  }

  lemma SquareBelow(a: real, r: real, extra: real)
    requires r > 0.0 && extra >= 0.0 && a * a + extra < r * r
    ensures -r < a < r
  {
    assert (r - a) * (r + a) == r * r - a * a > 0.0;
    assert (r - a) + (r + a) > 0.0;
  }

  /** A rotation by a unit (cos, sin) pair keeps every point at its distance from the axis. */
  lemma RotateKeepsDistance(p: Point, axis: Point, r: Rot)
    requires Unit(r)
    ensures SqDist(RotatePoint(p, axis, r), axis) == SqDist(p, axis)
  {
    var dx, dy := p.x - axis.x, p.y - axis.y;
    var q := RotatePoint(p, axis, r);
    assert q.x - axis.x == dx * r.c - dy * r.s;
    assert q.y - axis.y == dx * r.s + dy * r.c;
    calc {
      SqDist(q, axis);
      (dx * r.c - dy * r.s) * (dx * r.c - dy * r.s) + (dx * r.s + dy * r.c) * (dx * r.s + dy * r.c);
      (dx * dx + dy * dy) * (r.c * r.c + r.s * r.s);
      dx * dx + dy * dy;
    }
  }

  /** rotatePts keeps the length of the list and each point's distance from the axis. */
  lemma RotatePtsKeepsDistances(pts: seq<Point>, axis: Point, r: Rot)
    requires Unit(r)
    ensures |RotatePts(pts, axis, r)| == |pts|
    ensures forall k :: 0 <= k < |pts| ==> SqDist(RotatePts(pts, axis, r)[k], axis) == SqDist(pts[k], axis)
  {
    forall k | 0 <= k < |pts|
      ensures SqDist(RotatePts(pts, axis, r)[k], axis) == SqDist(pts[k], axis)
    {
      RotateKeepsDistance(pts[k], axis, r);
    }
  }

  /** Rotating by theta and then by -theta about the same axis gives every point back. */
  lemma RotateRoundTrip(p: Point, axis: Point, r: Rot)
    requires Unit(r)
    ensures RotatePoint(RotatePoint(p, axis, r), axis, Inverse(r)) == p
  {
    var q := RotatePoint(p, axis, r);
    var a, b := q.x - axis.x, q.y - axis.y;
    UndoRotation(p.x - axis.x, p.y - axis.y, r.c, r.s, a, b);
    assert b * -r.s == -(b * r.s);
  }

  /** Turning the offset (dx, dy) by (c, s) gives (a, b); turning (a, b) by (c, -s) gives (dx, dy). */
  lemma UndoRotation(dx: real, dy: real, c: real, s: real, a: real, b: real)
    requires c * c + s * s == 1.0
    requires a == dx * c - dy * s && b == dx * s + dy * c
    ensures a * c + b * s == dx
    ensures -(a * s) + b * c == dy
  {
    calc {
      a * c + b * s;
      dx * c * c - dy * s * c + dx * s * s + dy * c * s;
      dx * (c * c + s * s);
    }
    calc {
      -(a * s) + b * c;
      -dx * c * s + dy * s * s + dx * s * c + dy * c * c;
      dy * (c * c + s * s);
    }
  }

  /** rotatePts by theta and then by -theta gives the list back. */
  lemma RotatePtsRoundTrip(pts: seq<Point>, axis: Point, r: Rot)
    requires Unit(r)
    ensures RotatePts(RotatePts(pts, axis, r), axis, Inverse(r)) == pts
  {
    var back := RotatePts(RotatePts(pts, axis, r), axis, Inverse(r));
    forall k | 0 <= k < |pts| ensures back[k] == pts[k] {
      RotateRoundTrip(pts[k], axis, r);
    }
  }

  /** A point at the axis does not move. */
  lemma RotateFixesAxis(axis: Point, r: Rot)
    ensures RotatePoint(axis, axis, r) == axis
  {
  }
}
