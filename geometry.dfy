/** Points of the curve space and linear interpolation between two of them. */
module Geometry {

  /** A point with real coordinates; the curve space conventionally uses [0, 1]
      for both, but nothing enforces it. Pixel positions reuse the same type. */
  datatype Point = Point(x: real, y: real)

  /** The coordinate a fraction t of the way from u to v, in the form u + (v - u) * t. */
  function Mix(u: real, v: real, t: real): real
  {
    u + (v - u) * t
  }

  /** The point a fraction t of the way from p1 to p2, computed per coordinate.
      No bound on t is enforced: outside [0, 1] the line is extrapolated. */
  function PointOnLine(p1: Point, p2: Point, t: real): (r: Point)
    ensures t == 0.0 ==> r == p1
    ensures t == 1.0 ==> r == p2
  {
    Point(Mix(p1.x, p2.x, t), Mix(p1.y, p2.y, t))
  }

  /** The interpolated point is the convex combination (1 - t) * p1 + t * p2. */
  lemma PointOnLineConvex(p1: Point, p2: Point, t: real)
    ensures PointOnLine(p1, p2, t).x == (1.0 - t) * p1.x + t * p2.x
    ensures PointOnLine(p1, p2, t).y == (1.0 - t) * p1.y + t * p2.y
  {
  }

  /** p lies in the axis-aligned box with lower corner lo and upper corner hi. */
  predicate InBox(p: Point, lo: Point, hi: Point)
  {
    lo.x <= p.x <= hi.x && lo.y <= p.y <= hi.y
  }

  /** Every point of ps lies in the box. */
  predicate AllInBox(ps: seq<Point>, lo: Point, hi: Point)
  {
    forall i :: 0 <= i < |ps| ==> InBox(ps[i], lo, hi)
  }

  /** For t in [0, 1] a mixed coordinate stays within any interval holding both ends. */
  lemma MixBetween(u: real, v: real, t: real, lo: real, hi: real)
    requires lo <= u <= hi && lo <= v <= hi
    requires 0.0 <= t <= 1.0
    ensures lo <= Mix(u, v, t) <= hi
  {
    assert Mix(u, v, t) == (1.0 - t) * u + t * v;
    assert (1.0 - t) * lo <= (1.0 - t) * u <= (1.0 - t) * hi;
    assert t * lo <= t * v <= t * hi;
  }

  /** Interpolating between two points of a box, with t in [0, 1], stays in the box. */
  lemma PointOnLineInBox(p1: Point, p2: Point, t: real, lo: Point, hi: Point)
    requires InBox(p1, lo, hi) && InBox(p2, lo, hi)
    requires 0.0 <= t <= 1.0
    ensures InBox(PointOnLine(p1, p2, t), lo, hi)
  {
    MixBetween(p1.x, p2.x, t, lo.x, hi.x);
    MixBetween(p1.y, p2.y, t, lo.y, hi.y);
  }

  /** p lies in the closed half-plane a * x + b * y <= c. */
  predicate Below(p: Point, a: real, b: real, c: real)
  {
    a * p.x + b * p.y <= c
  }

  /** Every point of ps lies in the half-plane. */
  predicate AllBelow(ps: seq<Point>, a: real, b: real, c: real)
  {
    forall i :: 0 <= i < |ps| ==> Below(ps[i], a, b, c)
  }

  /** Interpolating between two points of a half-plane, with t in [0, 1],
      stays in the half-plane: the segment between them lies in it. */
  lemma PointOnLineBelow(p1: Point, p2: Point, t: real, a: real, b: real, c: real)
    requires Below(p1, a, b, c) && Below(p2, a, b, c)
    requires 0.0 <= t <= 1.0
    ensures Below(PointOnLine(p1, p2, t), a, b, c)
  {
    var r := PointOnLine(p1, p2, t);
    var u, v := a * p1.x + b * p1.y, a * p2.x + b * p2.y;
    PointOnLineConvex(p1, p2, t);
    assert a * r.x + b * r.y == (1.0 - t) * u + t * v;
    assert (1.0 - t) * u <= (1.0 - t) * c;
    assert t * v <= t * c;
  }

  /** Walking a fraction t from p1 towards p2 reaches the same point as
      walking 1 - t from p2 towards p1. */
  lemma PointOnLineSwap(p1: Point, p2: Point, t: real)
    ensures PointOnLine(p1, p2, t) == PointOnLine(p2, p1, 1.0 - t)
  {
  }
}
