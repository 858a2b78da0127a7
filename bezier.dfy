/** De Casteljau evaluation of a Bezier curve and the fixed-resolution
    sampling of it (GetPointRecursive, GetPercentThrough and Interpolate). */
module Bezier {
  import opened Geometry

  // ---------------------------------------------------------------------
  // Specification of the reduction

  /** One round of de Casteljau reduction: the interpolations at t of every
      pair of consecutive points, in order. */
  function Reduce(ps: seq<Point>, t: real): (r: seq<Point>)
    ensures |r| == if |ps| == 0 then 0 else |ps| - 1
    ensures forall i :: 0 <= i < |r| ==> r[i] == PointOnLine(ps[i], ps[i + 1], t)
    decreases |ps|
  {
    if |ps| <= 1 then [] else [PointOnLine(ps[0], ps[1], t)] + Reduce(ps[1..], t)
  }

  /** The point of the Bezier curve with control points ps at parameter t:
      reduce until a single point is left. An empty list never reaches a
      single point, so at least one control point is required. */
  function CurveAt(ps: seq<Point>, t: real): Point
    requires |ps| >= 1
    decreases |ps|
  {
    if |ps| == 1 then ps[0] else CurveAt(Reduce(ps, t), t)
  }

  // ---------------------------------------------------------------------
  // The recursive evaluator

  /** Builds the reduced list with a counting loop, then recurses on it until
      one point is left, which is returned. */
  method PointRecursive(points: seq<Point>, t: real) returns (p: Point)
    requires |points| >= 1
    ensures p == CurveAt(points, t)
    decreases |points|
  {
    if |points| == 1 {
      return points[0];
    }
    var result: seq<Point> := [];
    for i := 1 to |points|
      invariant |result| == i - 1
      invariant forall k :: 0 <= k < i - 1 ==> result[k] == PointOnLine(points[k], points[k + 1], t)
    {
      var point1 := points[i - 1];
      var point2 := points[i];
      result := result + [PointOnLine(point1, point2, t)];
    }
    ghost var reduced := Reduce(points, t);
    assert |reduced| == |result| == |points| - 1;
    forall k | 0 <= k < |result|
      ensures result[k] == reduced[k]
    {
      assert reduced[k] == PointOnLine(points[k], points[k + 1], t);
    }
    assert result == reduced;
    p := PointRecursive(result, t);
  }

  // ---------------------------------------------------------------------
  // Properties of the curve

  /** A single control point is a degree-0 curve: it is the curve point for every t. */
  lemma CurveAtSingle(p: Point, t: real)
    ensures CurveAt([p], t) == p
  {
  }

  /** The curve starts at the first control point. */
  lemma {:induction false} CurveAtStart(ps: seq<Point>)
    requires |ps| >= 1
    ensures CurveAt(ps, 0.0) == ps[0]
    decreases |ps|
  {
    if |ps| > 1 {
      CurveAtStart(Reduce(ps, 0.0));
    }
  }

  /** The curve ends at the last control point. */
  lemma {:induction false} CurveAtEnd(ps: seq<Point>)
    requires |ps| >= 1
    ensures CurveAt(ps, 1.0) == ps[|ps| - 1]
    decreases |ps|
  {
    if |ps| > 1 {
      CurveAtEnd(Reduce(ps, 1.0));
    }
  }

  /** A round of reduction with t in [0, 1] keeps the points inside any box
      that holds the control points. */
  lemma ReduceInBox(ps: seq<Point>, t: real, lo: Point, hi: Point)
    requires AllInBox(ps, lo, hi)
    requires 0.0 <= t <= 1.0
    ensures AllInBox(Reduce(ps, t), lo, hi)
  {
    var r := Reduce(ps, t);
    forall i | 0 <= i < |r|
      ensures InBox(r[i], lo, hi)
    {
      PointOnLineInBox(ps[i], ps[i + 1], t, lo, hi);
    }
  }

  /** For t in [0, 1] the curve point lies in every box that holds all the
      control points. */
  lemma {:induction false} CurveAtInBox(ps: seq<Point>, t: real, lo: Point, hi: Point)
    requires |ps| >= 1
    requires AllInBox(ps, lo, hi)
    requires 0.0 <= t <= 1.0
    ensures InBox(CurveAt(ps, t), lo, hi)
    decreases |ps|
  {
    if |ps| > 1 {
      ReduceInBox(ps, t, lo, hi);
      CurveAtInBox(Reduce(ps, t), t, lo, hi);
    }
  }

  /** A round of reduction with t in [0, 1] keeps the points inside any
      half-plane that holds the control points. */
  lemma ReduceBelow(ps: seq<Point>, t: real, a: real, b: real, c: real)
    requires AllBelow(ps, a, b, c)
    requires 0.0 <= t <= 1.0
    ensures AllBelow(Reduce(ps, t), a, b, c)
  {
    var r := Reduce(ps, t);
    forall i | 0 <= i < |r|
      ensures Below(r[i], a, b, c)
    {
      PointOnLineBelow(ps[i], ps[i + 1], t, a, b, c);
    }
  }

  /** Convex-hull property: for t in [0, 1] the curve point lies in every
      half-plane that holds all the control points, and so in their convex
      hull, which is the intersection of those half-planes. */
  lemma {:induction false} CurveAtInHalfPlane(ps: seq<Point>, t: real, a: real, b: real, c: real)
    requires |ps| >= 1
    requires AllBelow(ps, a, b, c)
    requires 0.0 <= t <= 1.0
    ensures Below(CurveAt(ps, t), a, b, c)
    decreases |ps|
  {
    if |ps| > 1 {
      ReduceBelow(ps, t, a, b, c);
      CurveAtInHalfPlane(Reduce(ps, t), t, a, b, c);
    }
  }

  function Min(a: real, b: real): real { if a <= b then a else b }
  function Max(a: real, b: real): real { if a <= b then b else a }

  /** The smallest x and the smallest y among the control points. */
  function Lower(ps: seq<Point>): (lo: Point)
    requires |ps| >= 1
    ensures forall i :: 0 <= i < |ps| ==> lo.x <= ps[i].x && lo.y <= ps[i].y
    ensures exists i :: 0 <= i < |ps| && ps[i].x == lo.x
    ensures exists i :: 0 <= i < |ps| && ps[i].y == lo.y
    decreases |ps|
  {
    if |ps| == 1 then ps[0]
    else
      var rest := Lower(ps[1..]);
      Point(Min(ps[0].x, rest.x), Min(ps[0].y, rest.y))
  }

  /** The largest x and the largest y among the control points. */
  function Upper(ps: seq<Point>): (hi: Point)
    requires |ps| >= 1
    ensures forall i :: 0 <= i < |ps| ==> ps[i].x <= hi.x && ps[i].y <= hi.y
    ensures exists i :: 0 <= i < |ps| && ps[i].x == hi.x
    ensures exists i :: 0 <= i < |ps| && ps[i].y == hi.y
    decreases |ps|
  {
    if |ps| == 1 then ps[0]
    else
      var rest := Upper(ps[1..]);
      Point(Max(ps[0].x, rest.x), Max(ps[0].y, rest.y))
  }

  /** Convex-hull bound: for t in [0, 1] the curve point's x lies between the
      least and greatest control x, and likewise for y. */
  lemma CurveAtWithinControlExtent(ps: seq<Point>, t: real)
    requires |ps| >= 1
    requires 0.0 <= t <= 1.0
    ensures InBox(CurveAt(ps, t), Lower(ps), Upper(ps))
  {
    CurveAtInBox(ps, t, Lower(ps), Upper(ps));
  }

  /** The control points in the opposite order. */
  function Reverse(ps: seq<Point>): (r: seq<Point>)
    ensures |r| == |ps|
    ensures forall i :: 0 <= i < |ps| ==> r[i] == ps[|ps| - 1 - i]
  {
    if ps == [] then [] else Reverse(ps[1..]) + [ps[0]]
  }

  /** Reducing the reversed list at t gives the reversal of reducing at 1 - t. */
  lemma ReduceReverse(ps: seq<Point>, t: real)
    requires |ps| >= 1
    ensures Reduce(Reverse(ps), t) == Reverse(Reduce(ps, 1.0 - t))
  {
    var a, b := Reduce(Reverse(ps), t), Reverse(Reduce(ps, 1.0 - t));
    forall i | 0 <= i < |ps| - 1
      ensures a[i] == b[i]
    {
      ReduceReverseAt(ps, t, i);
    }
  }

  lemma ReduceReverseAt(ps: seq<Point>, t: real, i: int)
    requires 0 <= i < |ps| - 1
    ensures Reduce(Reverse(ps), t)[i] == Reverse(Reduce(ps, 1.0 - t))[i]
  {
    var n := |ps|;
    var rev := Reverse(ps);
    var reduced := Reduce(ps, 1.0 - t);
    var p, q := ps[n - 2 - i], ps[n - 1 - i];
    assert rev[i] == q && rev[i + 1] == p;
    assert Reverse(reduced)[i] == reduced[n - 2 - i];
    PointOnLineSwap(q, p, t);
  }

  /** The curve traced from the other end: the control points reversed give
      the same curve with the parameter running from 1 to 0. */
  lemma {:induction false} CurveAtReverse(ps: seq<Point>, t: real)
    requires |ps| >= 1
    ensures CurveAt(Reverse(ps), t) == CurveAt(ps, 1.0 - t)
    decreases |ps|
  {
    if |ps| > 1 {
      ReduceReverse(ps, t);
      CurveAtReverse(Reduce(ps, 1.0 - t), t);
      assert 1.0 - (1.0 - t) == t;
    }
  }

  // ---------------------------------------------------------------------
  // Sampling

  /** The parameter of sample i out of resolution, i / (resolution - 1).
      A resolution of 1 would divide zero by zero, so at least 2 is required. */
  function PercentThrough(i: int, resolution: int): (t: real)
    requires resolution >= 2
    ensures t * (resolution - 1) as real == i as real
    ensures 0 <= i < resolution ==> 0.0 <= t <= 1.0
    ensures t == 0.0 <==> i == 0
    ensures t == 1.0 <==> i == resolution - 1
  {
    i as real / (resolution - 1) as real
  }

  /** Sample parameters increase strictly with the sample index. */
  lemma PercentThroughIncreasing(i: int, j: int, resolution: int)
    requires resolution >= 2
    ensures i < j <==> PercentThrough(i, resolution) < PercentThrough(j, resolution)
  {
    var n := (resolution - 1) as real;
    var d := PercentThrough(j, resolution) - PercentThrough(i, resolution);
    assert d * n == (j - i) as real;
    ScaledSign(d, n);
  }

  /** Scaling by a positive factor keeps the sign. */
  lemma ScaledSign(d: real, n: real)
    requires n > 0.0
    ensures d > 0.0 <==> d * n > 0.0
  {
  }

  /** The curve sampled at resolution evenly spaced parameters, in order. */
  ghost predicate IsSampling(samples: seq<Point>, ps: seq<Point>, resolution: int)
    requires |ps| >= 1
  {
    && |samples| == (if resolution < 0 then 0 else resolution)
    && (|samples| > 0 ==> resolution >= 2)
    && forall i :: 0 <= i < |samples| ==> samples[i] == CurveAt(ps, PercentThrough(i, resolution))
  }

  /** A sampling starts at the first control point, ends at the last, and
      stays within the extent of the control points. */
  lemma SamplingEndsAndBounds(samples: seq<Point>, ps: seq<Point>, resolution: int)
    requires |ps| >= 1
    requires IsSampling(samples, ps, resolution)
    ensures |samples| > 0 ==> samples[0] == ps[0]
    ensures |samples| > 0 ==> samples[|samples| - 1] == ps[|ps| - 1]
    ensures AllInBox(samples, Lower(ps), Upper(ps))
  {
    if |samples| > 0 {
      assert samples[0] == CurveAt(ps, 0.0);
      CurveAtStart(ps);
      assert samples[resolution - 1] == CurveAt(ps, 1.0);
      CurveAtEnd(ps);
      forall i | 0 <= i < |samples|
        ensures InBox(samples[i], Lower(ps), Upper(ps))
      {
        CurveAtWithinControlExtent(ps, PercentThrough(i, resolution));
      }
    }
  }

  /** Evaluates the curve at resolution evenly spaced parameters from 0 to 1,
      appending each point to the result in order. A resolution of 0 or less
      gives no points; a resolution of 1 divides zero by zero. */
  method Interpolate(controlPoints: seq<Point>, resolution: int) returns (result: seq<Point>)
    requires |controlPoints| >= 1
    requires resolution != 1
    ensures IsSampling(result, controlPoints, resolution)
    ensures |result| > 0 ==> result[0] == controlPoints[0]
    ensures |result| > 0 ==> result[|result| - 1] == controlPoints[|controlPoints| - 1]
    ensures AllInBox(result, Lower(controlPoints), Upper(controlPoints))
  {
    result := [];
    var i := 0;
    while i < resolution
      invariant |result| == i
      invariant i == 0 || i <= resolution
      invariant forall k :: 0 <= k < i ==>
                  result[k] == CurveAt(controlPoints, PercentThrough(k, resolution))
    {
      var p := PointRecursive(controlPoints, PercentThrough(i, resolution));
      result := result + [p];
      i := i + 1;
    }
    SamplingEndsAndBounds(result, controlPoints, resolution);
  }

  /** The fixed control polygon the program draws: a degree-6 curve rising
      from (0, 0) to (1, 1) inside the unit square. */
  function GeneratePoints(): (ps: seq<Point>)
    ensures |ps| == 7
    ensures ps[0] == Point(0.0, 0.0) && ps[6] == Point(1.0, 1.0)
    ensures AllInBox(ps, Point(0.0, 0.0), Point(1.0, 1.0))
  {
    [ Point(0.00, 0.00),
      Point(0.01, 0.00),
      Point(0.40, 0.00),
      Point(0.70, 0.00),
      Point(0.85, 1.00),
      Point(0.90, 1.00),
      Point(1.00, 1.00) ]
  }
}
