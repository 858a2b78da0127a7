/** The drawing step: curve-space points mapped to pixels with a margin and a
    vertical flip, the markers drawn for curve samples and control points, and
    the scene the program draws with its fixed constants. */
module Raster {
  import opened Geometry
  import opened Bezier

  const BitmapWidth: int := 1024
  const BitmapHeight: int := 1024
  const BitmapMargin: int := 20
  const BitmapInnerWidth: int := BitmapWidth - 2 * BitmapMargin
  const BitmapInnerHeight: int := BitmapHeight - 2 * BitmapMargin
  const CurvePointSize: real := 2.0
  const ControlPointSize: real := 10.0
  const ControlPointBorder: real := 4.0
  const PointResolution: int := 200

  // ---------------------------------------------------------------------
  // Curve space to pixel space

  /** Pixel column of a curve-space x: the unit interval is stretched over the
      canvas width less both margins. */
  function ToPixelX(x: real): (px: real)
    ensures 0.0 <= x <= 1.0 <==> BitmapMargin as real <= px <= (BitmapWidth - BitmapMargin) as real
  {
    x * BitmapInnerWidth as real + BitmapMargin as real
  }

  /** Pixel row of a curve-space y: flipped, since pixel rows grow downwards
      while curve-space y grows upwards. */
  function ToPixelY(y: real): (py: real)
    ensures 0.0 <= y <= 1.0 <==> BitmapMargin as real <= py <= (BitmapHeight - BitmapMargin) as real
  {
    (1.0 - y) * BitmapInnerHeight as real + BitmapMargin as real
  }

  /** The pixel position of a curve-space point. */
  function PixelOf(p: Point): Point
  {
    Point(ToPixelX(p.x), ToPixelY(p.y))
  }

  /** The curve-space x drawn at pixel column px. */
  function FromPixelX(px: real): (x: real)
    ensures ToPixelX(x) == px
  {
    (px - BitmapMargin as real) / BitmapInnerWidth as real
  }

  /** The curve-space y drawn at pixel row py. */
  function FromPixelY(py: real): (y: real)
    ensures ToPixelY(y) == py
  {
    1.0 - (py - BitmapMargin as real) / BitmapInnerHeight as real
  }

  /** The mapping loses nothing: a pixel position gives back its curve point. */
  lemma PixelRoundTrip(p: Point)
    ensures FromPixelX(ToPixelX(p.x)) == p.x
    ensures FromPixelY(ToPixelY(p.y)) == p.y
  {
  }

  /** Pixel x grows strictly with curve x. */
  lemma ToPixelXIncreasing(x1: real, x2: real)
    ensures x1 < x2 <==> ToPixelX(x1) < ToPixelX(x2)
  {
  }

  /** Pixel y falls strictly as curve y grows. */
  lemma ToPixelYDecreasing(y1: real, y2: real)
    ensures y1 < y2 <==> ToPixelY(y2) < ToPixelY(y1)
  {
  }

  /** The corners of the unit square land on the inner corners of the canvas. */
  lemma UnitSquareCorners()
    ensures PixelOf(Point(0.0, 0.0)) == Point(20.0, 1004.0)
    ensures PixelOf(Point(1.0, 1.0)) == Point(1004.0, 20.0)
  {
  }

  /** The pixel mapping commutes with interpolation. */
  lemma PixelOfPointOnLine(p1: Point, p2: Point, t: real)
    ensures PixelOf(PointOnLine(p1, p2, t)) == PointOnLine(PixelOf(p1), PixelOf(p2), t)
  {
  }

  /** Every control point mapped to pixels. */
  function PixelsOf(ps: seq<Point>): (r: seq<Point>)
    ensures |r| == |ps|
    ensures forall i :: 0 <= i < |ps| ==> r[i] == PixelOf(ps[i])
  {
    if ps == [] then [] else [PixelOf(ps[0])] + PixelsOf(ps[1..])
  }

  /** The drawn curve is itself the Bezier curve of the drawn control points:
      mapping a curve point to pixels gives the curve point of the mapped
      control polygon at the same parameter. */
  lemma {:induction false} PixelOfCurveAt(ps: seq<Point>, t: real)
    requires |ps| >= 1
    ensures PixelOf(CurveAt(ps, t)) == CurveAt(PixelsOf(ps), t)
    decreases |ps|
  {
    if |ps| > 1 {
      var reduced := Reduce(ps, t);
      forall i | 0 <= i < |ps| - 1
        ensures PixelsOf(reduced)[i] == Reduce(PixelsOf(ps), t)[i]
      {
        PixelOfPointOnLine(ps[i], ps[i + 1], t);
      }
      assert PixelsOf(reduced) == Reduce(PixelsOf(ps), t);
      PixelOfCurveAt(reduced, t);
    }
  }

  // ---------------------------------------------------------------------
  // Markers

  /** The box (left, top, width, height) handed to a fill call. */
  datatype Rect = Rect(left: real, top: real, width: real, height: real)

  /** The centre of a box. */
  function Centre(r: Rect): Point
  {
    Point(r.left + r.width / 2.0, r.top + r.height / 2.0)
  }

  /** The outer box holds the inner one. */
  predicate Encloses(outer: Rect, inner: Rect)
  {
    && outer.left <= inner.left && inner.left + inner.width <= outer.left + outer.width
    && outer.top <= inner.top && inner.top + inner.height <= outer.top + outer.height
  }

  /** Bounding box of the circle drawn for a curve sample. */
  function CurveMarker(p: Point): (r: Rect)
    ensures Centre(r) == PixelOf(p)
    ensures r.width == CurvePointSize && r.height == CurvePointSize
  {
    var x := p.x * BitmapInnerWidth as real + BitmapMargin as real - CurvePointSize / 2.0;
    var y := (1.0 - p.y) * BitmapInnerHeight as real + BitmapMargin as real - CurvePointSize / 2.0;
    Rect(x, y, CurvePointSize, CurvePointSize)
  }

  /** The two squares drawn for a control point: the outer (gray) square and
      the inner (white) one that leaves a border of half the border width on
      each side. */
  function ControlMarker(p: Point): (m: (Rect, Rect))
    ensures Centre(m.0) == PixelOf(p) && Centre(m.1) == PixelOf(p)
    ensures m.0.width == ControlPointSize && m.0.height == ControlPointSize
    ensures m.1.width == ControlPointSize - ControlPointBorder && m.1.height == m.1.width
    ensures m.1.width > 0.0
    ensures m.1.left - m.0.left == ControlPointBorder / 2.0
    ensures m.1.top - m.0.top == ControlPointBorder / 2.0
    ensures Encloses(m.0, m.1)
  {
    var initialX := ToPixelX(p.x);
    var initialY := ToPixelY(p.y);
    var size := ControlPointSize;
    var outer := Rect(initialX - size / 2.0, initialY - size / 2.0, size, size);
    var size' := size - ControlPointBorder;
    var inner := Rect(initialX - size' / 2.0, initialY - size' / 2.0, size', size');
    (outer, inner)
  }

  // ---------------------------------------------------------------------
  // Drawing

  datatype Brush = White | Gray | Black

  /** One fill call made on the canvas. */
  datatype Shape =
    | FilledRectangle(brush: Brush, bounds: Rect)
    | FilledEllipse(brush: Brush, bounds: Rect)

  /** The black rectangle that clears the whole canvas. */
  function Background(): Shape
  {
    FilledRectangle(Black, Rect(0.0, 0.0, BitmapWidth as real, BitmapHeight as real))
  }

  /** The fill calls made, in order: the background, a white circle per curve
      sample, then a gray square with a white square inside per control point,
      so that the control markers are painted over the curve. */
  method Render(controlPoints: seq<Point>, curvePoints: seq<Point>) returns (shapes: seq<Shape>)
    ensures |shapes| == 1 + |curvePoints| + 2 * |controlPoints|
    ensures shapes[0] == Background()
    ensures forall i :: 0 <= i < |curvePoints| ==>
              shapes[1 + i] == FilledEllipse(White, CurveMarker(curvePoints[i]))
    ensures forall j :: 0 <= j < |controlPoints| ==>
              && shapes[1 + |curvePoints| + 2 * j] == FilledRectangle(Gray, ControlMarker(controlPoints[j]).0)
              && shapes[2 + |curvePoints| + 2 * j] == FilledRectangle(White, ControlMarker(controlPoints[j]).1)
  {
    shapes := [Background()];
    for i := 0 to |curvePoints|
      invariant |shapes| == 1 + i
      invariant shapes[0] == Background()
      invariant forall k :: 0 <= k < i ==>
                  shapes[1 + k] == FilledEllipse(White, CurveMarker(curvePoints[k]))
    {
      shapes := shapes + [FilledEllipse(White, CurveMarker(curvePoints[i]))];
    }
    ghost var afterCurve := shapes;
    for j := 0 to |controlPoints|
      invariant |shapes| == 1 + |curvePoints| + 2 * j
      invariant shapes[..1 + |curvePoints|] == afterCurve
      invariant forall k :: 0 <= k < j ==>
                  && shapes[1 + |curvePoints| + 2 * k] == FilledRectangle(Gray, ControlMarker(controlPoints[k]).0)
                  && shapes[2 + |curvePoints| + 2 * k] == FilledRectangle(White, ControlMarker(controlPoints[k]).1)
    {
      var markers := ControlMarker(controlPoints[j]);
      shapes := shapes + [FilledRectangle(Gray, markers.0), FilledRectangle(White, markers.1)];
    }
  }

  /** A curve sample inside the unit square gets a marker centred inside the margins. */
  lemma CurveMarkerInsideMargins(p: Point)
    requires InBox(p, Point(0.0, 0.0), Point(1.0, 1.0))
    ensures InBox(Centre(CurveMarker(p)), Point(20.0, 20.0), Point(1004.0, 1004.0))
  {
  }

  /** The whole picture with the program's constants: the fixed control
      polygon sampled at 200 parameters, then drawn. The curve runs from the
      bottom-left inner corner of the canvas to the top-right one, and every
      curve marker is centred inside the margins. */
  method DrawScene() returns (curvePoints: seq<Point>, shapes: seq<Shape>)
    ensures |curvePoints| == PointResolution
    ensures curvePoints[0] == Point(0.0, 0.0)
    ensures curvePoints[PointResolution - 1] == Point(1.0, 1.0)
    ensures |shapes| == 1 + PointResolution + 2 * 7
    ensures IsSampling(curvePoints, GeneratePoints(), PointResolution)
    ensures shapes[0] == Background()
    ensures forall i :: 0 <= i < PointResolution ==>
              shapes[1 + i] == FilledEllipse(White, CurveMarker(curvePoints[i]))
    ensures forall j :: 0 <= j < 7 ==>
              && shapes[1 + PointResolution + 2 * j] == FilledRectangle(Gray, ControlMarker(GeneratePoints()[j]).0)
              && shapes[2 + PointResolution + 2 * j] == FilledRectangle(White, ControlMarker(GeneratePoints()[j]).1)
    ensures shapes[1].FilledEllipse? && Centre(shapes[1].bounds) == Point(20.0, 1004.0)
    ensures shapes[PointResolution].FilledEllipse? && Centre(shapes[PointResolution].bounds) == Point(1004.0, 20.0)
    ensures forall i :: 1 <= i <= PointResolution ==>
              shapes[i].FilledEllipse? &&
              InBox(Centre(shapes[i].bounds), Point(20.0, 20.0), Point(1004.0, 1004.0))
  {
    var controlPoints := GeneratePoints();
    ghost var unitLo, unitHi := Point(0.0, 0.0), Point(1.0, 1.0);
    assert AllInBox(controlPoints, unitLo, unitHi);
    curvePoints := Interpolate(controlPoints, PointResolution);
    shapes := Render(controlPoints, curvePoints);
    UnitSquareCorners();
    forall i | 1 <= i <= PointResolution
      ensures shapes[i].FilledEllipse?
      ensures InBox(Centre(shapes[i].bounds), Point(20.0, 20.0), Point(1004.0, 1004.0))
    {
      CurveAtInBox(controlPoints, PercentThrough(i - 1, PointResolution), unitLo, unitHi);
      CurveMarkerInsideMargins(curvePoints[i - 1]);
    }
  }
}
