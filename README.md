# Bezier visualizer: a verified model of the curve core

BezierVisualizer draws a degree-6 Bezier curve into a 1024×1024 bitmap. It uses
de Casteljau's algorithm: interpolate between consecutive control points at a
parameter `t`, and repeat on the shorter list until one point is left. It samples
the curve at 200 evenly spaced parameters. It maps each sample and each control
point from the unit square to pixels, with a 20-pixel margin and a vertical flip.
Then it fills a small circle per sample and a bordered square per control point.

The model is in three modules, all over exact `real` arithmetic:

- `Geometry` (`geometry.dfy`) holds the point type and `PointOnLine`, the linear
  interpolation of `GetPointOnLine`. `CreateAdjustedPoint(x, y)` is the datatype
  constructor `Point(x, y)`.
- `Bezier` (`bezier.dfy`) has four parts:
  - the reduction round `Reduce` and the curve function `CurveAt`, which specify
    the evaluator;
  - the evaluator itself, `PointRecursive`: a counting loop that builds the
    reduced list, then a recursive call;
  - the sampling parameter `PercentThrough` and the sampling loop `Interpolate`;
  - the fixed control polygon `GeneratePoints`.
- `Raster` (`raster.dfy`) has:
  - the constants of `Main`;
  - the pixel mapping `ToPixelX`/`ToPixelY` and its inverse;
  - the marker boxes `CurveMarker` and `ControlMarker`;
  - `Render`, the ordered list of fill calls that `Main` makes;
  - `DrawScene`, the whole `Main` pipeline with its constants.

Three edge cases of the code shape the model:
- An empty control list makes `GetPointRecursive` recurse without end, so
  evaluation requires at least one point.
- A resolution of 1 makes `GetPercentThrough` divide zero by zero, so the
  sampling parameter requires a resolution of at least 2.
- The inner control-marker square has side `controlPointSize − controlPointBorder`
  (6 here), used as is.

## Model

| member | source | states |
|---|---|---|
| Geometry.PointOnLine | BezierVisualizer/Program.cs:119-135 | interpolating at t = 0 gives the first point and at t = 1 the second |
| Geometry.PointOnLineConvex | BezierVisualizer/Program.cs:126-127 | each coordinate of the interpolated point is the convex combination (1 − t)·a + t·b |
| Geometry.MixBetween | BezierVisualizer/Program.cs:126-127 | for t in [0,1] an interpolated coordinate stays within any interval holding both end coordinates |
| Geometry.PointOnLineInBox | BezierVisualizer/Program.cs:121-129 | for t in [0,1] the interpolated point stays in any box holding both points |
| Geometry.PointOnLineSwap | BezierVisualizer/Program.cs:119-130 | interpolating from a to b at t equals interpolating from b to a at 1 − t |
| Bezier.Reduce | BezierVisualizer/Program.cs:108-114 | one round turns n ≥ 1 points into n − 1, element i being the interpolation of input points i and i + 1 (none from an empty list) |
| Bezier.PointRecursive | BezierVisualizer/Program.cs:104-117 | for a non-empty list, the loop-and-recurse evaluator returns exactly the de Casteljau curve point CurveAt(points, t) |
| Bezier.CurveAtSingle | BezierVisualizer/Program.cs:106 | a one-point list evaluates to that point for every t |
| Bezier.CurveAtStart | BezierVisualizer/Program.cs:104-117 | every non-empty control list evaluates at t = 0 to its first point |
| Bezier.CurveAtEnd | BezierVisualizer/Program.cs:104-117 | every non-empty control list evaluates at t = 1 to its last point |
| Bezier.ReduceInBox | BezierVisualizer/Program.cs:110-114 | for t in [0,1] a reduction round keeps every point inside any box that holds the input points |
| Bezier.CurveAtInBox | BezierVisualizer/Program.cs:104-117 | for t in [0,1] the curve point lies inside every box holding all control points |
| Geometry.PointOnLineBelow | BezierVisualizer/Program.cs:121-129 | for t in [0,1] the interpolated point stays in any half-plane a·x + b·y ≤ c holding both points |
| Bezier.ReduceBelow | BezierVisualizer/Program.cs:110-114 | for t in [0,1] a reduction round keeps every point inside any half-plane that holds the input points |
| Bezier.CurveAtInHalfPlane | BezierVisualizer/Program.cs:104-117 | for t in [0,1] the curve point lies in every half-plane holding all control points, hence in their convex hull |
| Bezier.CurveAtWithinControlExtent | BezierVisualizer/Program.cs:110-116 | for t in [0,1] the curve point's x lies between the least and greatest control x, and likewise for y |
| Bezier.ReduceReverse | BezierVisualizer/Program.cs:108-114 | reducing the reversed list at t gives the reverse of reducing the list at 1 − t |
| Bezier.CurveAtReverse | BezierVisualizer/Program.cs:104-117 | the reversed control list traces the same curve with the parameter running backwards: CurveAt(reverse(ps), t) = CurveAt(ps, 1 − t) |
| Bezier.PercentThrough | BezierVisualizer/Program.cs:99-102 | for resolution ≥ 2 the parameter t satisfies t·(resolution − 1) = i; it lies in [0,1] for 0 ≤ i < resolution; it is 0 exactly for i = 0 and 1 exactly for i = resolution − 1 |
| Bezier.PercentThroughIncreasing | BezierVisualizer/Program.cs:99-102 | sample parameters increase strictly with the sample index, in both directions |
| Bezier.SamplingEndsAndBounds | BezierVisualizer/Program.cs:88-102 | a sampling starts at the first control point, ends at the last, and stays within the control points' x and y extent |
| Bezier.Interpolate | BezierVisualizer/Program.cs:88-97 | returns max(resolution, 0) points in order, element i being the curve at i/(resolution − 1); the first and last are the first and last control points, and all lie within the control extent |
| Bezier.GeneratePoints | BezierVisualizer/Program.cs:72-86 | the fixed control polygon has seven points, runs from (0,0) to (1,1) and lies in the unit square |
| Raster.ToPixelX | BezierVisualizer/Program.cs:43 | x·innerWidth + margin lies in [margin, width − margin] exactly when x lies in [0,1] |
| Raster.ToPixelY | BezierVisualizer/Program.cs:44 | (1 − y)·innerHeight + margin lies in [margin, height − margin] exactly when y lies in [0,1] |
| Raster.FromPixelX | BezierVisualizer/Program.cs:43 | every pixel column is the image of exactly the curve x returned, so the x mapping is onto |
| Raster.FromPixelY | BezierVisualizer/Program.cs:44 | every pixel row is the image of exactly the curve y returned, so the flipped y mapping is onto |
| Raster.PixelRoundTrip | BezierVisualizer/Program.cs:43-44 | mapping to pixels and back returns the original curve point, so the mapping is invertible |
| Raster.ToPixelXIncreasing | BezierVisualizer/Program.cs:43 | pixel x is strictly increasing in curve x, in both directions |
| Raster.ToPixelYDecreasing | BezierVisualizer/Program.cs:44 | pixel y is strictly decreasing in curve y, in both directions |
| Raster.UnitSquareCorners | BezierVisualizer/Program.cs:13-17 | with the code's constants, (0,0) goes to pixel (20,1004) and (1,1) to (1004,20) |
| Raster.PixelOfPointOnLine | BezierVisualizer/Program.cs:35-36 | mapping to pixels commutes with linear interpolation |
| Raster.PixelOfCurveAt | BezierVisualizer/Program.cs:33-44 | the drawn curve point is the curve point of the control polygon mapped to pixels, at the same parameter |
| Raster.CurveMarker | BezierVisualizer/Program.cs:35-38 | the curve marker's bounding box is curvePointSize square and centred on the mapped point |
| Raster.ControlMarker | BezierVisualizer/Program.cs:43-56 | both control squares are centred on the mapped point; the outer side is controlPointSize and the inner side is controlPointSize − controlPointBorder > 0; the inner square sits inside the outer with a border of half controlPointBorder on each side |
| Raster.CurveMarkerInsideMargins | BezierVisualizer/Program.cs:35-36 | a sample inside the unit square gets a marker centred within [20, 1004] on both axes |
| Raster.Render | BezierVisualizer/Program.cs:31-57 | the fill calls, in order: the black background, one white circle per curve sample, then per control point a gray outer square followed by its white inner square |
| Raster.DrawScene | BezierVisualizer/Program.cs:11-57 | with the code's constants: the curve points are exactly the 200-point sampling of the fixed control polygon, from (0,0) to (1,1); the shapes are the background, one white circle per sample, then the gray and white squares of each of the 7 control points, in order; the first curve marker is centred at (20,1004), the last at (1004,20), and every curve marker inside the margins |

## Left out

- Floating point: all arithmetic is over `real`. The `double` and `float` rounding, the `(float)` casts, and the NaN that `0 / 0.0` produces are not modelled.
- Bezier.PercentThrough: requires a resolution of at least 2. With a resolution of 1 the code divides zero by zero and yields NaN, which `real` cannot represent.
- Bezier.Interpolate: excludes a resolution of exactly 1 for the same reason. Resolutions of 0 or less are modelled; they give an empty list, as in the code.
- Bezier.CurveAt and Bezier.PointRecursive: require at least one control point. On an empty list the code recurses without end, and a non-terminating call has no result to model.
- The bitmap and the System.Drawing calls: `Bitmap`, `Graphics`, `SolidBrush`, `FillRectangle` and `FillEllipse` are library calls. `Render` returns the fill calls as data (a brush tag and a box) instead of changing pixels, so the resulting pixel buffer itself is not modelled.
- Colours: only the three brush tags (white, gray, black) are kept, to tell the two control-marker squares and the background apart.
- Output: deleting `old.bmp`, renaming `out.bmp` to `old.bmp` and saving the bitmap are file I/O. They are not part of this model.
- `ICollection`, `IEnumerable` and `List` are modelled as `seq`. The in-place `List.Add` calls become appends to a local sequence.
