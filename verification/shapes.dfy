/** The `IPolygon` interface with its two implementations: a concrete
    `Polygon` and the lazy `TransformedPolygon` view of
    MangaParser/Geometry/TransformedPolygon.cs, which wraps any polygon
    (possibly itself transformed) with a matrix. */
module Shapes {
  import opened Util
  import opened Drawing
  import opened ReadingUtilities
  import Polygons
  import opened Directions

  datatype Shape =
    | Plain(poly: Polygons.Polygon)
    | Transformed(base: Shape, m: Matrix)

  /** The concrete polygon under all the transformation layers. */
  function Root(s: Shape): Polygons.Polygon {
    match s
    case Plain(p) => p
    case Transformed(b, _) => Root(b)
  }

  /** Every point of `pts` mapped by `m`, in order (`TransformPoints`). */
  function MapPoints(m: Matrix, pts: seq<Point>): (r: seq<Point>)
    ensures |r| == |pts|
    ensures forall i :: 0 <= i < |pts| ==> r[i] == TransformPoint(m, pts[i])
  {
    if |pts| == 0 then [] else [TransformPoint(m, pts[0])] + MapPoints(m, pts[1..])
  }

  /** `Area`: a transformed polygon reports its base's area. */
  function Area(s: Shape): int {
    match s
    case Plain(p) => Polygons.Area(p)
    case Transformed(b, _) => Area(b)
  }

  /** `BoundingBox`: the base box passed through `Transform`. */
  function Box(s: Shape): Rect {
    match s
    case Plain(p) => p.box
    case Transformed(b, m) => Transform(Box(b), m)
  }

  /** `CenterOfGravity`: the base centre mapped as a point. */
  function Cog(s: Shape): Point {
    match s
    case Plain(p) => p.cog
    case Transformed(b, m) => TransformPoint(m, Cog(b))
  }

  /** `Points`: the base points mapped one by one, in order. */
  function Points(s: Shape): (r: seq<Point>)
    ensures |r| == |Root(s).points|
  {
    match s
    case Plain(p) => p.points
    case Transformed(b, m) => MapPoints(m, Points(b))
  }

  /** `Contains(Point)`: a transformed polygon asks its base, without
      transforming the point. */
  function ContainsPoint(s: Shape, q: Point): bool {
    match s
    case Plain(p) => Polygons.ContainsPoint(p, q)
    case Transformed(b, _) => ContainsPoint(b, q)
  }

  /** The `included as TransformedPolygon` unwrapping: one layer only. */
  function Unwrap(s: Shape): Shape {
    match s
    case Plain(_) => s
    case Transformed(b, _) => b
  }

  /** `Contains(IPolygon)`: a concrete polygon tests the argument's box and
      points; a transformed one unwraps one layer of the argument and asks
      its base. */
  function ContainsShape(s: Shape, included: Shape): bool {
    match s
    case Plain(p) => Polygons.ContainsAll(p, Box(included), Points(included))
    case Transformed(b, _) => ContainsShape(b, Unwrap(included))
  }

  /** `BasePolygon` returns the wrapped shape unchanged. */
  function BasePolygon(s: Shape): (b: Shape)
    requires s.Transformed?
    ensures Transformed(b, s.m) == s
  {
    s.base
  }

  /** However many layers wrap it, a shape has the area of its concrete
      polygon and answers point queries as that polygon does: no layer
      transforms the query point. */
  lemma {:induction false} LayersAreTransparent(s: Shape, q: Point)
    ensures Area(s) == Polygons.Area(Root(s))
    ensures ContainsPoint(s, q) == Polygons.ContainsPoint(Root(s), q)
  {
    match s
    case Plain(_) =>
    case Transformed(b, _) =>
      LayersAreTransparent(b, q);
  }

  /** Two polygons wrapped by the same matrix contain each other exactly as
      their concrete polygons do: both are untransformed before the test. */
  lemma ContainsUntransformed(p: Polygons.Polygon, q: Polygons.Polygon, m: Matrix)
    ensures ContainsShape(Transformed(Plain(p), m), Transformed(Plain(q), m))
        == Polygons.ContainsAll(p, q.box, q.points)
  {
  }

  /** Points of a shape transformed by a reading direction, mapped back by
      the inverse matrix, are the base points again. */
  lemma {:induction false} PointsRoundTrip(b: Shape, d: ReadingDirection)
    ensures MapPoints(InverseMatrix(d), Points(Transformed(b, DirectionMatrix(d)))) == Points(b)
  {
    var pts := Points(b);
    var back := MapPoints(InverseMatrix(d), MapPoints(DirectionMatrix(d), pts));
    forall i | 0 <= i < |pts|
      ensures back[i] == pts[i]
    {
      InverseUndoes(d, pts[i]);
    }
  }

  /** The centre of a wrapper, mapped back by the inverse direction matrix,
      is the centre of its base: `Compare` sees the base's centre moved
      into reading space and nothing else. */
  lemma CogRoundTrip(b: Shape, d: ReadingDirection)
    ensures Cog(Transformed(b, DirectionMatrix(d))) == TransformPoint(DirectionMatrix(d), Cog(b))
    ensures TransformPoint(InverseMatrix(d), Cog(Transformed(b, DirectionMatrix(d)))) == Cog(b)
  {
    InverseUndoes(d, Cog(b));
  }

  /** Every point lies in the closed box [Left, Right] x [Top, Bottom]. */
  predicate PointsInBox(pts: seq<Point>, r: Rect) {
    forall i :: 0 <= i < |pts| ==> r.Left() <= pts[i].x <= r.Right() && r.Top() <= pts[i].y <= r.Bottom()
  }

  /** When the base box bounds the base points, the box `Transform` computes
      bounds the transformed points, for every reading direction: the
      source's remark that boxing the box is valid for quarter-turn
      rotations. */
  lemma TransformedBoxBounds(b: Shape, d: ReadingDirection)
    requires Box(b).NonNegative()
    requires PointsInBox(Points(b), Box(b))
    ensures PointsInBox(Points(Transformed(b, DirectionMatrix(d))), Box(Transformed(b, DirectionMatrix(d))))
  {
    var pts := Points(b);
    var mapped := Points(Transformed(b, DirectionMatrix(d)));
    forall i | 0 <= i < |mapped|
      ensures var t := Box(Transformed(b, DirectionMatrix(d)));
              t.Left() <= mapped[i].x <= t.Right() && t.Top() <= mapped[i].y <= t.Bottom()
    {
      TransformKeepsInside(Box(b), d, pts[i]);
    }
  }
}
