/** The concrete polygon of MangaParser/Geometry/Polygon.cs: a bounding box,
    an ordered vertex list and a centre, with the signed shoelace area and
    the crossing-parity point test. */
module Polygons {
  import opened Util
  import opened Drawing

  /** The constructor stores its three arguments unchanged. */
  datatype Polygon = Polygon(box: Rect, points: seq<Point>, cog: Point)

  /** `crossProduct(x1, y1, x2, y2)` of the source. */
  function Cross(a: Point, b: Point): int {
    a.x * b.y - b.x * a.y
  }

  /** Swapping the two vectors negates the cross product. */
  lemma CrossAntisymmetric(a: Point, b: Point)
    ensures Cross(b, a) == -Cross(a, b)
  {
  }

  /** The cross products of consecutive vertices along the open chain
      s[0], s[1], ..., s[|s|-1]. */
  function ChainSum(s: seq<Point>): int
    decreases |s|
  {
    if |s| < 2 then 0 else Cross(s[0], s[1]) + ChainSum(s[1..])
  }

  /** Twice the signed area: the chain plus the closing edge from the last
      vertex back to the first. */
  function ShoelaceSum(s: seq<Point>): int {
    if |s| == 0 then 0 else Cross(s[|s| - 1], s[0]) + ChainSum(s)
  }

  /** `Area`: the shoelace sum halved with C#'s truncating division. */
  function Area(p: Polygon): int {
    CDiv(ShoelaceSum(p.points), 2)
  }

  lemma {:induction false} ChainSumSnoc(s: seq<Point>, y: Point)
    requires |s| >= 1
    ensures ChainSum(s + [y]) == ChainSum(s) + Cross(s[|s| - 1], y)
    decreases |s|
  {
    if |s| == 1 {
      assert s + [y] == [s[0], y];
    } else {
      assert (s + [y])[1..] == s[1..] + [y];
      ChainSumSnoc(s[1..], y);
    }
  }

  lemma {:induction false} ChainSumReverse(s: seq<Point>)
    ensures ChainSum(Reverse(s)) == -ChainSum(s)
    decreases |s|
  {
    if |s| >= 2 {
      var r := Reverse(s[1..]);
      ChainSumReverse(s[1..]);
      ChainSumSnoc(r, s[0]);
      assert r[|r| - 1] == s[1];
      CrossAntisymmetric(s[0], s[1]);
    }
  }

  /** Reversing the vertex order negates the shoelace sum, and therefore the
      area: the area is signed by orientation. */
  lemma AreaReverse(p: Polygon)
    ensures ShoelaceSum(Reverse(p.points)) == -ShoelaceSum(p.points)
    ensures Area(p.(points := Reverse(p.points))) == -Area(p)
  {
    var s := p.points;
    if |s| > 0 {
      ChainSumReverse(s);
      CrossAntisymmetric(s[|s| - 1], s[0]);
    }
    CDivOdd(ShoelaceSum(s), 2);
  }

  /** The loop of the `Area` getter: `j` trails `i` by one, starting at the
      last vertex. */
  method ComputeArea(points: seq<Point>) returns (area: int)
    ensures area == CDiv(ShoelaceSum(points), 2)
    ensures points == [] ==> area == 0
  {
    area := 0;
    if |points| == 0 {
      return;
    }
    var n := |points|;
    var i, j := 0, n - 1;
    while i != n
      invariant 0 <= i <= n
      invariant j == if i == 0 then n - 1 else i - 1
      invariant area == if i == 0 then 0 else Cross(points[n - 1], points[0]) + ChainSum(points[..i])
    {
      if i > 0 {
        ChainSumSnoc(points[..i], points[i]);
        assert points[..i] + [points[i]] == points[..i + 1];
      }
      area := area + Cross(points[j], points[i]);
      j, i := i, i + 1;
    }
    assert points[..n] == points;
    area := CDiv(area, 2);
  }

  /** The edge (points[j], points[i]) flips the ray-casting parity for `q`:
      it straddles q's row and q lies left of its truncated crossing. The
      straddle test makes the divisor non-zero. */
  predicate EdgeCrosses(pi: Point, pj: Point, q: Point) {
    (pi.y > q.y) != (pj.y > q.y) &&
    q.x - pi.x < CDiv((pj.x - pi.x) * (q.y - pi.y), pj.y - pi.y)
  }

  /** Index of the vertex before `i` in the source's loop. */
  function Prev(n: nat, i: nat): nat
    requires i < n
  {
    if i == 0 then n - 1 else i - 1
  }

  /** The loop of `Contains(Point)` after its first `k` edges. */
  function Toggled(s: seq<Point>, q: Point, k: nat): bool
    requires k <= |s|
  {
    if k == 0 then false
    else Toggled(s, q, k - 1) != EdgeCrosses(s[k - 1], s[Prev(|s|, k - 1)], q)
  }

  /** `Contains(Point)`. */
  function ContainsPoint(p: Polygon, q: Point): bool {
    Toggled(p.points, q, |p.points|)
  }

  /** The number of the first `k` edges that cross the ray. */
  function Crossings(s: seq<Point>, q: Point, k: nat): (c: nat)
    requires k <= |s|
    ensures c <= k
  {
    if k == 0 then 0
    else Crossings(s, q, k - 1) + (if EdgeCrosses(s[k - 1], s[Prev(|s|, k - 1)], q) then 1 else 0)
  }

  lemma {:induction false} ToggledParity(s: seq<Point>, q: Point, k: nat)
    requires k <= |s|
    ensures Toggled(s, q, k) <==> Crossings(s, q, k) % 2 == 1
  {
    if k > 0 {
      ToggledParity(s, q, k - 1);
    }
  }

  /** A point is inside exactly when an odd number of edges cross the
      horizontal ray from it; with no vertices nothing is inside. */
  lemma ContainsPointParity(p: Polygon, q: Point)
    ensures ContainsPoint(p, q) <==> Crossings(p.points, q, |p.points|) % 2 == 1
    ensures p.points == [] ==> !ContainsPoint(p, q)
  {
    ToggledParity(p.points, q, |p.points|);
  }

  /** `Contains(IPolygon)` once the argument's box and points are known: the
      boxes must strictly intersect and every point must be inside. */
  predicate ContainsAll(p: Polygon, includedBox: Rect, includedPoints: seq<Point>) {
    IntersectsWith(includedBox, p.box) &&
    forall i :: 0 <= i < |includedPoints| ==> ContainsPoint(p, includedPoints[i])
  }

  /** The four corners of `Rectangle(x, y, w, h)` in the factory's order. */
  function Corners(x: int, y: int, w: int, h: int): seq<Point> {
    [Point(x, y), Point(x + w, y), Point(x + w, y + h), Point(x, y + h)]
  }

  /** `Polygon.Rectangle(x, y, w, h)` as written: the centre's y coordinate
      is computed from the width, `w + h / 2`. */
  function RectangleAsWritten(x: int, y: int, w: int, h: int): (p: Polygon)
    ensures p.box == Rect(x, y, w, h) && p.points == Corners(x, y, w, h)
  {
    Polygon(Rect(x, y, w, h), Corners(x, y, w, h), Point(x + CDiv(w, 2), w + CDiv(h, 2)))
  }

  /** The as-written centre leaves the rectangle: for (0, 0, 30, 10) it is
      (15, 35), below the bottom edge at 10. */
  lemma RectangleCentreOutside()
    ensures RectangleAsWritten(0, 0, 30, 10).cog == Point(15, 35)
    ensures !(RectangleAsWritten(0, 0, 30, 10).cog.y <= RectangleAsWritten(0, 0, 30, 10).box.Bottom())
  {
  }

  /** More generally, the as-written centre of a rectangle at the origin
      lies below its bottom edge whenever twice the width exceeds the
      height plus one: every page less than about twice as high as it is
      wide. */
  lemma RectangleCentreBelow(w: int, h: int)
    requires h >= 0 && 2 * w > h + 1
    ensures RectangleAsWritten(0, 0, w, h).cog.y > RectangleAsWritten(0, 0, w, h).box.Bottom()
  {
    CDivNonNegative(h, 2);
  }

  /** The factory with the centre at (x + w/2, y + h/2), inside the
      rectangle whenever its size is non-negative. */
  function RectanglePolygon(x: int, y: int, w: int, h: int): (p: Polygon)
    ensures p.box == Rect(x, y, w, h) && p.points == Corners(x, y, w, h)
    ensures w >= 0 && h >= 0 ==>
      x <= p.cog.x <= x + w && y <= p.cog.y <= y + h
  {
    Polygon(Rect(x, y, w, h), Corners(x, y, w, h), Point(x + CDiv(w, 2), y + CDiv(h, 2)))
  }

  /** Ray casting on an axis-aligned rectangle of positive size accepts
      exactly the half-open box [x, x+w) x [y, y+h): the left and top edges
      are inside, the right and bottom edges are not. */
  lemma RectangleContains(p: Polygon, x: int, y: int, w: int, h: int, q: Point)
    requires p.points == Corners(x, y, w, h)
    requires w > 0 && h > 0
    ensures ContainsPoint(p, q) <==> x <= q.x < x + w && y <= q.y < y + h
  {
    var s := p.points;
    assert CDiv(0, h) == 0 && CDiv(0, -h) == 0;
    assert EdgeCrosses(s[0], s[3], q) <==> y <= q.y < y + h && q.x < x by {
      assert (s[3].x - s[0].x) * (q.y - s[0].y) == 0;
    }
    assert !EdgeCrosses(s[1], s[0], q);
    assert EdgeCrosses(s[2], s[1], q) <==> y <= q.y < y + h && q.x < x + w by {
      assert (s[1].x - s[2].x) * (q.y - s[2].y) == 0;
    }
    assert !EdgeCrosses(s[3], s[2], q);
    assert Toggled(s, q, 1) == EdgeCrosses(s[0], s[3], q);
    assert Toggled(s, q, 2) == (Toggled(s, q, 1) != EdgeCrosses(s[1], s[0], q));
    assert Toggled(s, q, 3) == (Toggled(s, q, 2) != EdgeCrosses(s[2], s[1], q));
    assert Toggled(s, q, 4) == (Toggled(s, q, 3) != EdgeCrosses(s[3], s[2], q));
  }

  /** The polygons of the geometry tests, with the bounding boxes their
      helper computes (extent plus one). */
  const TestRectangle: Polygon := Polygon(Rect(0, 0, 11, 21), Corners(0, 0, 10, 20), Point(5, 10))
  const TestTriangle: Polygon := Polygon(Rect(0, 0, 11, 21), [Point(0, 0), Point(10, 0), Point(0, 20)], Point(3, 6))

  /** The point-inclusion cases the geometry tests assert of the rectangle
      (0,0), (10,0), (10,20), (0,20), and its area. */
  lemma RectangleTestCases()
    ensures ContainsPoint(TestRectangle, Point(0, 0)) && ContainsPoint(TestRectangle, Point(3, 2))
    ensures ContainsPoint(TestRectangle, Point(5, 5)) && ContainsPoint(TestRectangle, Point(9, 5))
    ensures ContainsPoint(TestRectangle, Point(9, 19))
    ensures !ContainsPoint(TestRectangle, Point(-10, 20)) && !ContainsPoint(TestRectangle, Point(10, 5))
    ensures !ContainsPoint(TestRectangle, Point(121, 43))
  {
    var r := TestRectangle;
    assert r.points == Corners(0, 0, 10, 20);
    RectangleContains(r, 0, 0, 10, 20, Point(0, 0));
    RectangleContains(r, 0, 0, 10, 20, Point(3, 2));
    RectangleContains(r, 0, 0, 10, 20, Point(5, 5));
    RectangleContains(r, 0, 0, 10, 20, Point(9, 5));
    RectangleContains(r, 0, 0, 10, 20, Point(9, 19));
    RectangleContains(r, 0, 0, 10, 20, Point(-10, 20));
    RectangleContains(r, 0, 0, 10, 20, Point(10, 5));
    RectangleContains(r, 0, 0, 10, 20, Point(121, 43));
  }

  /** An axis rectangle listed clockwise on screen (y grows downwards) has
      shoelace area exactly w * h. */
  lemma RectangleArea(p: Polygon, x: int, y: int, w: int, h: int)
    requires p.points == Corners(x, y, w, h)
    ensures ShoelaceSum(p.points) == 2 * (w * h)
    ensures Area(p) == w * h
  {
    var s := Corners(x, y, w, h);
    assert ChainSum(s[3..]) == 0;
    assert s[2..][1..] == s[3..];
    assert ChainSum(s[2..]) == Cross(s[2], s[3]);
    assert s[1..][1..] == s[2..];
    assert ChainSum(s[1..]) == Cross(s[1], s[2]) + Cross(s[2], s[3]);
    assert ChainSum(s) == Cross(s[0], s[1]) + Cross(s[1], s[2]) + Cross(s[2], s[3]);
    assert Cross(s[0], s[1]) == -(w * y) by {
      assert x * y - (x + w) * y == -(w * y);
    }
    assert Cross(s[1], s[2]) == (x + w) * h by {
      assert (x + w) * (y + h) - (x + w) * y == (x + w) * h;
    }
    assert Cross(s[2], s[3]) == w * (y + h) by {
      assert (x + w) * (y + h) - x * (y + h) == w * (y + h);
    }
    assert Cross(s[3], s[0]) == -(x * h) by {
      assert x * y - x * (y + h) == -(x * h);
    }
    assert (x + w) * h == x * h + w * h;
    assert w * (y + h) == w * y + w * h;
    var a := w * h;
    assert ShoelaceSum(s) == 2 * a;
    if a >= 0 {
      assert (2 * a) / 2 == a;
    } else {
      assert (-(2 * a)) / 2 == -a;
    }
  }

  /** The shoelace area the geometry tests expect of the rectangle. */
  lemma RectangleAreaTestCase()
    ensures Area(TestRectangle) == 200
  {
    RectangleArea(TestRectangle, 0, 0, 10, 20);
  }

  /** The shoelace area the geometry tests expect of the triangle (10,0),
      (10,20), (0,20). */
  lemma TriangleAreaTestCase()
    ensures Area(Polygon(Rect(0, 0, 11, 21), [Point(10, 0), Point(10, 20), Point(0, 20)], Point(6, 13))) == 100
  {
    var t := [Point(10, 0), Point(10, 20), Point(0, 20)];
    assert ChainSum(t[2..]) == 0;
    assert t[1..][1..] == t[2..];
    assert ChainSum(t[1..]) == 200;
    assert ShoelaceSum(t) == 200;
    CDivNonNegative(200, 2);
  }

  /** The cases the geometry tests assert of the triangle (0,0), (10,0),
      (0,20), and the area of the triangle (10,0), (10,20), (0,20). */
  lemma TriangleTestCases()
    ensures ContainsPoint(TestTriangle, Point(0, 0)) && ContainsPoint(TestTriangle, Point(2, 1))
    ensures ContainsPoint(TestTriangle, Point(5, 5)) && ContainsPoint(TestTriangle, Point(1, 15))
    ensures !ContainsPoint(TestTriangle, Point(5, 16)) && !ContainsPoint(TestTriangle, Point(-10, 20))
    ensures !ContainsPoint(TestTriangle, Point(10, 5)) && !ContainsPoint(TestTriangle, Point(121, 43))
  {
    TriangleInside();
    TriangleOutside();
  }

  lemma TriangleInside()
    ensures ContainsPoint(TestTriangle, Point(0, 0)) && ContainsPoint(TestTriangle, Point(2, 1))
    ensures ContainsPoint(TestTriangle, Point(5, 5)) && ContainsPoint(TestTriangle, Point(1, 15))
  {
    TriangleInsideLow();
  }

  lemma TriangleInsideLow()
    ensures ContainsPoint(TestTriangle, Point(0, 0)) && ContainsPoint(TestTriangle, Point(2, 1))
  {
  }

  lemma TriangleOutside()
    ensures !ContainsPoint(TestTriangle, Point(5, 16)) && !ContainsPoint(TestTriangle, Point(-10, 20))
    ensures !ContainsPoint(TestTriangle, Point(10, 5)) && !ContainsPoint(TestTriangle, Point(121, 43))
  {
  }

  /** The outer test rectangle contains the inner one and not the reverse;
      the two crossing rectangles contain each other in neither direction. */
  lemma RectangleInclusionCases()
    ensures ContainsAll(TestRectangle, TestInner.box, TestInner.points)
    ensures !ContainsAll(TestInner, TestRectangle.box, TestRectangle.points)
    ensures !ContainsAll(TestWide, TestTall.box, TestTall.points)
    ensures !ContainsAll(TestTall, TestWide.box, TestWide.points)
  {
    InnerInsideOuter();
    OuterOutsideInner();
    TallOutsideWide();
    WideOutsideTall();
  }

  lemma OuterOutsideInner()
    ensures !ContainsAll(TestInner, TestRectangle.box, TestRectangle.points)
  {
    RectangleContains(TestInner, 2, 2, 6, 16, TestRectangle.points[0]);
    MissedPoint(TestInner, TestRectangle.box, TestRectangle.points, 0);
  }

  lemma TallOutsideWide()
    ensures !ContainsAll(TestWide, TestTall.box, TestTall.points)
  {
    RectangleContains(TestWide, 0, 10, 10, 10, TestTall.points[0]);
    MissedPoint(TestWide, TestTall.box, TestTall.points, 0);
  }

  lemma WideOutsideTall()
    ensures !ContainsAll(TestTall, TestWide.box, TestWide.points)
  {
    RectangleContains(TestTall, 2, 0, 6, 30, TestWide.points[0]);
    MissedPoint(TestTall, TestWide.box, TestWide.points, 0);
  }

  /** One included point outside the polygon is enough to refuse inclusion. */
  lemma MissedPoint(p: Polygon, includedBox: Rect, includedPoints: seq<Point>, i: nat)
    requires i < |includedPoints| && !ContainsPoint(p, includedPoints[i])
    ensures !ContainsAll(p, includedBox, includedPoints)
  {
  }

  lemma InnerInsideOuter()
    ensures ContainsAll(TestRectangle, TestInner.box, TestInner.points)
  {
    forall i | 0 <= i < 4
      ensures ContainsPoint(TestRectangle, TestInner.points[i])
    {
      RectangleContains(TestRectangle, 0, 0, 10, 20, TestInner.points[i]);
    }
  }

  const TestInner: Polygon := Polygon(Rect(2, 2, 7, 17), Corners(2, 2, 6, 16), Point(5, 10))
  const TestWide: Polygon := Polygon(Rect(0, 10, 11, 11), Corners(0, 10, 10, 10), Point(5, 15))
  const TestTall: Polygon := Polygon(Rect(2, 0, 7, 31), Corners(2, 0, 6, 30), Point(5, 15))
}
