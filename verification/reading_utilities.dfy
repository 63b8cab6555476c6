/** Rectangle helpers of MangaParser/Geometry/ReadingUtilities.cs:
    interval intersection, rectangle area and overlap, vertical overlap and
    the bounding box of a transformed rectangle. */
module ReadingUtilities {
  import opened Util
  import opened Drawing

  /** `intersect(a1, b1, a2, b2)`: the half-open intervals [a1, b1) and
      [a2, b2) share a point. */
  predicate SegmentsIntersect(a1: int, b1: int, a2: int, b2: int) {
    a1 < b2 && a2 < b1
  }

  /** `t` lies in the half-open interval [a, b). */
  predicate InInterval(t: int, a: int, b: int) { a <= t < b }

  /** For non-empty intervals the test means exactly "some integer lies in
      both"; it is symmetric, and intervals that only touch do not
      intersect. */
  lemma SegmentsIntersectMeaning(a1: int, b1: int, a2: int, b2: int)
    requires a1 < b1 && a2 < b2
    ensures SegmentsIntersect(a1, b1, a2, b2)
        <==> exists t :: InInterval(t, a1, b1) && InInterval(t, a2, b2)
    ensures SegmentsIntersect(a1, b1, a2, b2) == SegmentsIntersect(a2, b2, a1, b1)
    ensures b1 == a2 ==> !SegmentsIntersect(a1, b1, a2, b2)
  {
    if SegmentsIntersect(a1, b1, a2, b2) {
      var t := Max(a1, a2);
      assert InInterval(t, a1, b1) && InInterval(t, a2, b2);
    }
  }

  /** `HeightIntersect`: the two rectangles' [Top, Bottom) ranges meet. */
  predicate HeightIntersect(r1: Rect, r2: Rect) {
    SegmentsIntersect(r1.Top(), r1.Bottom(), r2.Top(), r2.Bottom())
  }

  /** For rectangles of positive height: they share a row, symmetrically. */
  lemma HeightIntersectMeaning(r1: Rect, r2: Rect)
    requires r1.height > 0 && r2.height > 0
    ensures HeightIntersect(r1, r2)
        <==> exists y :: InInterval(y, r1.Top(), r1.Bottom()) && InInterval(y, r2.Top(), r2.Bottom())
    ensures HeightIntersect(r1, r2) == HeightIntersect(r2, r1)
  {
    SegmentsIntersectMeaning(r1.Top(), r1.Bottom(), r2.Top(), r2.Bottom());
  }

  /** `Area(r)`: width times height. */
  function Area(r: Rect): (a: int)
    ensures r.NonNegative() ==> a >= 0
    ensures r.width > 0 && r.height > 0 ==> a > 0
  {
    r.width * r.height
  }

  /** `Overlap(r1, r2)`: the area of `Rectangle.Intersect(r1, r2)`. */
  function Overlap(r1: Rect, r2: Rect): (o: int)
    ensures o >= 0
  {
    Area(Intersect(r1, r2))
  }

  /** The overlap is symmetric, positive only when the interiors meet (so
      edge-touching rectangles overlap by 0) and, for rectangles of positive
      size, whenever they meet; it is no larger than either area. */
  lemma OverlapProperties(r1: Rect, r2: Rect)
    ensures Overlap(r1, r2) == Overlap(r2, r1)
    ensures Overlap(r1, r2) > 0 ==> IntersectsWith(r1, r2)
    ensures r1.width > 0 && r1.height > 0 && r2.width > 0 && r2.height > 0 && IntersectsWith(r1, r2)
        ==> Overlap(r1, r2) > 0
    ensures r1.NonNegative() ==> Overlap(r1, r2) <= Area(r1)
    ensures r2.NonNegative() ==> Overlap(r1, r2) <= Area(r2)
  {
    var i := Intersect(r1, r2);
    assert Intersect(r1, r2) == Intersect(r2, r1);
    PositiveProduct(i.width, i.height);
    if r1.NonNegative() {
      AreaMonotone(i, r1);
    }
    if r2.NonNegative() {
      AreaMonotone(i, r2);
    }
  }

  lemma PositiveProduct(a: int, b: int)
    requires a >= 0 && b >= 0
    ensures a * b > 0 <==> a > 0 && b > 0
  {
    if a > 0 && b > 0 {
      assert a * b >= 1 * b;
    }
  }

  lemma AreaMonotone(small: Rect, big: Rect)
    requires small.NonNegative() && big.NonNegative()
    requires small.width <= big.width && small.height <= big.height
    ensures Area(small) <= Area(big)
  {
    calc {
      small.width * small.height;
    <= big.width * small.height;
    <= big.width * big.height;
    }
  }

  /** `YOverlap(r1, r2)`: the length of the common part of the two
      rectangles' vertical extents, or 0. */
  function YOverlap(r1: Rect, r2: Rect): (o: int)
    ensures o >= 0
  {
    Max(0, Min(r1.Bottom(), r2.Bottom()) - Max(r1.Top(), r2.Top()))
  }

  /** The vertical overlap is symmetric, bounded by each height, and positive
      exactly when the rectangles share a row. */
  lemma YOverlapProperties(r1: Rect, r2: Rect)
    ensures YOverlap(r1, r2) == YOverlap(r2, r1)
    ensures r1.height >= 0 ==> YOverlap(r1, r2) <= r1.height
    ensures r2.height >= 0 ==> YOverlap(r1, r2) <= r2.height
    ensures YOverlap(r1, r2) > 0 ==> HeightIntersect(r1, r2)
    ensures r1.height > 0 && r2.height > 0 && HeightIntersect(r1, r2) ==> YOverlap(r1, r2) > 0
  {
  }

  /** The four corners (Left,Top), (Right,Top), (Left,Bottom), (Right,Bottom),
      each mapped by `m`. */
  function MappedCorners(r: Rect, m: Matrix): seq<Point> {
    [TransformPoint(m, Point(r.Left(), r.Top())),
     TransformPoint(m, Point(r.Right(), r.Top())),
     TransformPoint(m, Point(r.Left(), r.Bottom())),
     TransformPoint(m, Point(r.Right(), r.Bottom()))]
  }

  /** `rect.Transform(m)`: the smallest rectangle holding the four mapped
      corners. */
  function Transform(r: Rect, m: Matrix): (t: Rect)
    ensures t.NonNegative()
    ensures forall c | c in MappedCorners(r, m) ::
      t.Left() <= c.x <= t.Right() && t.Top() <= c.y <= t.Bottom()
    ensures exists c | c in MappedCorners(r, m) :: c.x == t.Left()
    ensures exists c | c in MappedCorners(r, m) :: c.x == t.Right()
    ensures exists c | c in MappedCorners(r, m) :: c.y == t.Top()
    ensures exists c | c in MappedCorners(r, m) :: c.y == t.Bottom()
  {
    var cs := MappedCorners(r, m);
    var x1 := Min(Min(cs[0].x, cs[1].x), Min(cs[2].x, cs[3].x));
    var x2 := Max(Max(cs[0].x, cs[1].x), Max(cs[2].x, cs[3].x));
    var y1 := Min(Min(cs[0].y, cs[1].y), Min(cs[2].y, cs[3].y));
    var y2 := Max(Max(cs[0].y, cs[1].y), Max(cs[2].y, cs[3].y));
    Rect(x1, y1, x2 - x1, y2 - y1)
  }

  /** Under the identity a rectangle of non-negative size is unchanged. */
  lemma TransformIdentity(r: Rect)
    requires r.NonNegative()
    ensures Transform(r, Identity) == r
  {
  }
}
