/** The three helpers of MangaReader/WPFUtil.cs the view handlers rely on:
    the centre of a rectangle, the squared distance between two points and
    the visibility of a flag. The WPF animation helpers are left out. */
module WpfUtil {
  import opened Util
  import opened Drawing

  /** `center`: the middle of the rectangle, each half-size truncated. */
  function Center(r: Rect): (c: Point)
    ensures -1 <= 2 * (c.x - r.x) - r.width <= 1 && -1 <= 2 * (c.y - r.y) - r.height <= 1
    ensures r.NonNegative() ==> r.x <= c.x <= r.Right() && r.y <= c.y <= r.Bottom()
  {
    Point(r.x + CDiv(r.width, 2), r.y + CDiv(r.height, 2))
  }

  /** `SqDist`: the square of the Euclidean distance (the coordinates are
      whole numbers, so the double result is exact). */
  function SqDist(p1: Point, p2: Point): (d: int)
    ensures d >= 0
    ensures d == 0 <==> p1 == p2
  {
    var dx, dy := p2.x - p1.x, p2.y - p1.y;
    assert dx * dx >= 0 && dy * dy >= 0;
    assert dx * dx == 0 ==> dx == 0;
    assert dy * dy == 0 ==> dy == 0;
    dx * dx + dy * dy
  }

  /** The distance does not depend on which point comes first. */
  lemma SqDistSymmetric(p1: Point, p2: Point)
    ensures SqDist(p1, p2) == SqDist(p2, p1)
  {
    var dx, dy := p2.x - p1.x, p2.y - p1.y;
    assert (-dx) * (-dx) == dx * dx && (-dy) * (-dy) == dy * dy;
  }

  /** Moving both points by the same offset keeps their distance. */
  lemma SqDistTranslate(p1: Point, p2: Point, dx: int, dy: int)
    ensures SqDist(Point(p1.x + dx, p1.y + dy), Point(p2.x + dx, p2.y + dy)) == SqDist(p1, p2)
  {
  }

  datatype Visibility = Visible | Hidden

  /** `toVisibility`: shown exactly when the flag is set, hidden (never
      collapsed) otherwise. */
  function ToVisibility(visible: bool): (v: Visibility)
    ensures v == Visible <==> visible
    ensures v == Hidden <==> !visible
  {
    if visible then Visible else Hidden
  }
}
