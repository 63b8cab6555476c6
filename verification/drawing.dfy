/** The parts of System.Drawing that the modelled code relies on: integer
    points and rectangles with the framework's Union, Intersect,
    IntersectsWith, Inflate and Contains, and the 2x2 linear part of a
    Drawing2D.Matrix. */
module Drawing {
  import opened Util

  datatype Point = Point(x: int, y: int)

  datatype Size = Size(width: int, height: int)

  /** A rectangle is its top-left corner and its size; Right and Bottom are
      exclusive edges. */
  datatype Rect = Rect(x: int, y: int, width: int, height: int) {
    function Left(): int { x }
    function Top(): int { y }
    function Right(): int { x + width }
    function Bottom(): int { y + height }
    predicate NonNegative() { width >= 0 && height >= 0 }
  }

  const EmptyRect: Rect := Rect(0, 0, 0, 0)

  function FromLTRB(l: int, t: int, r: int, b: int): (rect: Rect)
    ensures rect.Left() == l && rect.Top() == t && rect.Right() == r && rect.Bottom() == b
  {
    Rect(l, t, r - l, b - t)
  }

  /** `outer.Contains(inner)`: every edge of inner lies within outer. */
  predicate ContainsRect(outer: Rect, inner: Rect) {
    outer.x <= inner.x && inner.Right() <= outer.Right() &&
    outer.y <= inner.y && inner.Bottom() <= outer.Bottom()
  }

  /** `Rectangle.Union`: the bounding box of the two rectangles' edges. */
  function Union(a: Rect, b: Rect): (u: Rect)
    ensures ContainsRect(u, a)
    ensures ContainsRect(u, b)
    ensures u.width >= a.width && u.width >= b.width
    ensures u.height >= a.height && u.height >= b.height
  {
    Rect(Min(a.x, b.x), Min(a.y, b.y),
         Max(a.Right(), b.Right()) - Min(a.x, b.x), Max(a.Bottom(), b.Bottom()) - Min(a.y, b.y))
  }

  /** The union is the smallest rectangle containing both. */
  lemma UnionLeast(a: Rect, b: Rect, c: Rect)
    requires ContainsRect(c, a) && ContainsRect(c, b)
    ensures ContainsRect(c, Union(a, b))
  {
  }

  /** The union's edges are the outermost edges of the two rectangles. */
  lemma UnionEdges(a: Rect, b: Rect)
    ensures Union(a, b).Left() == Min(a.Left(), b.Left()) && Union(a, b).Right() == Max(a.Right(), b.Right())
    ensures Union(a, b).Top() == Min(a.Top(), b.Top()) && Union(a, b).Bottom() == Max(a.Bottom(), b.Bottom())
  {
  }

  /** A rectangle with the outermost edges of two rectangles is their
      union. */
  lemma UnionIs(a: Rect, b: Rect, u: Rect)
    requires u.x == Min(a.x, b.x) && u.y == Min(a.y, b.y)
    requires u.Right() == Max(a.Right(), b.Right()) && u.Bottom() == Max(a.Bottom(), b.Bottom())
    ensures Union(a, b) == u
  {
  }

  /** `Rectangle.Intersect`: the common part, or the empty rectangle when the
      edges leave a negative extent. */
  function Intersect(a: Rect, b: Rect): (r: Rect)
    ensures r.NonNegative()
  {
    var x1 := Max(a.x, b.x);
    var x2 := Min(a.Right(), b.Right());
    var y1 := Max(a.y, b.y);
    var y2 := Min(a.Bottom(), b.Bottom());
    if x2 >= x1 && y2 >= y1 then Rect(x1, y1, x2 - x1, y2 - y1) else EmptyRect
  }

  /** `a.IntersectsWith(b)`: the interiors overlap, so touching edges do not
      count. */
  predicate IntersectsWith(a: Rect, b: Rect) {
    b.x < a.Right() && a.x < b.Right() && b.y < a.Bottom() && a.y < b.Bottom()
  }

  /** `Rectangle.Inflate(r, dx, dy)`: grows every side by dx (horizontally)
      and dy (vertically); negative amounts shrink. */
  function Inflate(r: Rect, dx: int, dy: int): (s: Rect)
    ensures s.Left() == r.Left() - dx && s.Right() == r.Right() + dx
    ensures s.Top() == r.Top() - dy && s.Bottom() == r.Bottom() + dy
  {
    Rect(r.x - dx, r.y - dy, r.width + 2 * dx, r.height + 2 * dy)
  }

  /** The linear part (m11, m12, m21, m22) of a Drawing2D.Matrix; a point maps
      to (m11*x + m21*y, m12*x + m22*y). Every matrix the system builds has a
      zero translation. */
  datatype Matrix = Matrix(m11: int, m12: int, m21: int, m22: int)

  const Identity: Matrix := Matrix(1, 0, 0, 1)

  function TransformPoint(m: Matrix, p: Point): Point {
    Point(m.m11 * p.x + m.m21 * p.y, m.m12 * p.x + m.m22 * p.y)
  }

  /** `TransformVectors` ignores the translation, which is zero here. */
  function TransformVector(m: Matrix, p: Point): Point {
    TransformPoint(m, p)
  }

  function Det(m: Matrix): int { m.m11 * m.m22 - m.m12 * m.m21 }

  predicate Unimodular(m: Matrix) { Det(m) == 1 || Det(m) == -1 }

  /** `Matrix.Invert`, for the integer matrices of determinant 1 or -1,
      whose inverse is again an integer matrix: the adjugate times the
      determinant. */
  function Invert(m: Matrix): Matrix
    requires Unimodular(m)
  {
    var d := Det(m);
    Matrix(d * m.m22, -d * m.m12, -d * m.m21, d * m.m11)
  }
}
