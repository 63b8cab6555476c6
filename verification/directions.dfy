/** The reading directions of MangaParser/Page.cs and the matrices that turn
    a page read in any direction into one read left to right, top to bottom. */
module Directions {
  import opened Util
  import opened Drawing
  import opened ReadingUtilities

  datatype ReadingDirection = DownRight | DownLeft | RightDown | LeftDown

  predicate UnitEntries(m: Matrix) {
    -1 <= m.m11 <= 1 && -1 <= m.m12 <= 1 && -1 <= m.m21 <= 1 && -1 <= m.m22 <= 1
  }

  /** `ReadingDirectionToMatrix`: every direction matrix has entries in
      {-1, 0, 1} and is a signed permutation, so it maps integer points to
      integer points exactly. */
  function DirectionMatrix(d: ReadingDirection): (m: Matrix)
    ensures UnitEntries(m)
    ensures (m.m11 == 0) == (m.m22 == 0) && (m.m12 == 0) == (m.m21 == 0)
    ensures (m.m11 == 0) != (m.m12 == 0)
  {
    match d
    case DownLeft => Matrix(-1, 0, 0, 1)
    case RightDown => Matrix(0, 1, 1, 0)
    case LeftDown => Matrix(0, -1, 1, 0)
    case DownRight => Identity
  }

  /** `ReadingDirectionToInverseMatrix`: what `Matrix.Invert` leaves in the
      direction matrix, entry for entry (see `InverseIsInvert`). */
  function InverseMatrix(d: ReadingDirection): (m: Matrix)
    ensures UnitEntries(m)
  {
    match d
    case DownRight => Identity
    case DownLeft => Matrix(-1, 0, 0, 1)
    case RightDown => Matrix(0, 1, 1, 0)
    case LeftDown => Matrix(0, 1, -1, 0)
  }

  /** Every direction matrix has determinant 1 or -1, and inverting it as
      `Invert` does gives `InverseMatrix`. */
  lemma InverseIsInvert(d: ReadingDirection)
    ensures Unimodular(DirectionMatrix(d))
    ensures Invert(DirectionMatrix(d)) == InverseMatrix(d)
  {
    match d
    case DownRight =>
      assert Det(Identity) == 1;
    case DownLeft =>
      assert Det(Matrix(-1, 0, 0, 1)) == -1;
    case RightDown =>
      assert Det(Matrix(0, 1, 1, 0)) == -1;
    case LeftDown =>
      assert Det(Matrix(0, -1, 1, 0)) == 1;
  }

  /** What each direction does to a point, written out. */
  function Apply(d: ReadingDirection, p: Point): Point {
    match d
    case DownRight => p
    case DownLeft => Point(-p.x, p.y)
    case RightDown => Point(p.y, p.x)
    case LeftDown => Point(p.y, -p.x)
  }

  /** What each inverse does to a point, written out. */
  function Unapply(d: ReadingDirection, p: Point): Point {
    match d
    case DownRight => p
    case DownLeft => Point(-p.x, p.y)
    case RightDown => Point(p.y, p.x)
    case LeftDown => Point(-p.y, p.x)
  }

  /** The matrices act on points as `Apply` and `Unapply` say: DownRight is
      the identity, DownLeft mirrors left-right, RightDown transposes and
      LeftDown rotates a quarter turn. */
  lemma DirectionMaps(d: ReadingDirection, p: Point)
    ensures TransformPoint(DirectionMatrix(d), p) == Apply(d, p)
    ensures TransformPoint(InverseMatrix(d), p) == Unapply(d, p)
  {
    match d
    case DownRight =>
      assert TransformPoint(Matrix(1, 0, 0, 1), p) == p;
    case DownLeft =>
      assert TransformPoint(Matrix(-1, 0, 0, 1), p) == Point(-p.x, p.y);
    case RightDown =>
      assert TransformPoint(Matrix(0, 1, 1, 0), p) == Point(p.y, p.x);
    case LeftDown =>
      assert TransformPoint(Matrix(0, -1, 1, 0), p) == Point(p.y, -p.x);
      assert TransformPoint(Matrix(0, 1, -1, 0), p) == Point(-p.y, p.x);
  }

  /** The inverse matrix undoes the direction matrix on every point, in
      both orders. */
  lemma InverseUndoes(d: ReadingDirection, p: Point)
    ensures TransformPoint(InverseMatrix(d), TransformPoint(DirectionMatrix(d), p)) == p
    ensures TransformPoint(DirectionMatrix(d), TransformPoint(InverseMatrix(d), p)) == p
  {
    DirectionMaps(d, p);
    DirectionMaps(d, Apply(d, p));
    DirectionMaps(d, Unapply(d, p));
  }

  /** Left-right mirroring and transposition are their own inverses, the
      identity direction inverts to the identity, and the quarter turn does
      not. */
  lemma SelfInverse(d: ReadingDirection)
    ensures InverseMatrix(d) == DirectionMatrix(d) <==> d != LeftDown
    ensures d == DownRight ==> DirectionMatrix(d) == Identity
  {
  }

  /** The box of a rectangle of non-negative size under each direction,
      written out. */
  function DirectedBox(r: Rect, d: ReadingDirection): Rect {
    match d
    case DownRight => r
    case DownLeft => Rect(-r.Right(), r.y, r.width, r.height)
    case RightDown => Rect(r.y, r.x, r.height, r.width)
    case LeftDown => Rect(r.y, -r.Right(), r.height, r.width)
  }

  /** The box of a rectangle of non-negative size under each inverse,
      written out. */
  function UndirectedBox(r: Rect, d: ReadingDirection): Rect {
    match d
    case DownRight => r
    case DownLeft => Rect(-r.Right(), r.y, r.width, r.height)
    case RightDown => Rect(r.y, r.x, r.height, r.width)
    case LeftDown => Rect(-r.Bottom(), r.x, r.height, r.width)
  }

  lemma BoxMirrored(r: Rect)
    requires r.NonNegative()
    ensures Transform(r, Matrix(-1, 0, 0, 1)) == Rect(-r.Right(), r.y, r.width, r.height)
  {
    assert MappedCorners(r, Matrix(-1, 0, 0, 1)) ==
      [Point(-r.Left(), r.Top()), Point(-r.Right(), r.Top()), Point(-r.Left(), r.Bottom()), Point(-r.Right(), r.Bottom())];
  }

  lemma BoxTransposed(r: Rect)
    requires r.NonNegative()
    ensures Transform(r, Matrix(0, 1, 1, 0)) == Rect(r.y, r.x, r.height, r.width)
  {
    assert MappedCorners(r, Matrix(0, 1, 1, 0)) ==
      [Point(r.Top(), r.Left()), Point(r.Top(), r.Right()), Point(r.Bottom(), r.Left()), Point(r.Bottom(), r.Right())];
  }

  lemma BoxRotated(r: Rect)
    requires r.NonNegative()
    ensures Transform(r, Matrix(0, -1, 1, 0)) == Rect(r.y, -r.Right(), r.height, r.width)
  {
    assert MappedCorners(r, Matrix(0, -1, 1, 0)) ==
      [Point(r.Top(), -r.Left()), Point(r.Top(), -r.Right()), Point(r.Bottom(), -r.Left()), Point(r.Bottom(), -r.Right())];
  }

  lemma BoxUnrotated(r: Rect)
    requires r.NonNegative()
    ensures Transform(r, Matrix(0, 1, -1, 0)) == Rect(-r.Bottom(), r.x, r.height, r.width)
  {
    assert MappedCorners(r, Matrix(0, 1, -1, 0)) ==
      [Point(-r.Top(), r.Left()), Point(-r.Top(), r.Right()), Point(-r.Bottom(), r.Left()), Point(-r.Bottom(), r.Right())];
  }

  /** `Transform` under a direction matrix boxes the image of the rectangle
      exactly: for a rectangle of non-negative size it is `DirectedBox`, and
      under the inverse it is `UndirectedBox`. */
  lemma TransformUnderDirection(r: Rect, d: ReadingDirection)
    requires r.NonNegative()
    ensures Transform(r, DirectionMatrix(d)) == DirectedBox(r, d)
    ensures Transform(r, InverseMatrix(d)) == UndirectedBox(r, d)
  {
    match d
    case DownRight =>
      TransformIdentity(r);
    case DownLeft =>
      BoxMirrored(r);
    case RightDown =>
      BoxTransposed(r);
    case LeftDown =>
      BoxRotated(r);
      BoxUnrotated(r);
  }

  /** Transforming a rectangle of non-negative size by a direction and back
      by its inverse (in either order) gives the rectangle back: the view
      rectangles a viewer computes in reading space map back to page space
      exactly. */
  lemma TransformRoundTrip(r: Rect, d: ReadingDirection)
    requires r.NonNegative()
    ensures Transform(Transform(r, DirectionMatrix(d)), InverseMatrix(d)) == r
    ensures Transform(Transform(r, InverseMatrix(d)), DirectionMatrix(d)) == r
  {
    TransformUnderDirection(r, d);
    var t := Transform(r, DirectionMatrix(d));
    var u := Transform(r, InverseMatrix(d));
    TransformUnderDirection(t, d);
    TransformUnderDirection(u, d);
    BoxesUndo(r, d);
  }

  lemma BoxesUndo(r: Rect, d: ReadingDirection)
    ensures UndirectedBox(DirectedBox(r, d), d) == r
    ensures DirectedBox(UndirectedBox(r, d), d) == r
  {
  }

  /** A point in the closed box of `r` maps into the closed box `Transform`
      computes for `r`. */
  lemma TransformKeepsInside(r: Rect, d: ReadingDirection, p: Point)
    requires r.NonNegative()
    requires r.Left() <= p.x <= r.Right() && r.Top() <= p.y <= r.Bottom()
    ensures var t := Transform(r, DirectionMatrix(d));
            var q := TransformPoint(DirectionMatrix(d), p);
            t.Left() <= q.x <= t.Right() && t.Top() <= q.y <= t.Bottom()
  {
    TransformUnderDirection(r, d);
    DirectionMaps(d, p);
  }
}
