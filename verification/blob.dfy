/** A raster blob of MangaParser/Segmentation/MyAdapter/Blob.cs: the list of
    (row, segment) regions it covers, its bounding box and area, the left and
    right ends of each of its rows, the monotone-chain convex hull through
    those ends and the strict point-in-hull test. */
module Blobs {
  import opened Util
  import opened Drawing
  import opened Sorting

  /** The half-open run of columns [from, to) of one row. */
  datatype Segment = Segment(from: int, to: int) {
    function Width(): int { to - from }
  }

  /** `Segment.CompareTo(other)`: compares the other's `from` with this one's,
      then the other's `to` with this one's, so a positive result means this
      segment sorts after `other`. */
  function CompareSegments(a: Segment, b: Segment): int {
    if b.from == a.from then b.to - a.to else b.from - a.from
  }

  /** `CompareTo` orders segments by descending `from`, then descending `to`:
      it is antisymmetric, zero exactly on equal segments and transitive. */
  lemma CompareSegmentsOrder(a: Segment, b: Segment, c: Segment)
    ensures CompareSegments(a, b) > 0 <==> b.from > a.from || (b.from == a.from && b.to > a.to)
    ensures CompareSegments(a, b) == -CompareSegments(b, a)
    ensures CompareSegments(a, b) == 0 <==> a == b
    ensures CompareSegments(a, b) > 0 && CompareSegments(b, c) > 0 ==> CompareSegments(a, c) > 0
  {
  }

  /** A region is one segment on one row (the source's `Tuple<int, Segment>`,
      compared by value). */
  datatype Region = Region(row: int, seg: Segment)

  function RowOf(r: Region): int { r.row }

  /** The regions in insertion order, and the `sorted` flag that lets
      `toScanExtremities` skip its sort. The cached box and hull are not
      state here: every function recomputes them. */
  datatype Blob = Blob(content: seq<Region>, sorted: bool)

  /** `new Blob()`: no regions, flagged as sorted. */
  const EmptyBlob: Blob := Blob([], true)

  /** `AddRegion(y, segment)` with `updateDerived`: appends the region, then
      recomputes `sorted` by comparing `content.Last()`, which is the region
      just added, with the added region. The flag therefore survives only
      when the segment ends before it starts. */
  function AddRegion(b: Blob, y: int, s: Segment): (r: Blob)
    ensures r.content == b.content + [Region(y, s)]
    ensures r.sorted <==> b.sorted && s.to < s.from
  {
    var added := Region(y, s);
    var c := b.content + [added];
    var last := c[|c| - 1];
    Blob(c, |c| == 0 || (b.sorted && (last.row < added.row || (last.row == added.row && last.seg.to < added.seg.from))))
  }

  /** `new Blob(y, segment)`: a blob holding the one region. */
  function SingleBlob(y: int, s: Segment): (r: Blob)
    ensures r.content == [Region(y, s)]
    ensures r.sorted <==> s.to < s.from
  {
    AddRegion(EmptyBlob, y, s)
  }

  /** Some region of `other` is already in `b`: the case `MergeWith` throws
      for. */
  predicate SharesRegion(b: Blob, other: Blob) {
    exists k :: 0 <= k < |other.content| && other.content[k] in b.content
  }

  /** `b.MergeWith(other)`: fails when the two blobs share a region;
      otherwise `b` gets `other`'s regions after its own and is flagged
      unsorted unless the result is empty. `other` is not changed. */
  function MergeWith(b: Blob, other: Blob): (r: Result<Blob>)
    ensures r.Err? <==> exists reg :: reg in other.content && reg in b.content
    ensures r.Err? ==> r.failure == DuplicateRegion
    ensures r.Ok? ==> r.value.content == b.content + other.content
    ensures r.Ok? ==> (r.value.sorted <==> |b.content| + |other.content| == 0)
  {
    if SharesRegion(b, other) then Err(DuplicateRegion)
    else
      var c := b.content + other.content;
      Ok(Blob(c, |c| == 0))
  }

  /** Merging a non-empty blob with itself always fails. */
  lemma MergeWithSelfFails(b: Blob)
    requires |b.content| > 0
    ensures MergeWith(b, b) == Err(DuplicateRegion)
  {
    assert b.content[0] in b.content;
  }

  /** The three coordinates a bounding box is taken over. */
  datatype Coord = From | To | Row

  function CoordOf(r: Region, c: Coord): int {
    match c
    case From => r.seg.from
    case To => r.seg.to
    case Row => r.row
  }

  /** The least value of a coordinate over the regions. */
  function Least(cs: seq<Region>, c: Coord): int
    requires |cs| > 0
  {
    if |cs| == 1 then CoordOf(cs[0], c) else Min(CoordOf(cs[0], c), Least(cs[1..], c))
  }

  /** The greatest value of a coordinate over the regions. */
  function Greatest(cs: seq<Region>, c: Coord): int
    requires |cs| > 0
  {
    if |cs| == 1 then CoordOf(cs[0], c) else Max(CoordOf(cs[0], c), Greatest(cs[1..], c))
  }

  lemma {:induction false} LeastGreatestBound(cs: seq<Region>, c: Coord, k: int)
    requires 0 <= k < |cs|
    ensures Least(cs, c) <= CoordOf(cs[k], c) <= Greatest(cs, c)
  {
    if k > 0 {
      assert cs[1..][k - 1] == cs[k];
      LeastGreatestBound(cs[1..], c, k - 1);
    }
  }

  lemma {:induction false} LeastGreatestAttained(cs: seq<Region>, c: Coord)
    requires |cs| > 0
    ensures exists k :: 0 <= k < |cs| && CoordOf(cs[k], c) == Least(cs, c)
    ensures exists k :: 0 <= k < |cs| && CoordOf(cs[k], c) == Greatest(cs, c)
  {
    if |cs| == 1 {
      assert CoordOf(cs[0], c) == Least(cs, c) == Greatest(cs, c);
    } else {
      LeastGreatestAttained(cs[1..], c);
      var i :| 0 <= i < |cs[1..]| && CoordOf(cs[1..][i], c) == Least(cs[1..], c);
      var j :| 0 <= j < |cs[1..]| && CoordOf(cs[1..][j], c) == Greatest(cs[1..], c);
      assert cs[1..][i] == cs[i + 1] && cs[1..][j] == cs[j + 1];
      if Least(cs, c) == CoordOf(cs[0], c) {
        assert CoordOf(cs[0], c) == Least(cs, c);
      } else {
        assert CoordOf(cs[i + 1], c) == Least(cs, c);
      }
      if Greatest(cs, c) == CoordOf(cs[0], c) {
        assert CoordOf(cs[0], c) == Greatest(cs, c);
      } else {
        assert CoordOf(cs[j + 1], c) == Greatest(cs, c);
      }
    }
  }

  lemma {:induction false} LeastGreatestAppend(xs: seq<Region>, ys: seq<Region>, c: Coord)
    requires |xs| > 0 && |ys| > 0
    ensures Least(xs + ys, c) == Min(Least(xs, c), Least(ys, c))
    ensures Greatest(xs + ys, c) == Max(Greatest(xs, c), Greatest(ys, c))
  {
    assert (xs + ys)[0] == xs[0];
    if |xs| == 1 {
      assert (xs + ys)[1..] == ys;
    } else {
      assert (xs + ys)[1..] == xs[1..] + ys;
      LeastGreatestAppend(xs[1..], ys, c);
    }
  }

  /** Every region lies in the box: its columns within [Left, Right] and its
      row within [Top, Bottom). */
  predicate BoxBounds(box: Rect, cs: seq<Region>) {
    forall k :: 0 <= k < |cs| ==>
      box.Left() <= cs[k].seg.from && cs[k].seg.to <= box.Right() &&
      box.Top() <= cs[k].row && cs[k].row + 1 <= box.Bottom()
  }

  /** LTRB(least `from`, least row, greatest `to`, greatest row + 1). */
  function BoxOf(cs: seq<Region>): Rect
    requires |cs| > 0
  {
    FromLTRB(Least(cs, From), Least(cs, Row), Greatest(cs, To), Greatest(cs, Row) + 1)
  }

  /** `BoundingBox`: the box of the regions. An empty blob fails, since the
      source reads `content[0]`. */
  function BoundingBox(b: Blob): (r: Result<Rect>)
    ensures r.Ok? <==> |b.content| > 0
    ensures r.Err? ==> r.failure == IndexOutOfRange
  {
    if |b.content| == 0 then Err(IndexOutOfRange) else Ok(BoxOf(b.content))
  }

  /** The box bounds every region and each of its four edges is reached by
      some region, so no smaller box bounds them. */
  lemma BoundingBoxTight(b: Blob)
    requires |b.content| > 0
    ensures BoxBounds(BoundingBox(b).value, b.content)
    ensures exists k :: 0 <= k < |b.content| && b.content[k].seg.from == BoundingBox(b).value.Left()
    ensures exists k :: 0 <= k < |b.content| && b.content[k].seg.to == BoundingBox(b).value.Right()
    ensures exists k :: 0 <= k < |b.content| && b.content[k].row == BoundingBox(b).value.Top()
    ensures exists k :: 0 <= k < |b.content| && b.content[k].row + 1 == BoundingBox(b).value.Bottom()
  {
    var cs := b.content;
    var box := BoundingBox(b).value;
    forall k | 0 <= k < |cs|
      ensures box.Left() <= cs[k].seg.from && cs[k].seg.to <= box.Right()
      ensures box.Top() <= cs[k].row && cs[k].row + 1 <= box.Bottom()
    {
      LeastGreatestBound(cs, From, k);
      LeastGreatestBound(cs, To, k);
      LeastGreatestBound(cs, Row, k);
    }
    LeastGreatestAttained(cs, From);
    LeastGreatestAttained(cs, To);
    LeastGreatestAttained(cs, Row);
    var kl :| 0 <= kl < |cs| && CoordOf(cs[kl], From) == Least(cs, From);
    var kr :| 0 <= kr < |cs| && CoordOf(cs[kr], To) == Greatest(cs, To);
    var kt :| 0 <= kt < |cs| && CoordOf(cs[kt], Row) == Least(cs, Row);
    var kb :| 0 <= kb < |cs| && CoordOf(cs[kb], Row) == Greatest(cs, Row);
  }

  /** Merging two non-empty blobs gives the `Rectangle.Union` of their
      boxes. */
  lemma MergeBoundingBox(b: Blob, other: Blob)
    requires |b.content| > 0 && |other.content| > 0
    requires MergeWith(b, other).Ok?
    ensures BoundingBox(MergeWith(b, other).value)
         == Ok(Union(BoundingBox(b).value, BoundingBox(other).value))
  {
    BoxOfAppend(b.content, other.content);
  }

  lemma BoxOfAppend(xs: seq<Region>, ys: seq<Region>)
    requires |xs| > 0 && |ys| > 0
    ensures BoxOf(xs + ys) == Union(BoxOf(xs), BoxOf(ys))
  {
    LeastGreatestAppend(xs, ys, From);
    LeastGreatestAppend(xs, ys, To);
    LeastGreatestAppend(xs, ys, Row);
  }

  /** The total width of the regions, summed from the front. */
  function SumWidths(cs: seq<Region>): int {
    if |cs| == 0 then 0 else cs[0].seg.Width() + SumWidths(cs[1..])
  }

  lemma {:induction false} SumWidthsAppend(xs: seq<Region>, ys: seq<Region>)
    ensures SumWidths(xs + ys) == SumWidths(xs) + SumWidths(ys)
  {
    if |xs| == 0 {
      assert xs + ys == ys;
    } else {
      assert (xs + ys)[1..] == xs[1..] + ys;
      SumWidthsAppend(xs[1..], ys);
    }
  }

  /** `ComputeArea`: the sum of the segment widths. */
  function Area(b: Blob): int {
    SumWidths(b.content)
  }

  /** A successful merge adds the two areas, and adding a region adds its
      width. */
  lemma AreaAdditive(b: Blob, other: Blob, y: int, s: Segment)
    ensures MergeWith(b, other).Ok? ==> Area(MergeWith(b, other).value) == Area(b) + Area(other)
    ensures Area(AddRegion(b, y, s)) == Area(b) + s.Width()
  {
    SumWidthsAppend(b.content, other.content);
    SumWidthsAppend(b.content, [Region(y, s)]);
    assert SumWidths([Region(y, s)]) == s.Width() + SumWidths([]);
  }

  /** Every segment is a proper run (`from < to`), as the row packer makes
      them, and a blob is flagged sorted only while it is empty. */
  predicate Proper(b: Blob) {
    (forall k :: 0 <= k < |b.content| ==> b.content[k].seg.from < b.content[k].seg.to) &&
    (b.sorted ==> |b.content| == 0)
  }

  /** Blobs built from proper segments stay proper, so their flag is never
      set once they hold a region and the scan always sorts them; their area
      is positive. */
  lemma ProperPreserved(b: Blob, other: Blob, y: int, s: Segment)
    requires Proper(b) && Proper(other) && s.from < s.to
    ensures Proper(AddRegion(b, y, s))
    ensures MergeWith(b, other).Ok? ==> Proper(MergeWith(b, other).value)
    ensures Proper(EmptyBlob) && Proper(SingleBlob(y, s))
  {
    var c := b.content + other.content;
    assert forall k :: 0 <= k < |c| ==> c[k] == (if k < |b.content| then b.content[k] else other.content[k - |b.content|]);
  }

  /** `sort()`: a blob not flagged sorted is stably sorted by row (LINQ's
      `orderby`); a flagged one is used as it is. */
  function SortedContent(b: Blob): (r: seq<Region>)
    ensures multiset(r) == multiset(b.content) && |r| == |b.content|
    ensures !b.sorted ==> SortedBy(r, RowOf)
  {
    if b.sorted then b.content else SortBy(b.content, RowOf)
  }

  /** The scan of `toScanExtremities` over `cs`, in the state where the
      current row is `y` and `x` is the end of the last segment seen
      (-1 before the first): on a new row it yields the end of the previous
      row (unless `x` is -1) and the start of the new one; at the end it
      yields the end of the last row. */
  function ScanFrom(cs: seq<Region>, y: int, x: int): (r: seq<Point>)
    ensures |r| >= 1
  {
    if |cs| == 0 then [Point(x, y)]
    else if cs[0].row != y then
      (if x != -1 then [Point(x, y)] else []) + [Point(cs[0].seg.from, cs[0].row)]
        + ScanFrom(cs[1..], cs[0].row, cs[0].seg.to)
    else ScanFrom(cs[1..], y, cs[0].seg.to)
  }

  /** `toScanExtremities`: nothing for an empty blob; otherwise the scan of
      the sorted regions starting just above the first row. */
  function ScanExtremities(b: Blob): (pts: seq<Point>)
    ensures |b.content| == 0 ==> pts == []
    ensures |b.content| > 0 ==> |pts| >= 2
    ensures |b.content| > 0 ==>
      var cs := SortedContent(b);
      pts[0] == Point(cs[0].seg.from, cs[0].row) &&
      pts[|pts| - 1] == Point(cs[|cs| - 1].seg.to, cs[|cs| - 1].row)
  {
    var cs := SortedContent(b);
    if |cs| == 0 then []
    else
      ScanStart(cs);
      ScanFromLast(cs, cs[0].row - 1, -1);
      ScanFrom(cs, cs[0].row - 1, -1)
  }

  /** The scan always ends with the end of the last region, on its row. */
  lemma {:induction false} ScanFromLast(cs: seq<Region>, y: int, x: int)
    requires |cs| > 0
    ensures var r := ScanFrom(cs, y, x);
      r[|r| - 1] == Point(cs[|cs| - 1].seg.to, cs[|cs| - 1].row)
    decreases |cs|
  {
    if |cs| > 1 {
      ScanFromLast(cs[1..], if cs[0].row != y then cs[0].row else y, cs[0].seg.to);
    }
  }

  /** Region i opens its row of the scan order. */
  predicate FirstInRow(cs: seq<Region>, i: int)
    requires 0 <= i < |cs|
  {
    i == 0 || cs[i - 1].row != cs[i].row
  }

  /** Region i closes its row of the scan order. */
  predicate LastInRow(cs: seq<Region>, i: int)
    requires 0 <= i < |cs|
  {
    i == |cs| - 1 || cs[i + 1].row != cs[i].row
  }

  /** What region i contributes: its start if it opens a row, then its end
      if it closes one. */
  function RowEnds(cs: seq<Region>, i: int): seq<Point>
    requires 0 <= i < |cs|
  {
    (if FirstInRow(cs, i) then [Point(cs[i].seg.from, cs[i].row)] else [])
      + (if LastInRow(cs, i) then [Point(cs[i].seg.to, cs[i].row)] else [])
  }

  /** The reference definition: the contributions of regions i.. in order. */
  function Extremities(cs: seq<Region>, i: int): seq<Point>
    requires 0 <= i <= |cs|
    decreases |cs| - i
  {
    if i == |cs| then [] else RowEnds(cs, i) + Extremities(cs, i + 1)
  }

  predicate NoMinusOneEnd(cs: seq<Region>) {
    forall r :: r in cs ==> r.seg.to != -1
  }

  lemma {:induction false} ScanFromMatches(cs: seq<Region>, i: int)
    requires 1 <= i <= |cs| && NoMinusOneEnd(cs)
    ensures ScanFrom(cs[i..], cs[i - 1].row, cs[i - 1].seg.to)
         == (if LastInRow(cs, i - 1) then [Point(cs[i - 1].seg.to, cs[i - 1].row)] else [])
            + Extremities(cs, i)
    decreases |cs| - i
  {
    if i < |cs| {
      assert cs[i - 1] in cs;
      assert cs[i..][1..] == cs[i + 1..];
      ScanFromMatches(cs, i + 1);
    }
  }

  /** The first step of the scan: the row above the first region is never
      a region's row, and no end is pending, so only the start is yielded. */
  lemma ScanStart(cs: seq<Region>)
    requires |cs| > 0
    ensures ScanFrom(cs, cs[0].row - 1, -1)
         == [Point(cs[0].seg.from, cs[0].row)] + ScanFrom(cs[1..], cs[0].row, cs[0].seg.to)
  {
  }

  /** From just above the first row with no end pending, the scan of `cs`
      is the reference sequence. */
  lemma ScanIsExtremities(cs: seq<Region>)
    requires |cs| > 0 && NoMinusOneEnd(cs)
    ensures ScanFrom(cs, cs[0].row - 1, -1) == Extremities(cs, 0)
  {
    var start := [Point(cs[0].seg.from, cs[0].row)];
    var last := if LastInRow(cs, 0) then [Point(cs[0].seg.to, cs[0].row)] else [];
    var rest := Extremities(cs, 1);
    calc {
      ScanFrom(cs, cs[0].row - 1, -1);
    == { ScanStart(cs); ScanFromMatches(cs, 1); }
      start + (last + rest);
    == // concatenation is associative
      (start + last) + rest;
    == { assert RowEnds(cs, 0) == start + last; }
      Extremities(cs, 0);
    }
  }

  /** Sorting keeps the regions, so it keeps every end off column -1. */
  lemma SortedKeepsEnds(b: Blob)
    requires NoMinusOneEnd(b.content)
    ensures NoMinusOneEnd(SortedContent(b))
  {
    var cs := SortedContent(b);
    forall r | r in cs
      ensures r.seg.to != -1
    {
      assert r in multiset(cs);
    }
  }

  /** Whenever no segment ends at column -1 (the scan's "no previous row"
      marker), `toScanExtremities` yields, row by row in the sorted order,
      the start of the row's first segment and the end of its last one. */
  lemma ScanExtremitiesMeaning(b: Blob)
    requires NoMinusOneEnd(b.content)
    ensures ScanExtremities(b) == Extremities(SortedContent(b), 0)
  {
    var cs := SortedContent(b);
    if |cs| > 0 {
      SortedKeepsEnds(b);
      ScanIsExtremities(cs);
    }
  }

  /** The blob of one region yields its two ends. */
  lemma ScanSingleRegion(y: int, s: Segment)
    requires s.from < s.to
    ensures ScanExtremities(SingleBlob(y, s)) == [Point(s.from, y), Point(s.to, y)]
  {
    var b := SingleBlob(y, s);
    var r := Region(y, s);
    assert SortBy([r], RowOf) == InsertBy(r, SortBy([], RowOf), RowOf);
    assert SortedContent(b) == [r];
    assert ScanFrom([r], y - 1, -1) == [Point(s.from, y)] + ScanFrom([], y, s.to);
  }

  /** `vectorProduct(o, a, b)`: the cross product of o->a and o->b, positive
      when o, a, b turn left (counter-clockwise in x-right, y-up axes). */
  function VectorProduct(o: Point, a: Point, b: Point): int {
    (a.x - o.x) * (b.y - o.y) - (a.y - o.y) * (b.x - o.x)
  }

  /** The turn test is an orientation: swapping the two ends reverses it,
      rotating the three points does not change it, and it is zero when
      two of the points coincide. */
  lemma VectorProductOrientation(o: Point, a: Point, b: Point)
    ensures VectorProduct(o, a, b) == -VectorProduct(o, b, a)
    ensures VectorProduct(o, a, b) == VectorProduct(a, b, o) == VectorProduct(b, o, a)
    ensures VectorProduct(o, a, a) == 0 && VectorProduct(o, o, b) == 0
  {
  }

  /** Every three consecutive points of the chain turn strictly. */
  predicate StrictTurns(c: seq<Point>) {
    forall k :: 0 <= k < |c| - 2 ==> VectorProduct(c[k], c[k + 1], c[k + 2]) > 0
  }

  /** One step of a hull loop: drop the chain's last point while it and the
      new point do not turn strictly from the point before, then append. */
  function Push(chain: seq<Point>, p: Point): (r: seq<Point>)
    requires StrictTurns(chain)
    ensures StrictTurns(r)
    ensures 1 <= |r| <= |chain| + 1 && r[|r| - 1] == p
    ensures |chain| >= 1 ==> |r| >= 2 && r[0] == chain[0]
    ensures forall q :: q in r ==> q in chain || q == p
    decreases |chain|
  {
    if |chain| >= 2 && VectorProduct(chain[|chain| - 2], chain[|chain| - 1], p) <= 0 then
      Push(chain[..|chain| - 1], p)
    else
      chain + [p]
  }

  /** The chain one hull loop builds over `pts`. */
  function Chain(pts: seq<Point>): (c: seq<Point>)
    ensures StrictTurns(c)
    ensures |c| <= |pts|
    ensures |pts| >= 1 ==> |c| >= 1 && c[0] == pts[0] && c[|c| - 1] == pts[|pts| - 1]
    ensures |pts| >= 2 ==> |c| >= 2
    ensures forall q :: q in c ==> q in pts
    decreases |pts|
  {
    if |pts| == 0 then []
    else
      var prefix := pts[..|pts| - 1];
      var last := pts[|pts| - 1];
      assert forall q :: q in prefix ==> q in pts;
      var c := Chain(prefix);
      assert |prefix| >= 1 ==> c[0] == pts[0];
      Push(c, last)
  }

  /** The two chains, each without its last point, lower first. */
  function JoinChains(lower: seq<Point>, upper: seq<Point>): (h: seq<Point>)
    requires |lower| >= 1 && |upper| >= 1
  {
    lower[..|lower| - 1] + upper[..|upper| - 1]
  }

  /** The hull loops over a list of points: the lower chain forwards, the
      upper chain backwards, each without its last point. */
  function HullOf(pts: seq<Point>): (h: seq<Point>)
    requires |pts| >= 2
    ensures |h| >= 2 && h[0] == pts[0]
  {
    JoinChains(Chain(pts), Chain(Reverse(pts)))
  }

  /** Every hull point is one of the points. */
  lemma HullMembers(pts: seq<Point>, q: Point)
    requires |pts| >= 2 && q in HullOf(pts)
    ensures q in pts
  {
    var lower := Chain(pts);
    var upper := Chain(Reverse(pts));
    assert HullOf(pts) == lower[..|lower| - 1] + upper[..|upper| - 1];
    if q in lower[..|lower| - 1] {
      assert q in lower;
    } else {
      assert q in upper[..|upper| - 1];
      assert q in upper;
      assert q in multiset(Reverse(pts));
    }
  }

  /** Both chains of the hull turn strictly at every interior point, the
      lower one starts at the first point and ends at the last, and the
      upper one runs from the last point back to the first. */
  lemma HullChains(pts: seq<Point>)
    requires |pts| >= 2
    ensures var lower := Chain(pts);
            var upper := Chain(Reverse(pts));
            StrictTurns(lower) && StrictTurns(upper) &&
            lower[0] == pts[0] && lower[|lower| - 1] == pts[|pts| - 1] &&
            upper[0] == pts[|pts| - 1] && upper[|upper| - 1] == pts[0] &&
            HullOf(pts) == JoinChains(lower, upper)
  {
    UpperEnds(pts);
  }

  lemma UpperEnds(pts: seq<Point>)
    requires |pts| >= 2
    ensures var upper := Chain(Reverse(pts));
            upper[0] == pts[|pts| - 1] && upper[|upper| - 1] == pts[0]
  {
    var rp := Reverse(pts);
    assert rp[0] == pts[|pts| - 1] && rp[|rp| - 1] == pts[0];
  }

  /** `ComputeConvexHull`: nothing for an empty blob, otherwise the hull of
      its scan extremities. */
  function ConvexHull(b: Blob): (h: seq<Point>)
    ensures |b.content| == 0 ==> h == []
    ensures |b.content| > 0 ==> |h| >= 2 && h == HullOf(ScanExtremities(b))
  {
    if |b.content| == 0 then [] else HullOf(ScanExtremities(b))
  }

  /** The point is strictly to the left of every hull edge hull[i]->hull[i+1];
      the closing edge from the last point back to the first is not
      tested. */
  predicate LeftOfEdges(h: seq<Point>, p: Point) {
    forall i :: 0 <= i < |h| - 1 ==> VectorProduct(h[i], h[i + 1], p) > 0
  }

  /** `ConvexInclude(point)`: false outside the closed box [Left, Right] x
      [Top, Bottom]; otherwise the edge test on the hull. An empty blob
      fails on its bounding box. */
  function ConvexInclude(b: Blob, p: Point): (r: Result<bool>)
    ensures r.Err? <==> |b.content| == 0
    ensures r.Ok? ==> (r.value <==>
      (var box := BoundingBox(b).value;
       box.Left() <= p.x <= box.Right() && box.Top() <= p.y <= box.Bottom() &&
       LeftOfEdges(ConvexHull(b), p)))
  {
    var box :- BoundingBox(b);
    if p.x < box.Left() || p.x > box.Right() || p.y < box.Top() || p.y > box.Bottom() then Ok(false)
    else Ok(LeftOfEdges(ConvexHull(b), p))
  }

  /** No vertex of a hull of two or more points passes the edge test: the
      edges leaving and entering it have a zero cross product there. */
  lemma VerticesNotLeft(h: seq<Point>, k: int)
    requires |h| >= 2 && 0 <= k < |h|
    ensures !LeftOfEdges(h, h[k])
  {
    if k < |h| - 1 {
      assert VectorProduct(h[k], h[k + 1], h[k]) == 0;
    } else {
      assert VectorProduct(h[k - 1], h[k], h[k]) == 0;
    }
  }

  /** The test is strict: no hull vertex of a blob is included. */
  lemma HullVerticesExcluded(b: Blob, k: int)
    requires 0 <= k < |ConvexHull(b)|
    ensures ConvexInclude(b, ConvexHull(b)[k]) == Ok(false)
  {
    VerticesNotLeft(ConvexHull(b), k);
  }
}
