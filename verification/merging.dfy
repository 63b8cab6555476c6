/** MergingPageViewer and CellsPageViewer: cell boxes are merged into views
    by repeated passes. In a pass each cell not yet absorbed becomes a
    reference and absorbs every later unabsorbed cell that overlaps it,
    provided the union stays within the size limits; passes repeat until the
    number of groups stops changing. */
module Merging {
  import opened Util
  import opened Drawing
  import opened ReadingUtilities
  import opened Directions

  /** A group: its rectangle and the cell rectangles that contributed to it
      (the `Tuple<Rectangle, List<Rectangle>>` of the source). */
  datatype Merge = Merge(rect: Rect, parts: seq<Rect>)

  /** The overlap relation of the concrete viewer. */
  datatype ViewerKind = CellsKind | StripKind

  /** The state of a merging viewer: its limits (-1 for none), the size the
      limits take in reading space, and the view transformation. */
  datatype MergingViewer = MergingViewer(kind: ViewerKind, maxWidth: int, maxHeight: int,
                                         transformedSize: Size, transformation: Matrix)

  /** The constructor: the transformed size starts as the limits themselves
      and the transformation as the identity. */
  function NewViewer(kind: ViewerKind, maxWidth: int, maxHeight: int): (v: MergingViewer)
    ensures v.transformedSize == Size(maxWidth, maxHeight) && v.transformation == Identity
  {
    MergingViewer(kind, maxWidth, maxHeight, Size(maxWidth, maxHeight), Identity)
  }

  /** `transformSize`: (width, height) mapped as a vector, each coordinate
      made non-negative. */
  function TransformSize(m: Matrix, width: int, height: int): (s: Size)
    ensures s.width >= 0 && s.height >= 0
  {
    var p := TransformVector(m, Point(width, height));
    Size(Abs(p.x), Abs(p.y))
  }

  /** Under a reading direction the limits keep their magnitudes and are
      swapped exactly when the direction transposes the page. */
  lemma TransformSizeUnderDirection(d: ReadingDirection, width: int, height: int)
    ensures d == DownRight || d == DownLeft ==>
      TransformSize(DirectionMatrix(d), width, height) == Size(Abs(width), Abs(height))
    ensures d == RightDown || d == LeftDown ==>
      TransformSize(DirectionMatrix(d), width, height) == Size(Abs(height), Abs(width))
  {
  }

  /** The `ViewTransformation` setter: stores the matrix and recomputes the
      transformed size from the stored limits. */
  function SetTransformation(v: MergingViewer, m: Matrix): (w: MergingViewer)
    ensures w.transformation == m
    ensures w.kind == v.kind && w.maxWidth == v.maxWidth && w.maxHeight == v.maxHeight
    ensures w.transformedSize.width == Abs(m.m11 * v.maxWidth + m.m21 * v.maxHeight)
    ensures w.transformedSize.height == Abs(m.m12 * v.maxWidth + m.m22 * v.maxHeight)
  {
    v.(transformation := m, transformedSize := TransformSize(m, v.maxWidth, v.maxHeight))
  }

  /** Setting the transformation twice is the same as setting the last one:
      the transformed size depends only on the limits, never on the
      previous transformation. */
  lemma SetTransformationLastWins(v: MergingViewer, m1: Matrix, m2: Matrix)
    ensures SetTransformation(SetTransformation(v, m1), m2) == SetTransformation(v, m2)
  {
  }

  /** The size test of `MergeCells`: a limit of -1 disables the test on its
      axis. */
  predicate Fits(v: MergingViewer, r: Rect) {
    (v.maxWidth == -1 || r.width <= v.transformedSize.width) &&
    (v.maxHeight == -1 || r.height <= v.transformedSize.height)
  }

  // ---------------------------------------------------------------------
  // The overlap relations

  /** `CellsPageViewer.Overlap`: the larger of the two ratios of the common
      area to each area, in decimal arithmetic, is at least one half. The
      decimal division throws when an area is zero. */
  function CellsOverlap(r1: Rect, r2: Rect): (r: Result<bool>)
    ensures r.Err? <==> Area(r1) == 0 || Area(r2) == 0
    ensures r.Err? ==> r.failure == DivideByZero
    ensures Area(r1) > 0 && Area(r2) > 0 ==>
      r == Ok(2 * Overlap(r1, r2) >= Area(r1) || 2 * Overlap(r1, r2) >= Area(r2))
  {
    var o, a1, a2 := Overlap(r1, r2), Area(r1), Area(r2);
    if a1 == 0 || a2 == 0 then Err(DivideByZero)
    else
      MaxRatioAtLeastHalf(o, a1, a2);
      Ok(RealMax(o as real / a1 as real, o as real / a2 as real) >= 0.5)
  }

  function RealMax(a: real, b: real): real { if a >= b then a else b }

  /** For positive denominators, the larger of o/a1 and o/a2 is at least
      one half exactly when 2o reaches a1 or a2. */
  lemma MaxRatioAtLeastHalf(o: int, a1: int, a2: int)
    requires a1 != 0 && a2 != 0
    ensures a1 > 0 && a2 > 0 ==>
      (RealMax(o as real / a1 as real, o as real / a2 as real) >= 0.5 <==> 2 * o >= a1 || 2 * o >= a2)
  {
    if a1 > 0 && a2 > 0 {
      RatioAtLeastHalf(o, a1);
      RatioAtLeastHalf(o, a2);
    }
  }

  lemma RatioAtLeastHalf(o: int, a: int)
    requires a > 0
    ensures o as real / a as real >= 0.5 <==> 2 * o >= a
  {
    var q := o as real / a as real;
    assert q * (a as real) == o as real;
  }

  /** The cells overlap is symmetric; rectangles of positive size that only
      touch do not overlap, and one inside the other always does. */
  lemma CellsOverlapProperties(r1: Rect, r2: Rect)
    ensures CellsOverlap(r1, r2) == CellsOverlap(r2, r1)
    ensures r1.width > 0 && r1.height > 0 && r2.width > 0 && r2.height > 0 && !IntersectsWith(r1, r2)
      ==> CellsOverlap(r1, r2) == Ok(false)
    ensures r1.width > 0 && r1.height > 0 && r2.width > 0 && r2.height > 0 && ContainsRect(r1, r2)
      ==> CellsOverlap(r1, r2) == Ok(true)
  {
    OverlapProperties(r1, r2);
    if r1.width > 0 && r1.height > 0 && r2.width > 0 && r2.height > 0 && ContainsRect(r1, r2) {
      assert Intersect(r1, r2) == r2;
    }
  }

  /** `StripPageViewer.Overlap` evaluated exactly: the common height is more
      than half of either height. Double division by a zero height gives NaN
      or an infinity; the common height is then 0 and the test fails, which
      is why a positive common height is required. */
  predicate StripOverlap(r1: Rect, r2: Rect) {
    var o := YOverlap(r1, r2);
    o > 0 && (2 * o > r1.height || 2 * o > r2.height)
  }

  /** The strip overlap is symmetric and rectangles sharing no row never
      overlap; for non-negative heights it is the integer test on the
      common height. */
  lemma StripOverlapProperties(r1: Rect, r2: Rect)
    ensures StripOverlap(r1, r2) == StripOverlap(r2, r1)
    ensures YOverlap(r1, r2) == 0 ==> !StripOverlap(r1, r2)
    ensures StripOverlap(r1, r2) ==> r1.height > 0 && r2.height > 0
    ensures r1.height >= 0 && r2.height >= 0 ==>
      (StripOverlap(r1, r2) <==> 2 * YOverlap(r1, r2) > r1.height || 2 * YOverlap(r1, r2) > r2.height)
  {
    YOverlapProperties(r1, r2);
  }

  /** The overlap of the concrete viewer, with the cells viewer's division
      failure. */
  function OverlapOf(kind: ViewerKind, r1: Rect, r2: Rect): (r: Result<bool>)
    ensures kind == StripKind ==> r == Ok(StripOverlap(r1, r2))
    ensures kind == CellsKind ==> r == CellsOverlap(r1, r2)
  {
    match kind
    case CellsKind => CellsOverlap(r1, r2)
    case StripKind => Ok(StripOverlap(r1, r2))
  }

  // ---------------------------------------------------------------------
  // MergeCells

  predicate Positive(r: Rect) { r.width > 0 && r.height > 0 }

  /** The loop of `MergeCells` from index `j` on, with the group built so far
      in `acc` and the absorbed flags in `merged`. A cell is compared with
      the reference cell's own rectangle, its parts are appended whenever
      it overlaps, and it is absorbed only when the union fits. */
  function Scan(v: MergingViewer, cells: seq<Merge>, ref: nat, j: nat, merged: seq<bool>, acc: Merge)
    : (r: Result<(Merge, seq<bool>)>)
    requires ref < |cells| && ref < j <= |cells| && |merged| == |cells|
    ensures r.Ok? ==> |r.value.1| == |merged|
    ensures r.Ok? ==> forall k :: 0 <= k < j ==> r.value.1[k] == merged[k]
    ensures r.Ok? ==> forall k :: 0 <= k < |merged| && merged[k] ==> r.value.1[k]
    ensures r.Ok? ==> ContainsRect(r.value.0.rect, acc.rect)
    ensures r.Ok? ==> forall k :: 0 <= k < |merged| && !merged[k] && r.value.1[k] ==>
      ContainsRect(r.value.0.rect, cells[k].rect)
    ensures r.Ok? ==> r.value.0.rect == acc.rect || Fits(v, r.value.0.rect)
    ensures r.Ok? ==> |r.value.0.parts| >= |acc.parts| && r.value.0.parts[..|acc.parts|] == acc.parts
    ensures r.Ok? && Positive(acc.rect) ==> Positive(r.value.0.rect)
    ensures (forall k :: ref <= k < |cells| ==> Positive(cells[k].rect)) || v.kind == StripKind ==> r.Ok?
    decreases |cells| - j
  {
    if j == |cells| then Ok((acc, merged))
    else if merged[j] then Scan(v, cells, ref, j + 1, merged, acc)
    else
      var overlaps :- OverlapOf(v.kind, cells[ref].rect, cells[j].rect);
      if !overlaps then Scan(v, cells, ref, j + 1, merged, acc)
      else
        var parts := acc.parts + cells[j].parts;
        var u := Union(acc.rect, cells[j].rect);
        if Fits(v, u) then Scan(v, cells, ref, j + 1, merged[j := true], Merge(u, parts))
        else Scan(v, cells, ref, j + 1, merged, Merge(acc.rect, parts))
  }

  /** `MergeCells(cells, ref, merged)`: the group of reference cell `ref`. */
  function MergeCells(v: MergingViewer, cells: seq<Merge>, ref: nat, merged: seq<bool>)
    : Result<(Merge, seq<bool>)>
    requires ref < |cells| && |merged| == |cells|
  {
    Scan(v, cells, ref, ref + 1, merged, cells[ref])
  }

  // ---------------------------------------------------------------------
  // MergeCellsSinglePass

  /** The cells `r` of `cells` that are not absorbed: held unchanged or
      grown within the limits. */
  ghost predicate FromCell(v: MergingViewer, cells: seq<Merge>, r: Rect) {
    (exists k :: 0 <= k < |cells| && cells[k].rect == r) || Fits(v, r)
  }

  /** Every rectangle `r` of `cells[i..]` not yet absorbed lies in some group
      of `out`. */
  ghost predicate Covers(out: seq<Merge>, r: Rect) {
    exists m :: 0 <= m < |out| && ContainsRect(out[m].rect, r)
  }

  /** `MergeCellsSinglePass` from index `i` on: every cell not yet absorbed
      when it is reached yields its group, in index order. */
  function Pass(v: MergingViewer, cells: seq<Merge>, i: nat, merged: seq<bool>): (r: Result<seq<Merge>>)
    requires i <= |cells| && |merged| == |cells|
    ensures r.Ok? ==> |r.value| <= |cells| - i
    ensures r.Ok? ==> forall m :: 0 <= m < |r.value| ==> FromCell(v, cells, r.value[m].rect)
    ensures r.Ok? ==> forall k :: i <= k < |cells| && !merged[k] ==> Covers(r.value, cells[k].rect)
    ensures r.Ok? && (forall k :: i <= k < |cells| ==> Positive(cells[k].rect)) ==>
      forall m :: 0 <= m < |r.value| ==> Positive(r.value[m].rect)
    ensures (forall k :: i <= k < |cells| ==> Positive(cells[k].rect)) || v.kind == StripKind ==> r.Ok?
    decreases |cells| - i
  {
    if i == |cells| then Ok([])
    else if merged[i] then Pass(v, cells, i + 1, merged)
    else
      var step :- MergeCells(v, cells, i, merged);
      var rest :- Pass(v, cells, i + 1, step.1);
      PassCovers(v, cells, i, merged, step.0, step.1, rest);
      Ok([step.0] + rest)
  }

  /** The coverage step of `Pass`: the reference cell and the cells it
      absorbed lie in its group, the others in the later groups. */
  lemma PassCovers(v: MergingViewer, cells: seq<Merge>, i: nat, merged: seq<bool>,
                   group: Merge, merged': seq<bool>, rest: seq<Merge>)
    requires i < |cells| && |merged| == |cells| == |merged'|
    requires ContainsRect(group.rect, cells[i].rect)
    requires forall k :: 0 <= k < |merged| && !merged[k] && merged'[k] ==> ContainsRect(group.rect, cells[k].rect)
    requires forall k :: i + 1 <= k < |cells| && !merged'[k] ==> Covers(rest, cells[k].rect)
    ensures forall k :: i <= k < |cells| && !merged[k] ==> Covers([group] + rest, cells[k].rect)
  {
    var out := [group] + rest;
    forall k | i <= k < |cells| && !merged[k]
      ensures Covers(out, cells[k].rect)
    {
      if k == i || merged'[k] {
        assert out[0] == group;
      } else {
        var m :| 0 <= m < |rest| && ContainsRect(rest[m].rect, cells[k].rect);
        assert out[m + 1] == rest[m];
      }
    }
  }

  function NoneMerged(n: nat): (s: seq<bool>)
    ensures |s| == n && forall k :: 0 <= k < n ==> !s[k]
  {
    seq(n, _ => false)
  }

  /** When no cell overlaps a later one, a pass returns the groups unchanged
      and in order. */
  lemma {:induction false} PassWithoutOverlap(v: MergingViewer, cells: seq<Merge>, i: nat)
    requires i <= |cells|
    requires forall a, b {:trigger OverlapOf(v.kind, cells[a].rect, cells[b].rect)} :: 0 <= a < b < |cells| ==> OverlapOf(v.kind, cells[a].rect, cells[b].rect) == Ok(false)
    ensures Pass(v, cells, i, NoneMerged(|cells|)) == Ok(cells[i..])
    decreases |cells| - i
  {
    if i < |cells| {
      var none := NoneMerged(|cells|);
      ScanWithoutOverlap(v, cells, i, i + 1, cells[i]);
      PassWithoutOverlap(v, cells, i + 1);
      PassStep(v, cells, i, none, cells[i], none, cells[i + 1..]);
      SuffixCons(cells, i);
    } else {
      assert cells[i..] == [];
    }
  }

  /** One round of a pass: the group of an unabsorbed cell, then the rest. */
  lemma PassStep(v: MergingViewer, cells: seq<Merge>, i: nat, merged: seq<bool>,
                 group: Merge, merged': seq<bool>, rest: seq<Merge>)
    requires i < |cells| && |merged| == |cells| && !merged[i]
    requires MergeCells(v, cells, i, merged) == Ok((group, merged'))
    requires |merged'| == |cells| && Pass(v, cells, i + 1, merged') == Ok(rest)
    ensures Pass(v, cells, i, merged) == Ok([group] + rest)
  {
  }

  lemma {:induction false} ScanWithoutOverlap(v: MergingViewer, cells: seq<Merge>, ref: nat, j: nat, acc: Merge)
    requires ref < |cells| && ref < j <= |cells|
    requires forall b {:trigger OverlapOf(v.kind, cells[ref].rect, cells[b].rect)} :: ref < b < |cells| ==> OverlapOf(v.kind, cells[ref].rect, cells[b].rect) == Ok(false)
    ensures Scan(v, cells, ref, j, NoneMerged(|cells|), acc) == Ok((acc, NoneMerged(|cells|)))
    decreases |cells| - j
  {
    if j < |cells| {
      ScanWithoutOverlap(v, cells, ref, j + 1, acc);
    }
  }

  // ---------------------------------------------------------------------
  // MergeCellsIterative

  /** Every cell starts as its own group. */
  function Singletons(rects: seq<Rect>): (cells: seq<Merge>)
    ensures |cells| == |rects|
    ensures forall k :: 0 <= k < |rects| ==> cells[k] == Merge(rects[k], [rects[k]])
  {
    seq(|rects|, k requires 0 <= k < |rects| => Merge(rects[k], [rects[k]]))
  }

  /** The passes until the number of groups stops changing; the last pass's
      output is returned. A pass never adds a group, so the count strictly
      drops while the loop goes on. */
  function Iterate(v: MergingViewer, cells: seq<Merge>): (r: Result<seq<Merge>>)
    ensures r.Ok? ==> |r.value| <= |cells|
    ensures (forall k :: 0 <= k < |cells| ==> Positive(cells[k].rect)) || v.kind == StripKind ==> r.Ok?
    decreases |cells|
  {
    var next :- Pass(v, cells, 0, NoneMerged(|cells|));
    if |next| != |cells| then Iterate(v, next) else Ok(next)
  }

  /** Every group the iteration returns is one of the original rectangles or
      fits within the limits: an oversized cell passes through alone but no
      merge ever exceeds the limits. */
  lemma {:induction false} IterateFromCells(v: MergingViewer, cells: seq<Merge>, r: Rect)
    requires Iterate(v, cells).Ok?
    requires exists m :: 0 <= m < |Iterate(v, cells).value| && Iterate(v, cells).value[m].rect == r
    ensures FromCell(v, cells, r)
    decreases |cells|
  {
    var next := Pass(v, cells, 0, NoneMerged(|cells|)).value;
    var m :| 0 <= m < |Iterate(v, cells).value| && Iterate(v, cells).value[m].rect == r;
    if |next| != |cells| {
      IterateFromCells(v, next, r);
      if !Fits(v, r) {
        var k :| 0 <= k < |next| && next[k].rect == r;
        assert FromCell(v, cells, next[k].rect);
      }
    } else {
      assert FromCell(v, cells, next[m].rect);
    }
  }

  /** Every original rectangle lies within some group the iteration
      returns: merging never loses a cell from view. */
  lemma {:induction false} IterateCovers(v: MergingViewer, cells: seq<Merge>, k: nat)
    requires Iterate(v, cells).Ok? && k < |cells|
    ensures Covers(Iterate(v, cells).value, cells[k].rect)
    decreases |cells|
  {
    var next := Pass(v, cells, 0, NoneMerged(|cells|)).value;
    assert Covers(next, cells[k].rect);
    if |next| != |cells| {
      var m :| 0 <= m < |next| && ContainsRect(next[m].rect, cells[k].rect);
      IterateCovers(v, next, m);
      var out := Iterate(v, cells).value;
      var n :| 0 <= n < |out| && ContainsRect(out[n].rect, next[m].rect);
      assert ContainsRect(out[n].rect, cells[k].rect);
    }
  }

  /** `MergeCellsIterative`: singleton groups merged to a fixpoint. The
      result has at most as many groups as there are cells, every group is
      an original cell or fits the limits, and every cell lies in some
      group. Only the cells viewer can fail, and only on a zero-area
      rectangle. */
  function MergeCellsIterative(v: MergingViewer, rects: seq<Rect>): (r: Result<seq<Merge>>)
    ensures r.Ok? ==> |r.value| <= |rects|
    ensures (forall k :: 0 <= k < |rects| ==> Positive(rects[k])) || v.kind == StripKind ==> r.Ok?
  {
    Iterate(v, Singletons(rects))
  }

  /** Every group is one of the cells or fits the limits; every cell lies in
      some group. */
  lemma MergeCellsIterativeMeaning(v: MergingViewer, rects: seq<Rect>)
    requires MergeCellsIterative(v, rects).Ok?
    ensures var out := MergeCellsIterative(v, rects).value;
      (forall m :: 0 <= m < |out| ==> out[m].rect in rects || Fits(v, out[m].rect)) &&
      (forall k :: 0 <= k < |rects| ==> exists m :: 0 <= m < |out| && ContainsRect(out[m].rect, rects[k]))
  {
    var cells := Singletons(rects);
    var out := MergeCellsIterative(v, rects).value;
    forall m | 0 <= m < |out|
      ensures out[m].rect in rects || Fits(v, out[m].rect)
    {
      IterateFromCells(v, cells, out[m].rect);
      if !Fits(v, out[m].rect) {
        var k :| 0 <= k < |cells| && cells[k].rect == out[m].rect;
        assert rects[k] == out[m].rect;
      }
    }
    forall k | 0 <= k < |rects|
      ensures exists m :: 0 <= m < |out| && ContainsRect(out[m].rect, rects[k])
    {
      IterateCovers(v, cells, k);
      assert cells[k].rect == rects[k];
    }
  }

  // ---------------------------------------------------------------------
  // Where the parts of a group come from

  /** Every part listed by a group of `cells` is one of `rects`. */
  ghost predicate PartsIn(cells: seq<Merge>, rects: seq<Rect>) {
    forall k, p :: 0 <= k < |cells| && p in cells[k].parts ==> p in rects
  }

  lemma {:induction false} ScanParts(v: MergingViewer, cells: seq<Merge>, ref: nat, j: nat, merged: seq<bool>,
                                     acc: Merge, rects: seq<Rect>)
    requires ref < |cells| && ref < j <= |cells| && |merged| == |cells|
    requires Scan(v, cells, ref, j, merged, acc).Ok?
    requires PartsIn(cells, rects) && forall p :: p in acc.parts ==> p in rects
    ensures forall p :: p in Scan(v, cells, ref, j, merged, acc).value.0.parts ==> p in rects
    decreases |cells| - j
  {
    if j == |cells| || merged[j] {
      if j < |cells| {
        ScanParts(v, cells, ref, j + 1, merged, acc, rects);
      }
    } else {
      var overlaps := OverlapOf(v.kind, cells[ref].rect, cells[j].rect).value;
      if !overlaps {
        ScanParts(v, cells, ref, j + 1, merged, acc, rects);
      } else {
        var parts := acc.parts + cells[j].parts;
        var u := Union(acc.rect, cells[j].rect);
        if Fits(v, u) {
          ScanParts(v, cells, ref, j + 1, merged[j := true], Merge(u, parts), rects);
        } else {
          ScanParts(v, cells, ref, j + 1, merged, Merge(acc.rect, parts), rects);
        }
      }
    }
  }

  lemma {:induction false} PassParts(v: MergingViewer, cells: seq<Merge>, i: nat, merged: seq<bool>, rects: seq<Rect>)
    requires i <= |cells| && |merged| == |cells|
    requires Pass(v, cells, i, merged).Ok? && PartsIn(cells, rects)
    ensures PartsIn(Pass(v, cells, i, merged).value, rects)
    decreases |cells| - i
  {
    if i == |cells| {
    } else if merged[i] {
      PassParts(v, cells, i + 1, merged, rects);
    } else {
      var step := MergeCells(v, cells, i, merged).value;
      ScanParts(v, cells, i, i + 1, merged, cells[i], rects);
      PassParts(v, cells, i + 1, step.1, rects);
      var rest := Pass(v, cells, i + 1, step.1).value;
      PassStep(v, cells, i, merged, step.0, step.1, rest);
      PartsInCons(step.0, rest, rects);
    }
  }

  lemma PartsInCons(group: Merge, rest: seq<Merge>, rects: seq<Rect>)
    requires (forall p :: p in group.parts ==> p in rects) && PartsIn(rest, rects)
    ensures PartsIn([group] + rest, rects)
  {
    var out := [group] + rest;
    forall k, p | 0 <= k < |out| && p in out[k].parts
      ensures p in rects
    {
      if k > 0 {
        assert out[k] == rest[k - 1];
      }
    }
  }

  lemma {:induction false} IterateParts(v: MergingViewer, cells: seq<Merge>, rects: seq<Rect>)
    requires Iterate(v, cells).Ok? && PartsIn(cells, rects)
    ensures PartsIn(Iterate(v, cells).value, rects)
    decreases |cells|
  {
    PassParts(v, cells, 0, NoneMerged(|cells|), rects);
    var next := Pass(v, cells, 0, NoneMerged(|cells|)).value;
    if |next| != |cells| {
      IterateParts(v, next, rects);
    }
  }

  /** Every part of every group the merging returns is one of the input
      rectangles. */
  lemma MergeCellsIterativeParts(v: MergingViewer, rects: seq<Rect>)
    requires MergeCellsIterative(v, rects).Ok?
    ensures PartsIn(MergeCellsIterative(v, rects).value, rects)
  {
    var cells := Singletons(rects);
    forall k, p | 0 <= k < |cells| && p in cells[k].parts
      ensures p in rects
    {
      assert cells[k].parts == [rects[k]];
    }
    IterateParts(v, cells, rects);
  }

  /** Every group lists at least one part. */
  ghost predicate HasParts(cells: seq<Merge>) {
    forall k :: 0 <= k < |cells| ==> |cells[k].parts| > 0
  }

  lemma {:induction false} PassHasParts(v: MergingViewer, cells: seq<Merge>, i: nat, merged: seq<bool>)
    requires i <= |cells| && |merged| == |cells|
    requires Pass(v, cells, i, merged).Ok? && HasParts(cells)
    ensures HasParts(Pass(v, cells, i, merged).value)
    decreases |cells| - i
  {
    if i == |cells| {
    } else if merged[i] {
      PassHasParts(v, cells, i + 1, merged);
    } else {
      var step := MergeCells(v, cells, i, merged).value;
      assert |step.0.parts| >= |cells[i].parts| > 0;
      PassHasParts(v, cells, i + 1, step.1);
      var rest := Pass(v, cells, i + 1, step.1).value;
      PassStep(v, cells, i, merged, step.0, step.1, rest);
      HasPartsCons(step.0, rest);
    }
  }

  lemma HasPartsCons(group: Merge, rest: seq<Merge>)
    requires |group.parts| > 0 && HasParts(rest)
    ensures HasParts([group] + rest)
  {
    var out := [group] + rest;
    forall k | 0 <= k < |out|
      ensures |out[k].parts| > 0
    {
      if k > 0 {
        assert out[k] == rest[k - 1];
      }
    }
  }

  lemma {:induction false} IterateHasParts(v: MergingViewer, cells: seq<Merge>)
    requires Iterate(v, cells).Ok? && HasParts(cells)
    ensures HasParts(Iterate(v, cells).value)
    decreases |cells|
  {
    PassHasParts(v, cells, 0, NoneMerged(|cells|));
    var next := Pass(v, cells, 0, NoneMerged(|cells|)).value;
    if |next| != |cells| {
      IterateHasParts(v, next);
    }
  }

  /** Every group the merging returns lists at least one part. */
  lemma MergeCellsIterativeHasParts(v: MergingViewer, rects: seq<Rect>)
    requires MergeCellsIterative(v, rects).Ok?
    ensures HasParts(MergeCellsIterative(v, rects).value)
  {
    IterateHasParts(v, Singletons(rects));
  }

  /** `MergingPageViewer.ComputeView`: the rectangles of the merged groups of
      the cells' bounding boxes. */
  function ComputeView(v: MergingViewer, boxes: seq<Rect>): (r: Result<seq<Rect>>)
    ensures r.Ok? ==> |r.value| <= |boxes|
    ensures boxes == [] ==> r == Ok([])
  {
    var merged :- MergeCellsIterative(v, boxes);
    Ok(Rects(merged))
  }

  function Rects(groups: seq<Merge>): (r: seq<Rect>)
    ensures |r| == |groups| && forall m :: 0 <= m < |groups| ==> r[m] == groups[m].rect
  {
    seq(|groups|, m requires 0 <= m < |groups| => groups[m].rect)
  }

  lemma ViewOfGroups(v: MergingViewer, boxes: seq<Rect>, groups: seq<Merge>)
    requires MergeCellsIterative(v, boxes) == Ok(groups)
    ensures ComputeView(v, boxes) == Ok(Rects(groups))
  {
  }

  lemma RectsPair(g1: Merge, g2: Merge)
    ensures Rects([g1, g2]) == [g1.rect, g2.rect]
  {
    assert Rects([g1, g2])[0] == g1.rect && Rects([g1, g2])[1] == g2.rect;
  }

  // ---------------------------------------------------------------------
  // The viewer tests of the repository

  const Cell1: Rect := Rect(100, 100, 100, 100)
  const Cell2: Rect := Rect(150, 100, 100, 100)
  const Cell2Touching: Rect := Rect(200, 100, 50, 100)

  /** Two singleton cells, as `MergeCellsIterative` starts. */
  lemma PairSingletons(a: Rect, b: Rect)
    ensures Singletons([a, b]) == [Merge(a, [a]), Merge(b, [b])]
  {
  }

  /** A single group is a fixpoint. */
  lemma SingleGroupStable(v: MergingViewer, g: Merge)
    ensures Iterate(v, [g]) == Ok([g])
  {
    var cells := [g];
    assert NoneMerged(|cells|) == [false];
    assert Scan(v, cells, 0, 1, [false], g) == Ok((g, [false]));
    assert Pass(v, cells, 1, [false]) == Ok([]);
    assert Pass(v, cells, 0, [false]) == Ok([g] + []);
    assert [g] + [] == cells;
  }

  /** A single cell is its own view. */
  lemma SingleCellView()
    ensures ComputeView(NewViewer(CellsKind, 200, 200), [Cell1]) == Ok([Cell1])
  {
    var v := NewViewer(CellsKind, 200, 200);
    var cells := Singletons([Cell1]);
    assert cells == [Merge(Cell1, [Cell1])];
    SingleGroupStable(v, cells[0]);
    assert Rects(cells) == [Cell1];
  }

  /** Two overlapping cells whose union fits become one group. */
  lemma PairMerged(v: MergingViewer, a: Rect, b: Rect)
    requires OverlapOf(v.kind, a, b) == Ok(true) && Fits(v, Union(a, b))
    ensures MergeCellsIterative(v, [a, b]) == Ok([Merge(Union(a, b), [a, b])])
    ensures ComputeView(v, [a, b]) == Ok([Union(a, b)])
  {
    var cells := Singletons([a, b]);
    PairSingletons(a, b);
    assert NoneMerged(2) == [false, false];
    var g := Merge(Union(a, b), [a, b]);
    assert [false, false][1 := true] == [false, true];
    assert cells[0].parts + cells[1].parts == [a, b];
    assert Scan(v, cells, 0, 2, [false, true], g) == Ok((g, [false, true]));
    assert Scan(v, cells, 0, 1, [false, false], cells[0]) == Ok((g, [false, true]));
    assert Pass(v, cells, 2, [false, true]) == Ok([]);
    assert Pass(v, cells, 1, [false, true]) == Ok([]);
    assert Pass(v, cells, 0, [false, false]) == Ok([g] + []);
    assert [g] + [] == [g];
    SingleGroupStable(v, g);
    ViewOfGroups(v, [a, b], [g]);
    assert Rects([g]) == [g.rect];
  }

  lemma PairMergedInto(v: MergingViewer, a: Rect, b: Rect, u: Rect)
    requires OverlapOf(v.kind, a, b) == Ok(true) && Union(a, b) == u && Fits(v, u)
    ensures ComputeView(v, [a, b]) == Ok([u])
  {
    PairMerged(v, a, b);
  }

  /** Two overlapping cells whose union is too large both stay; the first
      group still lists the second cell among its parts. */
  lemma PairOversized(v: MergingViewer, a: Rect, b: Rect)
    requires OverlapOf(v.kind, a, b) == Ok(true) && !Fits(v, Union(a, b))
    ensures MergeCellsIterative(v, [a, b]) == Ok([Merge(a, [a, b]), Merge(b, [b])])
    ensures ComputeView(v, [a, b]) == Ok([a, b])
  {
    var cells := Singletons([a, b]);
    PairSingletons(a, b);
    assert NoneMerged(2) == [false, false];
    var g := Merge(a, [a, b]);
    assert cells[0].parts + cells[1].parts == [a, b];
    assert Scan(v, cells, 0, 2, [false, false], g) == Ok((g, [false, false]));
    assert Scan(v, cells, 0, 1, [false, false], cells[0]) == Ok((g, [false, false]));
    assert Scan(v, cells, 1, 2, [false, false], cells[1]) == Ok((cells[1], [false, false]));
    assert Pass(v, cells, 2, [false, false]) == Ok([]);
    assert Pass(v, cells, 1, [false, false]) == Ok([cells[1]] + []);
    assert Pass(v, cells, 0, [false, false]) == Ok([g] + ([cells[1]] + []));
    assert [g] + ([cells[1]] + []) == [g, cells[1]];
    ViewOfGroups(v, [a, b], [g, cells[1]]);
    RectsPair(g, cells[1]);
  }

  /** Two cells that do not overlap stay apart. */
  lemma PairApart(v: MergingViewer, a: Rect, b: Rect)
    requires OverlapOf(v.kind, a, b) == Ok(false)
    ensures MergeCellsIterative(v, [a, b]) == Ok([Merge(a, [a]), Merge(b, [b])])
    ensures ComputeView(v, [a, b]) == Ok([a, b])
  {
    var cells := Singletons([a, b]);
    PairSingletons(a, b);
    assert NoneMerged(2) == [false, false];
    assert Scan(v, cells, 0, 2, [false, false], cells[0]) == Ok((cells[0], [false, false]));
    assert Scan(v, cells, 0, 1, [false, false], cells[0]) == Ok((cells[0], [false, false]));
    assert Scan(v, cells, 1, 2, [false, false], cells[1]) == Ok((cells[1], [false, false]));
    assert Pass(v, cells, 2, [false, false]) == Ok([]);
    assert Pass(v, cells, 1, [false, false]) == Ok([cells[1]] + []);
    assert Pass(v, cells, 0, [false, false]) == Ok([cells[0]] + ([cells[1]] + []));
    assert [cells[0]] + ([cells[1]] + []) == cells;
    ViewOfGroups(v, [a, b], cells);
    RectsPair(cells[0], cells[1]);
  }

  /** The overlapping pair: half of each cell is shared. */
  lemma OverlappingPair()
    ensures CellsOverlap(Cell1, Cell2) == Ok(true)
    ensures Union(Cell1, Cell2) == Rect(100, 100, 150, 100)
  {
    assert Area(Cell1) == 10000 && Area(Cell2) == 10000;
    assert Overlap(Cell1, Cell2) == 5000 by {
      assert Intersect(Cell1, Cell2) == Rect(150, 100, 50, 100);
    }
    UnionIs(Cell1, Cell2, Rect(100, 100, 150, 100));
  }

  /** The touching pair shares no area. */
  lemma TouchingPair()
    ensures CellsOverlap(Cell1, Cell2Touching) == Ok(false)
  {
    assert Area(Cell1) == 10000 && Area(Cell2Touching) == 5000;
    assert Overlap(Cell1, Cell2Touching) == 0 by {
      assert Intersect(Cell1, Cell2Touching) == Rect(200, 100, 0, 100);
    }
  }

  /** With limits 250 the overlapping pair merges into its union. */
  lemma MergeCellsTest()
    ensures ComputeView(NewViewer(CellsKind, 250, 250), [Cell1, Cell2]) == Ok([Rect(100, 100, 150, 100)])
  {
    var v := NewViewer(CellsKind, 250, 250);
    assert v.kind == CellsKind && v.maxWidth == 250 && v.transformedSize == Size(250, 250);
    assert Fits(v, Rect(100, 100, 150, 100));
    OverlappingPair();
    assert OverlapOf(v.kind, Cell1, Cell2) == Ok(true);
    PairMergedInto(v, Cell1, Cell2, Rect(100, 100, 150, 100));
  }

  /** With limits 100 the union is too wide and both cells stay. */
  lemma MergeCellsWithLimitTest()
    ensures ComputeView(NewViewer(CellsKind, 100, 100), [Cell1, Cell2]) == Ok([Cell1, Cell2])
  {
    var v := NewViewer(CellsKind, 100, 100);
    assert v.kind == CellsKind && v.maxWidth == 100 && v.transformedSize.width == 100;
    assert !Fits(v, Rect(100, 100, 150, 100));
    OverlappingPair();
    assert OverlapOf(v.kind, Cell1, Cell2) == Ok(true);
    PairTooWide(v, Cell1, Cell2, Rect(100, 100, 150, 100));
  }

  /** `PairOversized` with the union named. */
  lemma PairTooWide(v: MergingViewer, a: Rect, b: Rect, u: Rect)
    requires OverlapOf(v.kind, a, b) == Ok(true) && Union(a, b) == u && !Fits(v, u)
    ensures ComputeView(v, [a, b]) == Ok([a, b])
  {
    PairOversized(v, a, b);
  }

  /** Cells that only touch are not merged. */
  lemma NoOverlapNoMergeTest()
    ensures ComputeView(NewViewer(CellsKind, 250, 250), [Cell1, Cell2Touching]) == Ok([Cell1, Cell2Touching])
  {
    var v := NewViewer(CellsKind, 250, 250);
    assert v.kind == CellsKind;
    TouchingPair();
    assert OverlapOf(v.kind, Cell1, Cell2Touching) == Ok(false);
    PairApart(v, Cell1, Cell2Touching);
  }

  /** No cells, no views. */
  lemma EmptyView()
    ensures ComputeView(NewViewer(CellsKind, 200, 200), []) == Ok([])
  {
  }
}
