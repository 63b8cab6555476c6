/** The post-processing of AFThresholdBlobSegmentation: the threshold
    setting, the blob size filter, the elimination of polygons contained in
    another, and the decision whether a page is one full-page picture. The
    blob counter, the bitmap filters and the intensity sum are foreign code;
    their results enter as parameters. */
module Segmentation {
  import opened Util
  import opened Drawing
  import opened Polygons

  // ---------------------------------------------------------------------
  // Threshold setting

  datatype ThresholdSegmentation = ThresholdSegmentation(thresholdValue: int)

  /** The parameterless constructor's grey level. */
  const DefaultSegmentation: ThresholdSegmentation := ThresholdSegmentation(128)

  /** The `int` constructor clamps its argument into a grey level. */
  function WithThreshold(threshold: int): (s: ThresholdSegmentation)
    ensures 0 <= s.thresholdValue <= 255
    ensures 0 <= threshold <= 255 ==> s.thresholdValue == threshold
    ensures threshold < 0 ==> s.thresholdValue == 0
    ensures threshold > 255 ==> s.thresholdValue == 255
  {
    ThresholdSegmentation(Max(0, Min(255, threshold)))
  }

  /** Clamping is idempotent and monotone: feeding a segmenter's level to
      the constructor again changes nothing, and a higher request never
      yields a lower level. */
  lemma WithThresholdStable(threshold: int, other: int)
    ensures WithThreshold(WithThreshold(threshold).thresholdValue) == WithThreshold(threshold)
    ensures threshold <= other ==> WithThreshold(threshold).thresholdValue <= WithThreshold(other).thresholdValue
  {
  }

  // ---------------------------------------------------------------------
  // Blob size filter

  /** `FilterBlobs`' condition on a blob's rectangle for a page of the given
      size: more than 5% of the page in both directions and less than 95%
      in at least one. */
  predicate KeepBox(pageWidth: int, pageHeight: int, box: Rect) {
    box.width as real > pageWidth as real * 0.05 &&
    box.height as real > pageHeight as real * 0.05 &&
    (box.width as real < pageWidth as real * 0.95 || box.height as real < pageHeight as real * 0.95)
  }

  /** The size condition in integers. */
  lemma KeepBoxIntegers(pageWidth: int, pageHeight: int, box: Rect)
    ensures KeepBox(pageWidth, pageHeight, box) <==>
      20 * box.width > pageWidth && 20 * box.height > pageHeight &&
      (20 * box.width < 19 * pageWidth || 20 * box.height < 19 * pageHeight)
  {
  }

  /** A blob spanning the whole page, such as the page border, and a speck
      of at most a twentieth of the page are both dropped. */
  lemma KeepBoxRejects(pageWidth: int, pageHeight: int, box: Rect)
    requires pageWidth > 0 && pageHeight > 0
    ensures !KeepBox(pageWidth, pageHeight, Rect(box.x, box.y, pageWidth, pageHeight))
    ensures 20 * box.width <= pageWidth ==> !KeepBox(pageWidth, pageHeight, box)
  {
    KeepBoxIntegers(pageWidth, pageHeight, Rect(box.x, box.y, pageWidth, pageHeight));
    KeepBoxIntegers(pageWidth, pageHeight, box);
  }

  /** `FilterBlobs`: the blobs whose rectangle passes `KeepBox`, in their
      order. */
  function FilterBlobs<T(==)>(pageWidth: int, pageHeight: int, blobs: seq<T>, box: T -> Rect): (r: seq<T>)
    ensures Subsequence(r, blobs)
    ensures forall x :: x in r ==> x in blobs && KeepBox(pageWidth, pageHeight, box(x))
    ensures forall k :: 0 <= k < |blobs| && KeepBox(pageWidth, pageHeight, box(blobs[k])) ==> blobs[k] in r
  {
    if |blobs| == 0 then []
    else
      var rest := FilterBlobs(pageWidth, pageHeight, blobs[1..], box);
      assert forall k :: 1 <= k < |blobs| ==> blobs[k] == blobs[1..][k - 1];
      if KeepBox(pageWidth, pageHeight, box(blobs[0])) then [blobs[0]] + rest else rest
  }

  /** Filtering twice keeps what filtering once keeps. */
  lemma {:induction false} FilterBlobsIdempotent<T>(pageWidth: int, pageHeight: int, blobs: seq<T>, box: T -> Rect)
    ensures FilterBlobs(pageWidth, pageHeight, FilterBlobs(pageWidth, pageHeight, blobs, box), box)
         == FilterBlobs(pageWidth, pageHeight, blobs, box)
    decreases |blobs|
  {
    if |blobs| > 0 {
      FilterBlobsIdempotent(pageWidth, pageHeight, blobs[1..], box);
      var rest := FilterBlobs(pageWidth, pageHeight, blobs[1..], box);
      if KeepBox(pageWidth, pageHeight, box(blobs[0])) {
        assert ([blobs[0]] + rest)[1..] == rest;
      }
    }
  }

  // ---------------------------------------------------------------------
  // Contained-polygon elimination

  /** `Polygon.Contains(IPolygon)` between two concrete polygons. */
  predicate Includes(outer: Polygon, inner: Polygon) {
    ContainsAll(outer, inner.box, inner.points)
  }

  /** The `contained` flags after the inner loop has scanned row `i`: each
      other polygon not yet marked is marked iff polygon `i` contains it. */
  function RowMarks(ps: seq<Polygon>, c: seq<bool>, i: nat): (r: seq<bool>)
    requires |c| == |ps| && i < |ps|
    ensures |r| == |ps|
  {
    seq(|ps|, k requires 0 <= k < |ps| => if k != i && !c[k] then Includes(ps[i], ps[k]) else c[k])
  }

  /** The `contained` flags after the outer loop's first `t` rows; a row
      already marked is skipped. */
  function Marks(ps: seq<Polygon>, t: nat): (m: seq<bool>)
    requires t <= |ps|
    ensures |m| == |ps|
  {
    if t == 0 then seq(|ps|, _ => false)
    else
      var m := Marks(ps, t - 1);
      if !m[t - 1] then RowMarks(ps, m, t - 1) else m
  }

  /** The final `Zip`/`where`: the polygons whose flag is clear, in order. */
  function Survivors(ps: seq<Polygon>, m: seq<bool>): (r: seq<Polygon>)
    requires |m| == |ps|
    ensures |r| <= |ps|
  {
    if |ps| == 0 then []
    else (if m[0] then [] else [ps[0]]) + Survivors(ps[1..], m[1..])
  }

  /** `FilterContainedPolygons`, with the source's two nested loops over a
      list of flags. */
  method FilterContainedPolygons(ps: seq<Polygon>) returns (r: seq<Polygon>)
    ensures r == Survivors(ps, Marks(ps, |ps|))
    ensures Subsequence(r, ps)
    ensures forall k :: 0 <= k < |ps| && !Marks(ps, |ps|)[k] ==> ps[k] in r
    ensures (forall i, j :: 0 <= i < |ps| && 0 <= j < |ps| && i != j ==> !Includes(ps[i], ps[j])) ==> r == ps
  {
    var contained := seq(|ps|, _ => false);
    var i := 0;
    while i < |ps|
      invariant 0 <= i <= |ps|
      invariant contained == Marks(ps, i)
    {
      if !contained[i] {
        ghost var before := contained;
        var j := 0;
        while j < |ps|
          invariant 0 <= j <= |ps| && |contained| == |ps|
          invariant forall k :: 0 <= k < j ==> contained[k] == RowMarks(ps, before, i)[k]
          invariant forall k :: j <= k < |ps| ==> contained[k] == before[k]
        {
          if i != j && !contained[j] {
            contained := contained[j := Includes(ps[i], ps[j])];
          }
          j := j + 1;
        }
        assert contained == RowMarks(ps, before, i);
      }
      i := i + 1;
    }
    r := Survivors(ps, contained);
    SurvivorsSubsequence(ps, contained);
    SurvivorsKeep(ps, contained);
    if forall i, j :: 0 <= i < |ps| && 0 <= j < |ps| && i != j ==> !Includes(ps[i], ps[j]) {
      NothingMarked(ps, |ps|);
      SurvivorsUnmarked(ps, contained);
    }
  }

  lemma {:induction false} SurvivorsSubsequence(ps: seq<Polygon>, m: seq<bool>)
    requires |m| == |ps|
    ensures Subsequence(Survivors(ps, m), ps)
    decreases |ps|
  {
    if |ps| > 0 {
      SurvivorsSubsequence(ps[1..], m[1..]);
      var rest := Survivors(ps[1..], m[1..]);
      if !m[0] {
        var r := [ps[0]] + rest;
        assert Survivors(ps, m) == r;
        assert r[0] == ps[0] && r[1..] == rest;
      } else {
        assert Survivors(ps, m) == rest;
      }
    }
  }

  /** Every polygon whose flag is clear is in the output. */
  lemma {:induction false} SurvivorsKeep(ps: seq<Polygon>, m: seq<bool>)
    requires |m| == |ps|
    ensures forall k :: 0 <= k < |ps| && !m[k] ==> ps[k] in Survivors(ps, m)
    decreases |ps|
  {
    if |ps| > 0 {
      SurvivorsKeep(ps[1..], m[1..]);
      var head := if m[0] then [] else [ps[0]];
      forall k | 1 <= k < |ps| && !m[k]
        ensures ps[k] in Survivors(ps, m)
      {
        assert ps[k] == ps[1..][k - 1] && m[k] == m[1..][k - 1];
        assert ps[k] in Survivors(ps[1..], m[1..]);
      }
    }
  }

  /** With no flag set, the output is the input. */
  lemma {:induction false} SurvivorsUnmarked(ps: seq<Polygon>, m: seq<bool>)
    requires |m| == |ps|
    requires forall k :: 0 <= k < |m| ==> !m[k]
    ensures Survivors(ps, m) == ps
    decreases |ps|
  {
    if |ps| > 0 {
      SurvivorsUnmarked(ps[1..], m[1..]);
      assert ps == [ps[0]] + ps[1..];
    }
  }

  /** When no polygon contains another, nothing is ever marked. */
  lemma {:induction false} NothingMarked(ps: seq<Polygon>, t: nat)
    requires t <= |ps|
    requires forall i, j :: 0 <= i < |ps| && 0 <= j < |ps| && i != j ==> !Includes(ps[i], ps[j])
    ensures forall k :: 0 <= k < |ps| ==> !Marks(ps, t)[k]
  {
    if t > 0 {
      NothingMarked(ps, t - 1);
    }
  }

  /** A mark, once set, stays set. */
  lemma {:induction false} MarksMonotone(ps: seq<Polygon>, t: nat, u: nat, k: nat)
    requires t <= u <= |ps| && k < |ps|
    requires Marks(ps, t)[k]
    ensures Marks(ps, u)[k]
    decreases u
  {
    if t < u {
      MarksMonotone(ps, t, u - 1, k);
    }
  }

  /** Row `i` marks polygon `k`: it is another polygon, row `i` was not
      marked when it was scanned, and it contains `k`. */
  predicate MarkedBy(ps: seq<Polygon>, i: nat, k: nat)
    requires i < |ps| && k < |ps|
  {
    i != k && !Marks(ps, i)[i] && Includes(ps[i], ps[k])
  }

  /** Every mark has a row that set it. */
  lemma {:induction false} MarkHasCause(ps: seq<Polygon>, t: nat, k: nat)
    requires t <= |ps| && k < |ps|
    requires Marks(ps, t)[k]
    ensures exists i: nat :: i < t && MarkedBy(ps, i, k)
  {
    if Marks(ps, t - 1)[k] {
      MarkHasCause(ps, t - 1, k);
    } else {
      assert MarkedBy(ps, t - 1, k);
    }
  }

  /** A polygon is marked after `t` rows exactly when an earlier row `i`,
      other than itself and not marked when it was scanned, contains it. */
  lemma MarkedMeaning(ps: seq<Polygon>, t: nat, k: nat)
    requires t <= |ps| && k < |ps|
    ensures Marks(ps, t)[k] <==> exists i: nat :: i < t && MarkedBy(ps, i, k)
  {
    if Marks(ps, t)[k] {
      MarkHasCause(ps, t, k);
    }
    if exists i: nat :: i < t && MarkedBy(ps, i, k) {
      var i: nat :| i < t && MarkedBy(ps, i, k);
      assert Marks(ps, i + 1)[k];
      MarksMonotone(ps, i + 1, t, k);
    }
  }

  /** Of two polygons that contain each other, at most one survives. Which
      one depends on the marks set before: the earlier one marks the later
      unless it was itself marked already. */
  lemma MutualContainment(ps: seq<Polygon>, i: nat, j: nat)
    requires i < j < |ps|
    requires Includes(ps[i], ps[j]) && Includes(ps[j], ps[i])
    ensures Marks(ps, |ps|)[i] || Marks(ps, |ps|)[j]
  {
    if !Marks(ps, |ps|)[i] {
      if Marks(ps, i)[i] {
        MarksMonotone(ps, i, |ps|, i);
      }
      assert MarkedBy(ps, i, j);
      MarkedMeaning(ps, |ps|, j);
    }
  }

  /** For a pair that contain each other, only the first is kept. */
  lemma MutualPair(a: Polygon, b: Polygon)
    requires Includes(a, b) && Includes(b, a)
    ensures Survivors([a, b], Marks([a, b], 2)) == [a]
  {
    var ps := [a, b];
    assert Marks(ps, 1) == RowMarks(ps, Marks(ps, 0), 0);
    assert Marks(ps, 1)[0] == false && Marks(ps, 1)[1] == true;
    assert Marks(ps, 2) == Marks(ps, 1);
    assert Survivors(ps[1..], Marks(ps, 2)[1..]) == [] by {
      assert ps[1..][1..] == [];
    }
  }

  // ---------------------------------------------------------------------
  // Full-page decision

  /** `cellsCover`: the sum of the polygons' signed areas. */
  function CellsCover(ps: seq<Polygon>): int {
    if |ps| == 0 then 0 else Area(ps[0]) + CellsCover(ps[1..])
  }

  /** The cover is additive over concatenation. */
  lemma {:induction false} CellsCoverAppend(a: seq<Polygon>, b: seq<Polygon>)
    ensures CellsCover(a + b) == CellsCover(a) + CellsCover(b)
    decreases |a|
  {
    if |a| > 0 {
      assert (a + b)[0] == a[0];
      assert (a + b)[1..] == a[1..] + b;
      assert CellsCover(a + b) == Area(a[0]) + CellsCover(a[1..] + b);
      CellsCoverAppend(a[1..], b);
    } else {
      assert a + b == b;
    }
  }

  /** The areas are signed, so a polygon listed in both orientations adds
      nothing to the cover. */
  lemma CellsCoverSigned(p: Polygon)
    ensures CellsCover([p, p.(points := Reverse(p.points))]) == 0
  {
    AreaReverse(p);
    var q := p.(points := Reverse(p.points));
    assert CellsCover([q]) == Area(q) by {
      assert [q][1..] == [];
    }
    assert [p, q][1..] == [q];
  }

  /** `isWhite(value, area, threshold)` as written: `area * 255` is an
      `int` product and wraps around. */
  predicate IsWhiteAsWritten(value: int, area: int, threshold: real) {
    value as real > Wrap32(area * 255) as real * threshold
  }

  /** `isBlack(value, area, threshold)` as written. */
  predicate IsBlackAsWritten(value: int, area: int, threshold: real) {
    value as real <= Wrap32(area * 255) as real * (1.0 - threshold)
  }

  /** `IsFullPage` as written: `intensity` is the sum of the grey levels of
      the page's pixels, and the page area `width * height` is an `int`
      product too. */
  predicate IsFullPageAsWritten(width: int, height: int, intensity: int, ps: seq<Polygon>) {
    var area := Wrap32(width * height);
    IsWhiteAsWritten(intensity, area, 0.95) ||
    IsBlackAsWritten(intensity, area, 0.6) ||
    (CellsCover(ps) as real) < 0.4 * width as real * height as real
  }

  /** `isWhite` with the area computed exactly. */
  predicate IsWhite(value: int, area: int, threshold: real) {
    value as real > (area * 255) as real * threshold
  }

  /** `isBlack` with the area computed exactly. */
  predicate IsBlack(value: int, area: int, threshold: real) {
    value as real <= (area * 255) as real * (1.0 - threshold)
  }

  /** While `area * 255` fits an `int`, the tests as written are the exact
      ones. */
  lemma ThresholdsAgree(value: int, area: int, threshold: real)
    requires 0 <= area * 255 < TwoTo31
    ensures IsWhiteAsWritten(value, area, threshold) == IsWhite(value, area, threshold)
    ensures IsBlackAsWritten(value, area, threshold) == IsBlack(value, area, threshold)
  {
    assert Wrap32(area * 255) == area * 255;
  }

  /** Computed exactly, no intensity is both white and black when the two
      thresholds add up to at least one, as 0.95 and 0.6 do. */
  lemma WhiteExcludesBlack(value: int, area: int, white: real, black: real)
    requires area >= 0 && white + black >= 1.0
    ensures !(IsWhite(value, area, white) && IsBlack(value, area, black))
  {
    var a := (area * 255) as real;
    assert a * white - a * (1.0 - black) == a * (white + black - 1.0);
    assert a * (white + black - 1.0) >= 0.0;
  }

  /** `IsFullPage` with exact arithmetic: the page is nearly white, nearly
      black, or its polygons cover less than 40% of it. */
  predicate IsFullPage(width: int, height: int, intensity: int, ps: seq<Polygon>) {
    IsWhite(intensity, width * height, 0.95) ||
    IsBlack(intensity, width * height, 0.6) ||
    (CellsCover(ps) as real) < 0.4 * width as real * height as real
  }

  /** The exact decision in integers: mean grey level above 95% of white,
      at most 40% of white, or cover below 40% of the page. */
  lemma IsFullPageIntegers(width: int, height: int, intensity: int, ps: seq<Polygon>)
    ensures IsFullPage(width, height, intensity, ps) <==>
      20 * intensity > 19 * 255 * (width * height) ||
      5 * intensity <= 2 * 255 * (width * height) ||
      5 * CellsCover(ps) < 2 * (width * height)
  {
    var a := width * height;
    assert (a * 255) as real * 0.95 == (19 * 255 * a) as real / 20.0;
    assert (a * 255) as real * (1.0 - 0.6) == (2 * 255 * a) as real / 5.0;
    assert 0.4 * width as real * height as real == (2 * a) as real / 5.0;
  }

  /** Below 2^31 / 255 pixels nothing wraps and the two decisions agree. */
  lemma SmallPagesAgree(width: int, height: int, intensity: int, ps: seq<Polygon>)
    requires 0 <= width * height && width * height * 255 < TwoTo31
    ensures IsFullPageAsWritten(width, height, intensity, ps) == IsFullPage(width, height, intensity, ps)
  {
    assert Wrap32(width * height) == width * height;
    assert Wrap32(width * height * 255) == width * height * 255;
  }

  /** The page area of a 3000 x 3000 page fits an `int`; 255 times it
      does not. */
  lemma WrappedPageArea()
    ensures Wrap32(3000 * 3000) == 9000000
    ensures Wrap32(9000000 * 255) == -1999967296
  {
    assert 3000 * 3000 == 9000000;
    assert 9000000 * 255 == 2295000000;
    assert (2295000000 + TwoTo31) % TwoTo32 == 147516352;
  }

  /** A single rectangle cell covers its area. */
  lemma RectangleCover(w: int, h: int)
    ensures CellsCover([RectanglePolygon(0, 0, w, h)]) == w * h
  {
    var p := RectanglePolygon(0, 0, w, h);
    RectangleArea(p, 0, 0, w, h);
    assert [p][1..] == [];
  }

  /** A 3000 x 3000 page, mid grey, whose one cell covers it entirely: the
      wrapped `area * 255` is negative, so as written the page counts as
      white and is taken for a full-page picture; exactly, it is neither
      white nor black and its cells cover it, so it is not. */
  lemma FullPageWrapCounterexample()
    ensures Wrap32(Wrap32(3000 * 3000) * 255) < 0
    ensures IsFullPageAsWritten(3000, 3000, 1147500000, [RectanglePolygon(0, 0, 3000, 3000)])
    ensures !IsFullPage(3000, 3000, 1147500000, [RectanglePolygon(0, 0, 3000, 3000)])
  {
    var ps := [RectanglePolygon(0, 0, 3000, 3000)];
    RectangleCover(3000, 3000);
    WrappedPageArea();
    assert IsWhiteAsWritten(1147500000, 9000000, 0.95);
    IsFullPageIntegers(3000, 3000, 1147500000, ps);
  }
}
