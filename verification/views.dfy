/** The remaining viewers and the glue around them: the full-page viewer
    (MangaParser/Views/FullPageViewer.cs), the page construction
    (MangaParser/Page.cs) and the computation of a page's views in page
    space (MangaParser/MangaPageUtil.cs). */
module Views {
  import opened Util
  import opened Drawing
  import opened ReadingUtilities
  import opened Directions
  import opened Shapes
  import Polygons
  import Merging
  import Strip
  import ReadingOrder

  /** The bounding boxes of the cells, in order. */
  function Boxes(cells: seq<Shape>): (r: seq<Rect>)
    ensures |r| == |cells| && forall i :: 0 <= i < |cells| ==> r[i] == Box(cells[i])
  {
    seq(|cells|, i requires 0 <= i < |cells| => Box(cells[i]))
  }

  // ---------------------------------------------------------------------
  // FullPageViewer

  /** `Aggregate` of `Rectangle.Union` over `boxes[i..]`, from `acc`. */
  function UnionFrom(acc: Rect, boxes: seq<Rect>, i: nat): (u: Rect)
    requires i <= |boxes|
    ensures ContainsRect(u, acc)
    ensures forall k :: i <= k < |boxes| ==> ContainsRect(u, boxes[k])
    decreases |boxes| - i
  {
    if i == |boxes| then acc else UnionFrom(Union(acc, boxes[i]), boxes, i + 1)
  }

  /** Any rectangle holding the seed and the boxes holds their union. */
  lemma {:induction false} UnionFromLeast(acc: Rect, boxes: seq<Rect>, i: nat, c: Rect)
    requires i <= |boxes| && ContainsRect(c, acc)
    requires forall k :: i <= k < |boxes| ==> ContainsRect(c, boxes[k])
    ensures ContainsRect(c, UnionFrom(acc, boxes, i))
    decreases |boxes| - i
  {
    if i < |boxes| {
      UnionLeast(acc, boxes[i], c);
      UnionFromLeast(Union(acc, boxes[i]), boxes, i + 1, c);
    }
  }

  /** `FullPageViewer.ComputeView`: one view, the union of all the boxes,
      seeded with the first box; `First()` of no polygons throws. */
  function FullPageView(boxes: seq<Rect>): (r: Result<seq<Rect>>)
    ensures r.Err? <==> boxes == []
    ensures r.Err? ==> r.failure == EmptySequence
    ensures r.Ok? ==> |r.value| == 1 && forall b :: b in boxes ==> ContainsRect(r.value[0], b)
  {
    if boxes == [] then Err(EmptySequence) else Ok([UnionFrom(boxes[0], boxes, 0)])
  }

  /** The full-page view is the smallest rectangle holding every box. */
  lemma FullPageViewLeast(boxes: seq<Rect>, c: Rect)
    requires boxes != [] && forall b :: b in boxes ==> ContainsRect(c, b)
    ensures ContainsRect(c, FullPageView(boxes).value[0])
  {
    UnionFromLeast(boxes[0], boxes, 0, c);
  }

  /** A single polygon is viewed as its own bounding box. */
  lemma FullPageViewSingle(b: Rect)
    ensures FullPageView([b]) == Ok([b])
  {
    assert Union(b, b) == b;
    assert UnionFrom(b, [b], 0) == UnionFrom(b, [b], 1) == b;
  }

  // ---------------------------------------------------------------------
  // The viewers behind `IPageViewer`

  /** The three implementations of `IPageViewer`. */
  datatype PageViewer =
    | StripView(strip: Strip.StripViewer)
    | CellsView(cells: Merging.MergingViewer)
    | FullView

  /** Each merging viewer carries the overlap relation of its class. */
  predicate ValidViewer(v: PageViewer) {
    (v.StripView? ==> v.strip.base.kind == Merging.StripKind) &&
    (v.CellsView? ==> v.cells.kind == Merging.CellsKind)
  }

  /** The `ViewTransformation` setter: a merging viewer (the strip viewer
      through its base class) stores the matrix and recomputes its
      transformed size; the full-page viewer keeps no transformation. */
  function SetViewTransformation(v: PageViewer, m: Matrix): (w: PageViewer)
    ensures ValidViewer(v) ==> ValidViewer(w)
    ensures w.StripView? == v.StripView? && w.CellsView? == v.CellsView?
    ensures w.StripView? ==> (w.strip.base.transformation == m &&
      w.strip.maxWidth == v.strip.maxWidth && w.strip.maxHeight == v.strip.maxHeight)
    ensures w.CellsView? ==> (w.cells.transformation == m &&
      w.cells.maxWidth == v.cells.maxWidth && w.cells.maxHeight == v.cells.maxHeight)
  {
    match v
    case StripView(s) => StripView(s.(base := Merging.SetTransformation(s.base, m)))
    case CellsView(c) => CellsView(Merging.SetTransformation(c, m))
    case FullView => FullView
  }

  /** `IPageViewer.ComputeView` on the polygons' bounding boxes. */
  function ViewerComputeView(v: PageViewer, boxes: seq<Rect>): (r: Result<seq<Rect>>)
    requires ValidViewer(v)
    ensures boxes == [] ==> (r.Ok? <==> !v.FullView?)
    ensures v.StripView? && (forall k :: 0 <= k < |boxes| ==> Merging.Positive(boxes[k])) ==> r.Ok?
    ensures v.CellsView? && (forall k :: 0 <= k < |boxes| ==> Merging.Positive(boxes[k])) ==> r.Ok?
    ensures v.FullView? ==> (r.Ok? <==> boxes != [])
  {
    match v
    case StripView(s) =>
      if forall k :: 0 <= k < |boxes| ==> Merging.Positive(boxes[k]) then
        Strip.ComputeViewOk(s, boxes);
        Strip.ComputeView(s, boxes)
      else
        Strip.ComputeView(s, boxes)
    case CellsView(c) => Merging.ComputeView(c, boxes)
    case FullView => FullPageView(boxes)
  }

  // ---------------------------------------------------------------------
  // Pages

  /** A page: its reading direction, its cells in page space and the same
      cells in reading space, in reading order. The bitmap is left out. */
  datatype Page = Page(direction: ReadingDirection, cells: seq<Shape>, transformedCells: seq<Shape>)

  /** What the segmentation hands the page: the full-page verdict and the
      polygons found. */
  datatype Extraction = Extraction(fullPage: bool, polygons: seq<Polygons.Polygon>)

  predicate IsPermutation(order: seq<nat>, n: nat) {
    |order| == n && (forall i :: 0 <= i < n ==> order[i] < n) &&
    (forall i, j :: 0 <= i < j < n ==> order[i] != order[j])
  }

  /** The `Page` constructor: a full page is one rectangle the size of the
      bitmap; otherwise the extracted polygons are wrapped in the direction
      matrix, put in reading order, and the page-space cells are their base
      polygons in that order. The full-page rectangle comes from the
      rectangle factory as written, whose centre is off the page, unless
      `fixed` selects the corrected factory. */
  method NewPage(width: int, height: int, d: ReadingDirection, ex: Extraction, fixed: bool) returns (page: Page, order: seq<nat>)
    ensures page.direction == d
    ensures |page.cells| == |page.transformedCells|
    ensures forall i :: 0 <= i < |page.cells| ==>
      page.transformedCells[i] == Transformed(page.cells[i], DirectionMatrix(d))
    ensures ex.fullPage && !fixed ==> page.cells == [Plain(Polygons.RectangleAsWritten(0, 0, width, height))]
    ensures ex.fullPage && fixed ==> page.cells == [Plain(Polygons.RectanglePolygon(0, 0, width, height))]
    ensures ex.fullPage ==> order == [0] && page.cells[0].poly.box == Rect(0, 0, width, height)
    ensures !ex.fullPage ==> (IsPermutation(order, |ex.polygons|) && |page.cells| == |ex.polygons| &&
      forall i :: 0 <= i < |order| ==> page.cells[i] == Plain(ex.polygons[order[i]]))
  {
    var m := DirectionMatrix(d);
    if ex.fullPage {
      var rect := if fixed then Polygons.RectanglePolygon(0, 0, width, height)
                  else Polygons.RectangleAsWritten(0, 0, width, height);
      var cells := [Plain(rect)];
      page := Page(d, cells, [Transformed(cells[0], m)]);
      order := [0];
    } else {
      var wrapped := seq(|ex.polygons|, i requires 0 <= i < |ex.polygons| => Transformed(Plain(ex.polygons[i]), m));
      var ordered;
      ordered, order := ReadingOrder.GetReadingOrder(wrapped);
      var cells := seq(|ordered|, i requires 0 <= i < |ordered| => ordered[i].base);
      page := Page(d, cells, ordered);
      forall i, j | 0 <= i < j < |order|
        ensures order[i] != order[j]
      {
        assert ReadingOrder.NoDup(order);
      }
    }
  }

  // ---------------------------------------------------------------------
  // MangaPageUtil.ComputeView

  /** The views of a page in page space, and the viewer as the call leaves
      it: the viewer is given the direction matrix, run on the cells in
      reading space, and each view is mapped back by the inverse matrix. */
  function PageView(page: Page, viewer: PageViewer): (r: (PageViewer, Result<seq<Rect>>))
    requires ValidViewer(viewer)
    ensures r.0 == SetViewTransformation(viewer, DirectionMatrix(page.direction))
    ensures r.1.Ok? <==> ViewerComputeView(r.0, Boxes(page.transformedCells)).Ok?
    ensures r.1.Ok? ==> |r.1.value| == |ViewerComputeView(r.0, Boxes(page.transformedCells)).value|
  {
    var v := SetViewTransformation(viewer, DirectionMatrix(page.direction));
    var view := ViewerComputeView(v, Boxes(page.transformedCells));
    match view
    case Err(e) => (v, Err(e))
    case Ok(rects) =>
      (v, Ok(seq(|rects|, i requires 0 <= i < |rects| => Transform(rects[i], InverseMatrix(page.direction)))))
  }

  /** Each view in page space maps back, by the direction matrix, to the
      view the viewer computed in reading space, in the same order. */
  lemma PageViewRoundTrip(page: Page, viewer: PageViewer, i: nat)
    requires ValidViewer(viewer) && PageView(page, viewer).1.Ok?
    requires var view := ViewerComputeView(PageView(page, viewer).0, Boxes(page.transformedCells)).value;
      i < |view| && view[i].NonNegative()
    ensures Transform(PageView(page, viewer).1.value[i], DirectionMatrix(page.direction)) ==
      ViewerComputeView(PageView(page, viewer).0, Boxes(page.transformedCells)).value[i]
  {
    var view := ViewerComputeView(PageView(page, viewer).0, Boxes(page.transformedCells)).value;
    TransformRoundTrip(view[i], page.direction);
  }

  /** Read left to right, top to bottom, the page views are the viewer's
      views unchanged. */
  lemma PageViewDownRight(page: Page, viewer: PageViewer)
    requires ValidViewer(viewer) && page.direction == DownRight && PageView(page, viewer).1.Ok?
    requires forall r :: r in ViewerComputeView(PageView(page, viewer).0, Boxes(page.transformedCells)).value ==>
      r.NonNegative()
    ensures PageView(page, viewer).1.value ==
      ViewerComputeView(PageView(page, viewer).0, Boxes(page.transformedCells)).value
  {
    var view := ViewerComputeView(PageView(page, viewer).0, Boxes(page.transformedCells)).value;
    forall i | 0 <= i < |view|
      ensures Transform(view[i], InverseMatrix(DownRight)) == view[i]
    {
      TransformIdentity(view[i]);
    }
  }
}
