/** The reader's page viewer (MangaReader/MangaPageViewer.cs): a viewer
    that follows the configured view mode, building the matching parser
    viewer on demand and caching it until the mode or the size limits
    change. Change notifications to listeners are left out. */
module PageViewers {
  import opened Util
  import opened Drawing
  import Merging
  import Strip
  import opened Views

  /** `MangaConfiguration.ViewModeKind`. */
  datatype ViewModeKind = StripMode | CellMode | FreeMode | FullPageMode

  /** The cached viewer (null until built, and after a setting changes),
      the view transformation, the mode and the size limits. */
  datatype MangaPageViewer = MangaPageViewer(cached: Option<PageViewer>, viewTransformation: Matrix,
                                             viewMode: ViewModeKind, width: int, height: int)

  /** The constructor: no viewer yet, the identity transformation, and the
      fields' defaults (the first mode of the enumeration, zero sizes). */
  function NewMangaPageViewer(): (v: MangaPageViewer)
    ensures v.cached.None? && v.viewTransformation == Identity && v.viewMode == StripMode
  {
    MangaPageViewer(None, Identity, StripMode, 0, 0)
  }

  /** The `switch` of `getViewer`: the viewer a mode stands for, with no
      viewer at all for the full-page mode. */
  function Build(mode: ViewModeKind, width: int, height: int): (v: Option<PageViewer>)
    ensures v.None? <==> mode == FullPageMode
    ensures v.Some? ==> ValidViewer(v.value)
    ensures mode == StripMode ==> v.value.StripView? && v.value.strip.maxWidth == width && v.value.strip.maxHeight == height
    ensures mode == CellMode ==> v.value.CellsView? && v.value.cells.maxWidth == width && v.value.cells.maxHeight == height
    ensures mode == FreeMode ==> v == Some(FullView)
  {
    match mode
    case StripMode => Some(StripView(Strip.NewStrip(width, height)))
    case CellMode => Some(CellsView(Merging.NewViewer(Merging.CellsKind, width, height)))
    case FreeMode => Some(FullView)
    case FullPageMode => None
  }

  /** The viewer the current settings call for, with the current
      transformation. */
  function Fresh(p: MangaPageViewer): Option<PageViewer> {
    match Build(p.viewMode, p.width, p.height)
    case None => None
    case Some(v) => Some(SetViewTransformation(v, p.viewTransformation))
  }

  /** `getViewer`: the cached viewer, or a new one for the current mode,
      given the current transformation and kept. */
  function GetViewer(p: MangaPageViewer): (r: (MangaPageViewer, Option<PageViewer>))
    ensures r.1 == if p.cached.Some? then p.cached else Fresh(p)
    ensures r.0 == p.(cached := r.1)
  {
    if p.cached.Some? then (p, p.cached)
    else
      match Build(p.viewMode, p.width, p.height)
      case None => (p, None)
      case Some(v) =>
        var v' := SetViewTransformation(v, p.viewTransformation);
        (p.(cached := Some(v')), Some(v'))
  }

  /** The `ViewMode`, `Width` and `Height` setters: the cache is dropped. */
  function SetViewMode(p: MangaPageViewer, mode: ViewModeKind): (q: MangaPageViewer)
    ensures q == p.(viewMode := mode, cached := None)
  {
    p.(viewMode := mode, cached := None)
  }

  function SetWidth(p: MangaPageViewer, width: int): (q: MangaPageViewer)
    ensures q == p.(width := width, cached := None)
  {
    p.(width := width, cached := None)
  }

  function SetHeight(p: MangaPageViewer, height: int): (q: MangaPageViewer)
    ensures q == p.(height := height, cached := None)
  {
    p.(height := height, cached := None)
  }

  /** The `ViewTransformation` setter: kept, and passed on to a cached
      viewer. */
  function SetTransformation(p: MangaPageViewer, m: Matrix): (q: MangaPageViewer)
    ensures q.viewTransformation == m && q.viewMode == p.viewMode && q.width == p.width && q.height == p.height
    ensures q.cached.Some? <==> p.cached.Some?
    ensures q.cached.Some? ==> q.cached.value == SetViewTransformation(p.cached.value, m)
  {
    p.(viewTransformation := m,
       cached := if p.cached.Some? then Some(SetViewTransformation(p.cached.value, m)) else None)
  }

  /** `configuration_PropertyChanged`: only a change of view mode is
      followed, taking the configuration's mode. */
  function ConfigurationChanged(p: MangaPageViewer, propertyName: string, configured: ViewModeKind): (q: MangaPageViewer)
    ensures propertyName == "ViewMode" ==> q == SetViewMode(p, configured)
    ensures propertyName != "ViewMode" ==> q == p
  {
    if propertyName == "ViewMode" then SetViewMode(p, configured) else p
  }

  /** The cache holds what the settings call for. */
  predicate Coherent(p: MangaPageViewer) {
    p.cached.Some? ==> p.cached == Fresh(p)
  }

  /** `ComputeView`: the viewer for the current mode does the work; in the
      full-page mode there is none and the call dereferences null. */
  function ComputeView(p: MangaPageViewer, boxes: seq<Rect>): (r: (MangaPageViewer, Result<seq<Rect>>))
    requires Coherent(p)
    ensures r.0 == GetViewer(p).0
    ensures p.viewMode == FullPageMode ==> r.1 == Err(NullReference)
    ensures p.viewMode != FullPageMode ==> r.1 == ViewerComputeView(Fresh(p).value, boxes)
  {
    var g := GetViewer(p);
    if g.1.None? then (g.0, Err(NullReference))
    else (g.0, ViewerComputeView(g.1.value, boxes))
  }

  /** Setting the transformation twice is setting the second one. */
  lemma SetViewTransformationTwice(v: PageViewer, m1: Matrix, m2: Matrix)
    ensures SetViewTransformation(SetViewTransformation(v, m1), m2) == SetViewTransformation(v, m2)
  {
  }

  /** Every operation keeps the cache coherent with the settings. */
  lemma CoherentKept(p: MangaPageViewer, mode: ViewModeKind, n: int, m: Matrix, name: string)
    requires Coherent(p)
    ensures Coherent(NewMangaPageViewer())
    ensures Coherent(GetViewer(p).0)
    ensures Coherent(SetViewMode(p, mode)) && Coherent(SetWidth(p, n)) && Coherent(SetHeight(p, n))
    ensures Coherent(SetTransformation(p, m))
    ensures Coherent(ConfigurationChanged(p, name, mode))
  {
    if p.cached.Some? {
      SetViewTransformationTwice(Build(p.viewMode, p.width, p.height).value, p.viewTransformation, m);
    }
  }

  /** The cache is invisible: a coherent viewer computes the views a
      freshly built one would, and so does the next call. */
  lemma CacheTransparent(p: MangaPageViewer, boxes: seq<Rect>, later: seq<Rect>)
    requires Coherent(p)
    ensures ComputeView(p, boxes).1 == ComputeView(p.(cached := None), boxes).1
    ensures Coherent(ComputeView(p, boxes).0)
    ensures ComputeView(ComputeView(p, boxes).0, later).1 == ComputeView(p, later).1
  {
    CoherentKept(p, p.viewMode, 0, Identity, "");
  }

  /** After a transformation is set, a cached strip or cells viewer
      computes under it, whether it was built before or after. */
  lemma TransformationReachesViewer(p: MangaPageViewer, m: Matrix)
    requires Coherent(p) && p.viewMode in {StripMode, CellMode}
    ensures var v := GetViewer(SetTransformation(p, m)).1.value;
      (v.StripView? ==> v.strip.base.transformation == m) && (v.CellsView? ==> v.cells.transformation == m)
  {
    CoherentKept(p, p.viewMode, 0, m, "");
  }
}
