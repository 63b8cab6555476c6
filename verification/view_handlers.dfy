/** The three view handlers of the reader (MangaReader/ParsedViewHandler.cs,
    MangaReader/FreeviewHandler.cs, MangaReader/FullPageViewHandler.cs):
    state machines that answer Next, Previous and Refresh by moving
    through a manga and raising the rectangle to display. A page is its
    position in the manga, its views in reading order and the size of its
    bitmap; computing those views is left to the rest of the model. */
module ViewHandlers {
  import opened Util
  import opened Drawing
  import opened WpfUtil

  /** A page as the handlers see it. */
  datatype PageInfo = PageInfo(targets: seq<Rect>, width: int, height: int)

  /** `MangaPage.HasNext`: the manga has a page after `index`. */
  predicate HasNext(pages: seq<PageInfo>, index: nat) { |pages| > index + 1 }

  /** `MangaPage.HasPrevious`. */
  predicate HasPrevious(index: nat) { index > 0 }

  /** The three events of `IViewHandler`. */
  datatype EventKind = Display | NextPageDisplay | PreviousPageDisplay

  /** A raised event: the rectangle to show and the page it is on. */
  datatype Raised = Raised(kind: EventKind, rect: Rect, page: nat)

  /** A handler call: the handler's state afterwards, the event it raised
      and the exception it ended with. A throw keeps the changes made
      before it. */
  datatype Step<S> = Step(after: S, raised: Option<Raised>, thrown: Option<Failure>)

  // ---------------------------------------------------------------------
  // ParsedViewHandler

  /** The page, the index of the view shown and the cached views
      (`targets` is null until the first refresh). */
  datatype ParsedState = ParsedState(page: nat, targetIndex: int, targets: Option<seq<Rect>>)

  /** The constructor: nothing shown yet. */
  function NewParsed(page: nat): ParsedState { ParsedState(page, -1, None) }

  /** `Raise`: the view at the current index, read from the cached list. */
  function ParsedRaise(s: ParsedState, kind: EventKind): (r: Step<ParsedState>)
    ensures r.after == s
    ensures r.thrown.None? <==> s.targets.Some? && 0 <= s.targetIndex < |s.targets.value|
    ensures r.thrown.None? ==> r.raised == Some(Raised(kind, s.targets.value[s.targetIndex], s.page))
    ensures r.thrown.Some? ==> r.raised.None?
  {
    if s.targets.None? then Step(s, None, Some(NullReference))
    else if 0 <= s.targetIndex < |s.targets.value| then
      Step(s, Some(Raised(kind, s.targets.value[s.targetIndex], s.page)), None)
    else Step(s, None, Some(IndexOutOfRange))
  }

  /** `Next`: past the last view, the first view of the next page (nothing
      on the last page); otherwise the following view. */
  function ParsedNext(pages: seq<PageInfo>, s: ParsedState): (r: Step<ParsedState>)
    requires s.page < |pages|
    ensures s.targets.None? ==> r == Step(s, None, Some(NullReference))
    ensures s.targets.Some? && s.targetIndex == |s.targets.value| - 1 ==>
      if HasNext(pages, s.page) then
        r == ParsedRaise(ParsedState(s.page + 1, 0, Some(pages[s.page + 1].targets)), NextPageDisplay)
      else r == Step(s, None, None)
    ensures s.targets.Some? && s.targetIndex != |s.targets.value| - 1 ==>
      r == ParsedRaise(s.(targetIndex := s.targetIndex + 1), Display)
  {
    if s.targets.None? then Step(s, None, Some(NullReference))
    else if s.targetIndex == |s.targets.value| - 1 then
      if !HasNext(pages, s.page) then Step(s, None, None)
      else ParsedRaise(ParsedState(s.page + 1, 0, Some(pages[s.page + 1].targets)), NextPageDisplay)
    else ParsedRaise(s.(targetIndex := s.targetIndex + 1), Display)
  }

  /** `Previous`: at the first view, the last view of the previous page
      (nothing on the first page); otherwise the preceding view. */
  function ParsedPrevious(pages: seq<PageInfo>, s: ParsedState): (r: Step<ParsedState>)
    requires s.page < |pages|
    ensures s.targetIndex == 0 ==>
      if HasPrevious(s.page) then
        r == ParsedRaise(ParsedState(s.page - 1, |pages[s.page - 1].targets| - 1,
          Some(pages[s.page - 1].targets)), PreviousPageDisplay)
      else r == Step(s, None, None)
    ensures s.targetIndex != 0 ==> r == ParsedRaise(s.(targetIndex := s.targetIndex - 1), Display)
  {
    if s.targetIndex == 0 then
      if !HasPrevious(s.page) then Step(s, None, None)
      else
        var t := pages[s.page - 1].targets;
        ParsedRaise(ParsedState(s.page - 1, |t| - 1, Some(t)), PreviousPageDisplay)
    else ParsedRaise(s.(targetIndex := s.targetIndex - 1), Display)
  }

  /** The position of the target whose centre is nearest `c`; the stable
      ordering followed by `First` keeps the earliest of equally near
      ones. */
  function Closest(targets: seq<Rect>, c: Point): (i: nat)
    requires |targets| > 0
    ensures i < |targets|
    ensures forall j :: 0 <= j < |targets| ==> SqDist(Center(targets[i]), c) <= SqDist(Center(targets[j]), c)
    ensures forall j :: 0 <= j < i ==> SqDist(Center(targets[i]), c) < SqDist(Center(targets[j]), c)
  {
    if |targets| == 1 then 0
    else
      var last := |targets| - 1;
      var j := Closest(targets[..last], c);
      assert forall k :: 0 <= k < last ==> targets[..last][k] == targets[k];
      if SqDist(Center(targets[last]), c) < SqDist(Center(targets[j]), c) then last else j
  }

  /** `Refresh`: the views are read again; with an old view the nearest
      view is chosen (`First` of no views throws), without one the index
      is kept, the first view if none was shown yet. */
  function ParsedRefresh(pages: seq<PageInfo>, s: ParsedState, oldView: Option<Rect>): (r: Step<ParsedState>)
    requires s.page < |pages|
    ensures r.after.page == s.page && r.after.targets == Some(pages[s.page].targets)
    ensures oldView.Some? ==> (r.thrown == Some(EmptySequence) <==> pages[s.page].targets == [])
    ensures oldView.Some? && pages[s.page].targets != [] ==>
      r.thrown.None? && r.after.targetIndex == Closest(pages[s.page].targets, Center(oldView.value))
    ensures oldView.None? ==> r.after.targetIndex == if s.targetIndex == -1 then 0 else s.targetIndex
  {
    var t := pages[s.page].targets;
    var s1 := s.(targets := Some(t));
    if oldView.Some? then
      if |t| == 0 then Step(s1, None, Some(EmptySequence))
      else ParsedRaise(s1.(targetIndex := Closest(t, Center(oldView.value))), Display)
    else if s.targetIndex == -1 then ParsedRaise(s1.(targetIndex := 0), Display)
    else ParsedRaise(s1, Display)
  }

  /** Every page has at least one view. */
  predicate AllPagesHaveViews(pages: seq<PageInfo>) {
    forall p :: 0 <= p < |pages| ==> |pages[p].targets| > 0
  }

  /** The handler shows one of the current page's views, from an up-to-date
      cache. */
  predicate ParsedValid(pages: seq<PageInfo>, s: ParsedState) {
    s.page < |pages| && s.targets == Some(pages[s.page].targets) &&
    0 <= s.targetIndex < |pages[s.page].targets|
  }

  /** What every call of a valid handler raises: the view it now shows. */
  predicate ShowsCurrent(pages: seq<PageInfo>, r: Step<ParsedState>) {
    r.thrown.None? && ParsedValid(pages, r.after) &&
    (r.raised.Some? ==> (r.raised.value.page == r.after.page &&
      r.raised.value.rect == pages[r.after.page].targets[r.after.targetIndex]))
  }

  /** The first refresh after construction shows the first view, or the
      nearest one to an old view. */
  lemma ParsedStart(pages: seq<PageInfo>, page: nat, oldView: Option<Rect>)
    requires AllPagesHaveViews(pages) && page < |pages|
    ensures ShowsCurrent(pages, ParsedRefresh(pages, NewParsed(page), oldView))
    ensures oldView.None? ==> ParsedRefresh(pages, NewParsed(page), oldView).after.targetIndex == 0
  {
  }

  /** On a manga whose pages all have views, the three calls never throw,
      keep the handler valid and raise the view they move to. */
  lemma ParsedStaysValid(pages: seq<PageInfo>, s: ParsedState, oldView: Option<Rect>)
    requires AllPagesHaveViews(pages) && ParsedValid(pages, s)
    ensures ShowsCurrent(pages, ParsedNext(pages, s))
    ensures ShowsCurrent(pages, ParsedPrevious(pages, s))
    ensures ShowsCurrent(pages, ParsedRefresh(pages, s, oldView))
  {
  }

  /** A Next that moved is undone by Previous, across a page boundary
      too; and the other way round. */
  lemma ParsedNextPreviousRoundTrip(pages: seq<PageInfo>, s: ParsedState)
    requires AllPagesHaveViews(pages) && ParsedValid(pages, s)
    ensures ParsedNext(pages, s).raised.Some? ==>
      ParsedPrevious(pages, ParsedNext(pages, s).after).after == s
    ensures ParsedPrevious(pages, s).raised.Some? ==>
      ParsedNext(pages, ParsedPrevious(pages, s).after).after == s
  {
    ParsedStaysValid(pages, s, None);
  }

  /** A Next that raised nothing is the end of the manga. */
  lemma ParsedNextAtEnd(pages: seq<PageInfo>, s: ParsedState)
    requires AllPagesHaveViews(pages) && ParsedValid(pages, s)
    ensures ParsedNext(pages, s).raised.None? <==>
      s.page == |pages| - 1 && s.targetIndex == |pages[s.page].targets| - 1
    ensures ParsedNext(pages, s).raised.None? ==> ParsedNext(pages, s).after == s
  {
  }

  /** Refreshing with the view being shown keeps showing it, unless an
      earlier view has the same centre. */
  lemma ParsedRefreshKeepsView(pages: seq<PageInfo>, s: ParsedState)
    requires ParsedValid(pages, s)
    requires var t := pages[s.page].targets;
      forall j :: 0 <= j < s.targetIndex ==> Center(t[j]) != Center(t[s.targetIndex])
    ensures ParsedRefresh(pages, s, Some(pages[s.page].targets[s.targetIndex])).after == s
  {
    var t := pages[s.page].targets;
    var c := Center(t[s.targetIndex]);
    var i := Closest(t, c);
    assert SqDist(Center(t[i]), c) <= SqDist(c, c) == 0;
  }

  // ---------------------------------------------------------------------
  // FreeviewHandler

  /** The page, the top of the view and the sizes read by `updateSettings`:
      the page's bitmap and the manga's view height. */
  datatype FreeState = FreeState(page: nat, viewTop: int, pageWidth: int, pageHeight: int, viewHeight: int)

  /** `updateSettings` on page `page`, with the view top given. */
  function Settings(pages: seq<PageInfo>, viewHeight: int, page: nat, viewTop: int): (s: FreeState)
    requires page < |pages|
    ensures s.page == page && s.viewTop == viewTop && s.viewHeight == viewHeight
    ensures s.pageWidth == pages[page].width && s.pageHeight == pages[page].height
  {
    FreeState(page, viewTop, pages[page].width, pages[page].height, viewHeight)
  }

  /** `Raise`: a full-width band of the view height at the view top. */
  function FreeRaise(s: FreeState, kind: EventKind): Raised {
    Raised(kind, Rect(0, s.viewTop, s.pageWidth, s.viewHeight), s.page)
  }

  /** `Next`: at the bottom of the page, the top of the next page (nothing
      on the last page); otherwise a quarter of a view further down,
      stopping at the bottom. */
  function FreeNext(pages: seq<PageInfo>, viewHeight: int, s: FreeState): (r: Step<FreeState>)
    requires s.page < |pages|
    ensures r.thrown.None? && (r.raised.Some? ==> r.raised.value == FreeRaise(r.after, r.raised.value.kind))
    ensures s.viewTop + s.viewHeight >= s.pageHeight ==>
      if HasNext(pages, s.page) then
        r.after == Settings(pages, viewHeight, s.page + 1, 0) && r.raised.Some? && r.raised.value.kind == NextPageDisplay
      else r == Step(s, None, None)
  {
    if s.viewTop + s.viewHeight >= s.pageHeight then
      if HasNext(pages, s.page) then
        var s' := Settings(pages, viewHeight, s.page + 1, 0);
        Step(s', Some(FreeRaise(s', NextPageDisplay)), None)
      else Step(s, None, None)
    else
      var s' := s.(viewTop := Min(s.viewTop + CDiv(s.viewHeight, 4), s.pageHeight - s.viewHeight));
      Step(s', Some(FreeRaise(s', Display)), None)
  }

  /** `Previous`: at the top of the page, the bottom of the previous page
      (nothing on the first page); otherwise a quarter of a view further
      up, stopping at the top. */
  function FreePrevious(pages: seq<PageInfo>, viewHeight: int, s: FreeState): (r: Step<FreeState>)
    requires s.page < |pages|
    ensures r.thrown.None? && (r.raised.Some? ==> r.raised.value == FreeRaise(r.after, r.raised.value.kind))
    ensures s.viewTop <= 0 ==>
      if HasPrevious(s.page) then
        r.after == Settings(pages, viewHeight, s.page - 1, pages[s.page - 1].height - viewHeight) &&
        r.raised.Some? && r.raised.value.kind == PreviousPageDisplay
      else r == Step(s, None, None)
  {
    if s.viewTop <= 0 then
      if HasPrevious(s.page) then
        var p := s.page - 1;
        var s' := Settings(pages, viewHeight, p, pages[p].height - viewHeight);
        Step(s', Some(FreeRaise(s', PreviousPageDisplay)), None)
      else Step(s, None, None)
    else
      var s' := s.(viewTop := Max(s.viewTop - CDiv(s.viewHeight, 4), 0));
      Step(s', Some(FreeRaise(s', Display)), None)
  }

  /** The view top is on the page: the band lies within it. */
  predicate OnPage(s: FreeState) { 0 <= s.viewTop <= s.pageHeight - s.viewHeight }

  /** A scroll inside the page stays on the page and, once the view is at
      least four pixels high, moves strictly (a quarter of less is zero). */
  lemma FreeScrollBounds(pages: seq<PageInfo>, viewHeight: int, s: FreeState)
    requires s.page < |pages| && s.viewHeight >= 0 && OnPage(s)
    ensures var r := FreeNext(pages, viewHeight, s);
      s.viewTop + s.viewHeight < s.pageHeight ==>
        r.after.page == s.page && OnPage(r.after) &&
        (s.viewHeight >= 4 <==> r.after.viewTop > s.viewTop)
    ensures var r := FreePrevious(pages, viewHeight, s);
      s.viewTop > 0 ==>
        r.after.page == s.page && OnPage(r.after) &&
        (s.viewHeight >= 4 <==> r.after.viewTop < s.viewTop)
  {
  }

  /** On pages at least as tall as the view, every move keeps the view on
      its page; turning a page lands on its top or bottom edge. */
  lemma FreeStaysOnPage(pages: seq<PageInfo>, viewHeight: int, s: FreeState)
    requires s.page < |pages| && 0 <= viewHeight && OnPage(s) && s.viewHeight == viewHeight
    requires forall p :: 0 <= p < |pages| ==> pages[p].height >= viewHeight
    ensures OnPage(FreeNext(pages, viewHeight, s).after)
    ensures OnPage(FreePrevious(pages, viewHeight, s).after)
  {
  }

  /** Scrolling down by Next, the band only moves down or to a later page:
      from any view, at most `pageHeight` steps reach the bottom. */
  lemma {:induction false} FreeNextReachesBottom(pages: seq<PageInfo>, viewHeight: int, s: FreeState, n: nat)
    requires s.page < |pages| && s.viewHeight >= 4 && OnPage(s)
    requires n >= s.pageHeight - s.viewHeight - s.viewTop
    ensures var t := FreeScrollDown(pages, viewHeight, s, n);
      t.page == s.page && t.viewTop + t.viewHeight >= t.pageHeight
    decreases n
  {
    if s.viewTop + s.viewHeight < s.pageHeight {
      FreeScrollBounds(pages, viewHeight, s);
      FreeNextReachesBottom(pages, viewHeight, FreeNext(pages, viewHeight, s).after, n - 1);
    }
  }

  /** Up to `n` calls of Next that stay on the page. */
  function FreeScrollDown(pages: seq<PageInfo>, viewHeight: int, s: FreeState, n: nat): FreeState
    requires s.page < |pages|
    decreases n
  {
    if n == 0 || s.viewTop + s.viewHeight >= s.pageHeight then s
    else FreeScrollDown(pages, viewHeight, FreeNext(pages, viewHeight, s).after, n - 1)
  }

  /** The view top `Refresh` computes from the old view, as written: the
      old centre less the shown height, halved. */
  function RefreshTopAsWritten(oldView: Rect, viewHeight: int): int {
    CDiv(Center(oldView).y - Min(oldView.height, viewHeight), 2)
  }

  /** Refreshing with the band being shown moves it: a view at 400 with
      height 200 jumps to 150. */
  lemma RefreshTopMovesView()
    ensures RefreshTopAsWritten(Rect(0, 400, 800, 200), 200) == 150
  {
  }

  /** The view top as evidently intended: the new band is centred where
      the old one was, or keeps its top when the old one was shorter. */
  function RefreshTop(oldView: Rect, viewHeight: int): (top: int)
    ensures oldView.height >= 0 && viewHeight >= 0 ==>
      -1 <= 2 * (Center(oldView).y - top) - Min(oldView.height, viewHeight) <= 1
  {
    Center(oldView).y - CDiv(Min(oldView.height, viewHeight), 2)
  }

  /** With the intended top, refreshing with the band being shown keeps it
      in place. */
  lemma RefreshTopKeepsView(s: FreeState)
    requires s.viewHeight >= 0
    ensures RefreshTop(FreeRaise(s, Display).rect, s.viewHeight) == s.viewTop
  {
  }

  /** `Refresh`: the settings are read again; with an old view the top is
      recomputed from it, without clamping. `fixed` selects the intended
      formula over the one written. */
  function FreeRefresh(pages: seq<PageInfo>, viewHeight: int, s: FreeState, oldView: Option<Rect>, fixed: bool): (r: Step<FreeState>)
    requires s.page < |pages|
    ensures r.thrown.None? && r.raised == Some(FreeRaise(r.after, Display))
    ensures r.after.page == s.page
    ensures oldView.None? ==> r.after == Settings(pages, viewHeight, s.page, s.viewTop)
    ensures oldView.Some? ==> r.after == Settings(pages, viewHeight, s.page, r.after.viewTop)
    ensures oldView.Some? && !fixed ==>
      r.after.viewTop == CDiv(Center(oldView.value).y - Min(oldView.value.height, viewHeight), 2)
    ensures oldView.Some? && fixed && oldView.value.height >= 0 && viewHeight >= 0 ==>
      -1 <= 2 * (Center(oldView.value).y - r.after.viewTop) - Min(oldView.value.height, viewHeight) <= 1
    ensures fixed && oldView == Some(FreeRaise(s, Display).rect) && viewHeight == s.viewHeight >= 0 ==>
      r.after.viewTop == s.viewTop
  {
    var s1 := Settings(pages, viewHeight, s.page, s.viewTop);
    var s2 := if oldView.None? then s1
      else s1.(viewTop := if fixed then RefreshTop(oldView.value, viewHeight)
                          else RefreshTopAsWritten(oldView.value, viewHeight));
    Step(s2, Some(FreeRaise(s2, Display)), None)
  }

  /** The constructor: the view top starts at 0 and a first refresh reads
      the settings. */
  function NewFreeview(pages: seq<PageInfo>, viewHeight: int, page: nat): (r: Step<FreeState>)
    requires page < |pages|
    ensures r.after == Settings(pages, viewHeight, page, 0)
  {
    FreeRefresh(pages, viewHeight, FreeState(page, 0, 0, 0, 0), None, true)
  }

  // ---------------------------------------------------------------------
  // FullPageViewHandler

  /** `Raise`: the whole bitmap of the current page. */
  function FullRaise(pages: seq<PageInfo>, page: nat, kind: EventKind): Raised
    requires page < |pages|
  {
    Raised(kind, Rect(0, 0, pages[page].width, pages[page].height), page)
  }

  /** `Next`: the next page, if there is one. */
  function FullNext(pages: seq<PageInfo>, page: nat): (r: Step<nat>)
    requires page < |pages|
    ensures r.thrown.None? && r.after < |pages|
    ensures r.raised.Some? <==> HasNext(pages, page)
    ensures r.raised.Some? ==> r.after == page + 1 && r.raised == Some(FullRaise(pages, page + 1, NextPageDisplay))
    ensures r.raised.None? ==> r.after == page
  {
    if HasNext(pages, page) then Step(page + 1, Some(FullRaise(pages, page + 1, NextPageDisplay)), None)
    else Step(page, None, None)
  }

  /** `Previous`: the previous page, if there is one. */
  function FullPrevious(pages: seq<PageInfo>, page: nat): (r: Step<nat>)
    requires page < |pages|
    ensures r.thrown.None? && r.after < |pages|
    ensures r.raised.Some? <==> HasPrevious(page)
    ensures r.raised.Some? ==> r.after == page - 1 && r.raised == Some(FullRaise(pages, page - 1, PreviousPageDisplay))
    ensures r.raised.None? ==> r.after == page
  {
    if HasPrevious(page) then Step(page - 1, Some(FullRaise(pages, page - 1, PreviousPageDisplay)), None)
    else Step(page, None, None)
  }

  /** `Refresh`: the same page again, whatever the old view. */
  function FullRefresh(pages: seq<PageInfo>, page: nat, oldView: Option<Rect>): (r: Step<nat>)
    requires page < |pages|
    ensures r.after == page && r.thrown.None?
    ensures r.raised == Some(Raised(Display, Rect(0, 0, pages[page].width, pages[page].height), page))
  {
    Step(page, Some(FullRaise(pages, page, Display)), None)
  }

  /** Next and Previous undo each other whenever they turned a page. */
  lemma FullRoundTrip(pages: seq<PageInfo>, page: nat)
    requires page < |pages|
    ensures FullNext(pages, page).raised.Some? ==> FullPrevious(pages, FullNext(pages, page).after).after == page
    ensures FullPrevious(pages, page).raised.Some? ==> FullNext(pages, FullPrevious(pages, page).after).after == page
  {
  }
}
