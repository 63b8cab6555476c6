/** The traversal of DefaultReadingOrder: `readGraph` reads the pruned
    relation graph with a stack of enabled cells, and when the stack runs
    dry on a cyclic graph picks the next cell with `getNextPolygon`. Cells
    are indices into the list of polygons. */
module ReadingOrder {
  import opened Util
  import opened Drawing
  import opened Shapes
  import opened Sorting
  import opened ReadingGraph

  /** `BoundingBox.Y` (equal to `Top`) of cell `p`. */
  function TopOf(ps: seq<Shape>, p: nat): int {
    if p < |ps| then Box(ps[p]).y else 0
  }

  function TopKey(ps: seq<Shape>): nat -> int {
    (p: nat) => TopOf(ps, p)
  }

  /** The first index below `k`, outside `processed`, whose key is minimal:
      a later index replaces the current pick only with a strictly smaller
      key. */
  function FirstMinimum(key: nat -> int, processed: set<nat>, k: nat): (m: Option<nat>)
    ensures m.None? <==> forall p: nat :: p < k ==> p in processed
    ensures m.Some? ==> m.value < k && m.value !in processed
    ensures m.Some? ==> forall p: nat :: p < k && p !in processed ==> key(m.value) <= key(p)
  {
    if k == 0 then None
    else
      var prev := FirstMinimum(key, processed, k - 1);
      if k - 1 in processed then prev
      else if prev.None? || key(k - 1) < key(prev.value) then Some(k - 1)
      else prev
  }

  // ---------------------------------------------------------------------
  // getEnabledPolygons and canEnablePoly

  /** The cells below `k` with an empty inverse list, in index order. */
  function Unconstrained(inv: Graph, k: nat): (s: seq<nat>)
    requires k <= |inv|
    ensures forall p: nat :: p in s <==> p < k && |inv[p]| == 0
    ensures forall p :: multiset(s)[p] <= 1
  {
    if k == 0 then []
    else
      var rest := Unconstrained(inv, k - 1);
      if |inv[k - 1]| == 0 then rest + [k - 1] else rest
  }

  /** `getEnabledPolygons`: the cells nothing precedes, ordered by
      `BoundingBox.Y`. */
  function EnabledPolygons(inv: Graph, ps: seq<Shape>): (s: seq<nat>)
    ensures forall p: nat :: p in s <==> p < |inv| && |inv[p]| == 0
    ensures forall p :: multiset(s)[p] <= 1
    ensures SortedBy(s, TopKey(ps))
  {
    var u := Unconstrained(inv, |inv|);
    var s := SortBy(u, TopKey(ps));
    assert forall p :: p in s <==> p in multiset(s);
    assert forall p :: p in u <==> p in multiset(u);
    s
  }

  /** `canEnablePoly`: every predecessor of `q` has been read. */
  predicate CanEnable(inv: Graph, q: nat, processed: set<nat>)
    requires q < |inv|
  {
    forall e :: e in inv[q] ==> e.target in processed
  }

  // ---------------------------------------------------------------------
  // getNextPolygon

  /** The unread cells with a `RightOf` edge to `poly` in the inverse
      list, that is, the unread cells `poly` is right of. */
  function LeftNeighbours(s: seq<Edge>, processed: set<nat>): (r: seq<nat>)
    ensures forall p :: p in r <==> p !in processed && Edge(RightOf, p) in s
  {
    if |s| == 0 then []
    else
      assert forall e :: e in s <==> e == s[0] || e in s[1..];
      (if s[0].rel == RightOf && s[0].target !in processed then [s[0].target] else [])
      + LeftNeighbours(s[1..], processed)
  }

  /** `getNextPolygon`: the topmost unread cell, then up to ten steps back
      along `RightOf` edges, each to the topmost unread cell it is right
      of. */
  method GetNextPolygon(inv: Graph, ps: seq<Shape>, processed: set<nat>) returns (poly: nat)
    requires WellFormed(inv) && |inv| == |ps|
    requires exists p: nat :: p < |ps| && p !in processed
    ensures poly < |ps| && poly !in processed
    ensures FirstMinimum(TopKey(ps), processed, |ps|).Some?
    ensures LeftNeighbours(inv[FirstMinimum(TopKey(ps), processed, |ps|).value], processed) == []
        ==> poly == FirstMinimum(TopKey(ps), processed, |ps|).value
  {
    var topmost := FirstMinimum(TopKey(ps), processed, |ps|);
    poly := topmost.value;
    var changed := true;
    var limit := 0;
    while changed && limit < 10
      invariant 0 <= limit <= 10
      invariant poly < |ps| && poly !in processed
      invariant LeftNeighbours(inv[topmost.value], processed) == [] ==> poly == topmost.value
      invariant limit > 0 && poly == topmost.value && LeftNeighbours(inv[topmost.value], processed) == [] ==> !changed
      decreases 10 - limit
    {
      changed := false;
      limit := limit + 1;
      var candidates := SortBy(LeftNeighbours(inv[poly], processed), TopKey(ps));
      if |candidates| > 0 {
        changed := true;
        CandidateUnread(inv, poly, processed, candidates);
        poly := candidates[0];
      }
    }
  }

  /** A cell `poly` is right of is an unread cell of the graph. */
  lemma CandidateUnread(inv: Graph, poly: nat, processed: set<nat>, candidates: seq<nat>)
    requires WellFormed(inv) && poly < |inv|
    requires multiset(candidates) == multiset(LeftNeighbours(inv[poly], processed)) && |candidates| > 0
    ensures candidates[0] < |inv| && candidates[0] !in processed
  {
    assert candidates[0] in multiset(LeftNeighbours(inv[poly], processed));
    assert Edge(RightOf, candidates[0]) in inv[poly];
  }

  // ---------------------------------------------------------------------
  // Set bookkeeping

  /** A set of indices below `n` has at most `n` elements, and fewer if one
      index is missing. */
  lemma {:induction false} RangeCard(s: set<nat>, n: nat)
    requires forall x :: x in s ==> x < n
    ensures |s| <= n
    ensures (exists m: nat :: m < n && m !in s) ==> |s| < n
    ensures (forall m: nat :: m < n ==> m in s) ==> |s| == n
  {
    if n > 0 {
      var t := s - {n - 1};
      RangeCard(t, n - 1);
      if n - 1 in s {
        assert s == t + {n - 1};
      } else {
        assert s == t;
      }
    }
  }

  predicate NoDup(s: seq<nat>) {
    forall a, b :: 0 <= a < b < |s| ==> s[a] != s[b]
  }

  // ---------------------------------------------------------------------
  // Acyclic graphs

  /** `rank` numbers the cells so that every edge goes up. */
  ghost predicate Ranking(g: Graph, rank: seq<nat>) {
    |rank| == |g| &&
    forall p, e :: 0 <= p < |g| && e in g[p] && e.target < |g| ==> rank[p] < rank[e.target]
  }

  ghost predicate Acyclic(g: Graph) {
    exists rank: seq<nat> :: Ranking(g, rank)
  }

  /** Every edge of `g` between two listed cells goes forward in `order`. */
  ghost predicate Topological(g: Graph, order: seq<nat>) {
    forall i, j, r ::
      (0 <= i < |order| && 0 <= j < |order| && order[i] < |g| && Edge(r, order[j]) in g[order[i]]) ==> i < j
  }

  /** Every listed cell comes after all its predecessors. */
  ghost predicate PredecessorsFirst(inv: Graph, order: seq<nat>) {
    forall i, e :: 0 <= i < |order| && order[i] < |inv| && e in inv[order[i]] ==> e.target in order[..i]
  }

  /** On an acyclic graph some unread cell always has all its
      predecessors read: the unread cell of least rank. */
  lemma ReadyCellExists(g: Graph, rank: seq<nat>, processed: set<nat>, p0: nat) returns (q: nat)
    requires WellFormed(g) && Ranking(g, rank)
    requires p0 < |g| && p0 !in processed
    ensures q < |g| && q !in processed && CanEnable(InvertGraph(g), q, processed)
  {
    var key := (p: nat) => if p < |rank| then rank[p] else 0;
    var m := FirstMinimum(key, processed, |g|);
    q := m.value;
    var inv := InvertGraph(g);
    forall e: Edge | e in inv[q]
      ensures e.target in processed
    {
      InvertGraphMeaning(g, e.target, q, e.rel);
      assert rank[e.target] < rank[q];
    }
  }

  /** When no unread cell has all its predecessors read, the graph has a
      cycle. */
  lemma StuckMeansCyclic(g: Graph, processed: set<nat>, p0: nat)
    requires WellFormed(g)
    requires p0 < |g| && p0 !in processed
    requires forall q: nat :: q < |g| && q !in processed ==> !CanEnable(InvertGraph(g), q, processed)
    ensures !Acyclic(g)
  {
    if Acyclic(g) {
      var rank: seq<nat> :| Ranking(g, rank);
      var q := ReadyCellExists(g, rank, processed, p0);
    }
  }

  /** Reading each cell after its predecessors, without repeats, puts
      every edge forward. */
  lemma PredecessorsFirstTopological(g: Graph, order: seq<nat>)
    requires WellFormed(g) && NoDup(order)
    requires PredecessorsFirst(InvertGraph(g), order)
    ensures Topological(g, order)
  {
    var inv := InvertGraph(g);
    forall i, j, r | 0 <= i < |order| && 0 <= j < |order| && order[i] < |g| && Edge(r, order[j]) in g[order[i]]
      ensures i < j
    {
      InvertGraphMeaning(g, order[i], order[j], r);
      assert order[i] in order[..j];
      var m :| 0 <= m < j && order[..j][m] == order[i];
      assert order[m] == order[i];
    }
  }

  // ---------------------------------------------------------------------
  // readGraph

  /** After `poly` is read, a cell that became enabled is a target of
      `poly`'s list. */
  lemma NewlyEnabled(g: Graph, poly: nat, processed: set<nat>, q: nat)
    requires WellFormed(g) && poly < |g| && q < |g|
    requires !CanEnable(InvertGraph(g), q, processed)
    requires CanEnable(InvertGraph(g), q, processed + {poly})
    ensures exists a :: 0 <= a < |g[poly]| && g[poly][a].target == q
  {
    var inv := InvertGraph(g);
    var e: Edge :| e in inv[q] && e.target !in processed;
    assert e.target == poly;
    InvertGraphMeaning(g, poly, q, e.rel);
    var a :| 0 <= a < |g[poly]| && g[poly][a] == Edge(e.rel, q);
  }

  /** A target of `poly`'s list is not enabled while `poly` is unread. */
  lemma TargetWaits(g: Graph, poly: nat, processed: set<nat>, a: nat)
    requires WellFormed(g) && poly < |g| && a < |g[poly]| && poly !in processed
    ensures !CanEnable(InvertGraph(g), g[poly][a].target, processed)
  {
    var e := g[poly][a];
    assert e in g[poly];
    InvertGraphMeaning(g, poly, e.target, e.rel);
  }

  /** The stack holds distinct unread enabled cells. */
  ghost predicate StackOk(inv: Graph, stack: seq<nat>, processed: set<nat>) {
    (forall i :: 0 <= i < |stack| ==>
       stack[i] < |inv| && stack[i] !in processed && CanEnable(inv, stack[i], processed)) &&
    (forall x :: multiset(stack)[x] <= 1)
  }

  /** Every unread enabled cell is on the stack. */
  ghost predicate AllEnabledStacked(inv: Graph, stack: seq<nat>, processed: set<nat>) {
    forall q: nat :: q < |inv| && q !in processed && CanEnable(inv, q, processed) ==> q in stack
  }

  /** Some entry of `s` before position `k` leads to `q`. */
  predicate TargetBelow(s: seq<Edge>, q: nat, k: nat) {
    exists a :: 0 <= a < k && a < |s| && s[a].target == q
  }

  /** After `poly` is read and its list scanned up to `k`: every unread
      enabled cell that was enabled before, or is one of the scanned
      targets, is on the stack. */
  ghost predicate Covered(g: Graph, inv: Graph, poly: nat, before: set<nat>, stack: seq<nat>, k: nat)
    requires |inv| == |g| && poly < |g|
  {
    forall q: nat ::
      (q < |g| && q !in before + {poly} && CanEnable(inv, q, before + {poly}) &&
       (CanEnable(inv, q, before) || TargetBelow(g[poly], q, k))) ==> q in stack
  }

  /** One round of the loop over `graph[poly]`. */
  lemma PushStep(g: Graph, inv: Graph, poly: nat, before: set<nat>, stack: seq<nat>, k: nat)
    requires WellFormed(g) && |inv| == |g| && poly < |g| && k < |g[poly]|
    requires StackOk(inv, stack, before + {poly})
    requires forall a :: k <= a < |g[poly]| ==> g[poly][a].target !in stack
    requires Covered(g, inv, poly, before, stack, k)
    ensures var q := g[poly][k].target;
      var pushed := if q !in before + {poly} && CanEnable(inv, q, before + {poly}) then stack + [q] else stack;
      StackOk(inv, pushed, before + {poly}) &&
      (forall a :: k + 1 <= a < |g[poly]| ==> g[poly][a].target !in pushed) &&
      Covered(g, inv, poly, before, pushed, k + 1)
  {
    var q := g[poly][k].target;
    assert g[poly][k] in g[poly];
    var pushed := if q !in before + {poly} && CanEnable(inv, q, before + {poly}) then stack + [q] else stack;
    assert multiset(stack)[q] == 0;
    forall a | k + 1 <= a < |g[poly]|
      ensures g[poly][a].target != q
    {
    }
    forall q': nat | q' < |g| && q' !in before + {poly} && CanEnable(inv, q', before + {poly}) &&
      (CanEnable(inv, q', before) || TargetBelow(g[poly], q', k + 1))
      ensures q' in pushed
    {
      if q' != q && !CanEnable(inv, q', before) {
        var a :| 0 <= a < k + 1 && a < |g[poly]| && g[poly][a].target == q';
        assert TargetBelow(g[poly], q', k);
      }
    }
  }

  /** The loop over `graph[poly]` after `poly` is read: it pushes every
      target that became enabled. */
  method PushEnabled(g: Graph, inv: Graph, poly: nat, before: set<nat>, stack0: seq<nat>)
    returns (stack: seq<nat>)
    requires WellFormed(g) && inv == InvertGraph(g) && poly < |g| && poly !in before
    requires StackOk(inv, stack0, before + {poly})
    requires forall i :: 0 <= i < |stack0| ==> CanEnable(inv, stack0[i], before)
    requires forall q: nat :: q < |g| && q !in before + {poly} && CanEnable(inv, q, before) ==> q in stack0
    ensures StackOk(inv, stack, before + {poly})
    ensures AllEnabledStacked(inv, stack, before + {poly})
  {
    var processed := before + {poly};
    stack := stack0;
    var k := 0;
    forall a | 0 <= a < |g[poly]|
      ensures g[poly][a].target !in stack0
    {
      TargetWaits(g, poly, before, a);
    }
    while k < |g[poly]|
      invariant 0 <= k <= |g[poly]|
      invariant StackOk(inv, stack, processed)
      invariant forall a :: k <= a < |g[poly]| ==> g[poly][a].target !in stack
      invariant Covered(g, inv, poly, before, stack, k)
    {
      PushStep(g, inv, poly, before, stack, k);
      var q := g[poly][k].target;
      if q !in processed && CanEnable(inv, q, processed) {
        stack := stack + [q];
      }
      k := k + 1;
    }
    forall q: nat | q < |g| && q !in processed && CanEnable(inv, q, processed)
      ensures q in stack
    {
      if !CanEnable(inv, q, before) {
        NewlyEnabled(g, poly, before, q);
        var a :| 0 <= a < |g[poly]| && g[poly][a].target == q;
        assert TargetBelow(g[poly], q, k);
      }
    }
  }

  /** The first entry of a list whose targets all lie in `m` lies in `m`. */
  lemma FirstListed(s: seq<Edge>, m: set<nat>)
    ensures (forall e :: e in s ==> e.target in m) && |s| > 0 ==> s[0].target in m
  {
  }

  /** The initial stack, the enabled cells reversed so that the topmost is
      popped first, holds distinct cells with no predecessor ... */
  lemma InitialStackOk(inv: Graph, enabled: seq<nat>)
    requires forall p: nat :: p in enabled <==> p < |inv| && |inv[p]| == 0
    requires forall p :: multiset(enabled)[p] <= 1
    ensures StackOk(inv, Reverse(enabled), {})
  {
    var stack := Reverse(enabled);
    forall i | 0 <= i < |stack|
      ensures stack[i] < |inv| && CanEnable(inv, stack[i], {})
    {
      var q := enabled[|enabled| - 1 - i];
      assert stack[i] == q && q in enabled;
      assert |inv[q]| == 0;
    }
  }

  /** ... and every one of them. */
  lemma InitialStackComplete(inv: Graph, enabled: seq<nat>)
    requires forall p: nat :: p in enabled <==> p < |inv| && |inv[p]| == 0
    ensures AllEnabledStacked(inv, Reverse(enabled), {})
  {
    var stack := Reverse(enabled);
    forall q: nat | q < |inv| && CanEnable(inv, q, {})
      ensures q in stack
    {
      FirstListed(inv[q], {});
      assert q in multiset(enabled);
      assert q in multiset(stack);
    }
  }

  /** Popping the top of a complete stack yields an unread enabled cell
      and leaves a stack fit for `PushEnabled`. */
  lemma PopStep(inv: Graph, stack: seq<nat>, processed: set<nat>)
    requires StackOk(inv, stack, processed) && AllEnabledStacked(inv, stack, processed)
    requires |stack| > 0
    ensures var poly, rest := stack[|stack| - 1], stack[..|stack| - 1];
      poly < |inv| && poly !in processed && CanEnable(inv, poly, processed) &&
      StackOk(inv, rest, processed + {poly}) &&
      (forall i :: 0 <= i < |rest| ==> CanEnable(inv, rest[i], processed)) &&
      (forall q: nat :: (q < |inv| && q !in processed + {poly} && CanEnable(inv, q, processed)) ==> q in rest)
  {
    var poly, rest := stack[|stack| - 1], stack[..|stack| - 1];
    assert stack == rest + [poly];
    assert multiset(stack) == multiset(rest) + multiset{poly};
    assert poly !in rest by {
      assert multiset(stack)[poly] <= 1;
    }
    forall i | 0 <= i < |rest|
      ensures CanEnable(inv, rest[i], processed + {poly})
    {
      assert rest[i] == stack[i];
    }
    forall x
      ensures multiset(rest)[x] <= 1
    {
      assert multiset(stack)[x] <= 1;
    }
    forall q: nat | q < |inv| && q !in processed + {poly} && CanEnable(inv, q, processed)
      ensures q in rest
    {
      assert q in stack;
    }
  }

  /** Appending an unread cell all of whose predecessors are listed keeps
      `order` duplicate-free and predecessor-first. */
  lemma AppendReady(inv: Graph, order: seq<nat>, processed: set<nat>, poly: nat, keepsOrder: bool)
    requires forall x :: x in processed <==> x in order
    requires NoDup(order) && poly !in order
    requires keepsOrder ==> PredecessorsFirst(inv, order)
    requires keepsOrder && poly < |inv| ==> CanEnable(inv, poly, processed)
    ensures NoDup(order + [poly])
    ensures keepsOrder ==> PredecessorsFirst(inv, order + [poly])
  {
    var o := order + [poly];
    forall i, e: Edge | keepsOrder && 0 <= i < |o| && o[i] < |inv| && e in inv[o[i]]
      ensures e.target in o[..i]
    {
      if i < |order| {
        assert o[..i] == order[..i];
      } else {
        assert o[..i] == order;
      }
    }
  }

  /** The state `readGraph` keeps between rounds: `processed` is the set of
      read cells, the stack is complete, and while no fallback ran every
      read cell follows its predecessors. */
  ghost predicate ReadState(g: Graph, inv: Graph, order: seq<nat>, processed: set<nat>, stack: seq<nat>, fellBack: bool)
    requires |inv| == |g|
  {
    (forall x :: x in processed <==> x in order) &&
    (forall x :: x in processed ==> x < |g|) &&
    |processed| == |order| <= |g| && NoDup(order) &&
    StackOk(inv, stack, processed) && AllEnabledStacked(inv, stack, processed) &&
    (!fellBack ==> PredecessorsFirst(inv, order))
  }

  /** Reads `poly`: appends it and pushes the cells it enables. */
  method Visit(g: Graph, inv: Graph, order: seq<nat>, processed: set<nat>, stack: seq<nat>, poly: nat, ghost keepsOrder: bool)
    returns (order': seq<nat>, processed': set<nat>, stack': seq<nat>)
    requires WellFormed(g) && inv == InvertGraph(g) && poly < |g| && poly !in processed
    requires forall x :: x in processed <==> x in order
    requires forall x :: x in processed ==> x < |g|
    requires |processed| == |order| && NoDup(order)
    requires keepsOrder ==> PredecessorsFirst(inv, order) && CanEnable(inv, poly, processed)
    requires StackOk(inv, stack, processed + {poly})
    requires forall i :: 0 <= i < |stack| ==> CanEnable(inv, stack[i], processed)
    requires forall q: nat :: (q < |g| && q !in processed + {poly} && CanEnable(inv, q, processed)) ==> q in stack
    ensures ReadState(g, inv, order', processed', stack', !keepsOrder)
    ensures order' == order + [poly]
  {
    AppendReady(inv, order, processed, poly, keepsOrder);
    order' := order + [poly];
    processed' := processed + {poly};
    stack' := PushEnabled(g, inv, poly, processed, stack);
    RangeCard(processed', |g|);
  }

  /** A round of `readGraph` with a non-empty stack: the top is read. */
  method ReadTop(g: Graph, inv: Graph, order: seq<nat>, processed: set<nat>, stack: seq<nat>, ghost fellBack: bool)
    returns (order': seq<nat>, processed': set<nat>, stack': seq<nat>)
    requires WellFormed(g) && inv == InvertGraph(g)
    requires ReadState(g, inv, order, processed, stack, fellBack)
    requires |stack| != 0
    ensures ReadState(g, inv, order', processed', stack', fellBack)
    ensures order' == order + [stack[|stack| - 1]]
  {
    PopStep(inv, stack, processed);
    var poly := stack[|stack| - 1];
    order', processed', stack' := Visit(g, inv, order, processed, stack[..|stack| - 1], poly, !fellBack);
  }

  /** A round of `readGraph` with an empty stack: `getNextPolygon` picks
      the cell, which happens only on a cyclic graph. */
  method ReadFallback(g: Graph, inv: Graph, ps: seq<Shape>, order: seq<nat>, processed: set<nat>, ghost fellBack: bool)
    returns (order': seq<nat>, processed': set<nat>, stack': seq<nat>)
    requires WellFormed(g) && inv == InvertGraph(g) && |ps| == |g|
    requires ReadState(g, inv, order, processed, [], fellBack)
    requires |processed| != |g|
    ensures ReadState(g, inv, order', processed', stack', true)
    ensures |order'| == |order| + 1 && order'[..|order|] == order
    ensures !Acyclic(g)
  {
    RangeCard(processed, |g|);
    var p0: nat :| p0 < |g| && p0 !in processed;
    StuckMeansCyclic(g, processed, p0);
    var poly := GetNextPolygon(inv, ps, processed);
    order', processed', stack' := Visit(g, inv, order, processed, [], poly, false);
    assert order'[..|order|] == order;
  }

  /** Once every cell is read the order is a permutation of the cells,
      and a topological order when no fallback ran. */
  lemma ReadComplete(g: Graph, order: seq<nat>, processed: set<nat>, stack: seq<nat>, fellBack: bool)
    requires WellFormed(g)
    requires ReadState(g, InvertGraph(g), order, processed, stack, fellBack)
    requires fellBack ==> !Acyclic(g)
    requires |processed| == |g|
    ensures |order| == |g| && NoDup(order)
    ensures forall p :: 0 <= p < |g| ==> p in order
    ensures forall i :: 0 <= i < |order| ==> order[i] < |g|
    ensures Acyclic(g) ==> Topological(g, order)
  {
    forall p | 0 <= p < |g|
      ensures p in order
    {
      RangeCard(processed, |g|);
    }
    forall i | 0 <= i < |order|
      ensures order[i] < |g|
    {
      assert order[i] in processed;
    }
    if Acyclic(g) {
      PredecessorsFirstTopological(g, order);
    }
  }

  /** `readGraph`: yields every cell exactly once. On an acyclic graph
      the fallback never runs and every cell comes after all its
      predecessors; otherwise `getNextPolygon` picks a cell whenever the
      stack is empty. The first cell read is the topmost one nothing
      precedes. */
  method ReadGraph(g: Graph, ps: seq<Shape>) returns (order: seq<nat>)
    requires WellFormed(g) && |ps| == |g|
    ensures |order| == |g| && NoDup(order)
    ensures forall p :: 0 <= p < |g| ==> p in order
    ensures forall i :: 0 <= i < |order| ==> order[i] < |g|
    ensures Acyclic(g) ==> Topological(g, order)
    ensures |order| > 0 && EnabledPolygons(InvertGraph(g), ps) != [] ==>
      order[0] == EnabledPolygons(InvertGraph(g), ps)[0]
  {
    var inv := InvertGraph(g);
    var enabled := EnabledPolygons(inv, ps);
    var stack := Reverse(enabled);
    InitialStackOk(inv, enabled);
    InitialStackComplete(inv, enabled);
    var processed: set<nat> := {};
    order := [];
    ghost var fellBack := false;
    while |processed| != |g|
      invariant ReadState(g, inv, order, processed, stack, fellBack)
      invariant fellBack ==> !Acyclic(g)
      invariant |order| == 0 ==> stack == Reverse(enabled)
      invariant |order| > 0 && enabled != [] ==> order[0] == enabled[0]
      decreases |g| - |order|
    {
      ghost var prefix := order;
      if |stack| != 0 {
        order, processed, stack := ReadTop(g, inv, order, processed, stack, fellBack);
      } else {
        order, processed, stack := ReadFallback(g, inv, ps, order, processed, fellBack);
        fellBack := true;
      }
      if |prefix| == 0 && enabled != [] {
        assert Reverse(enabled)[|enabled| - 1] == enabled[0];
      } else if |prefix| > 0 {
        assert order[0] == prefix[0];
      }
    }
    ReadComplete(g, order, processed, stack, fellBack);
  }

  /** `GetReadingOrder`: the relation graph of the cells, pruned, then
      read. Every cell appears exactly once. */
  method GetReadingOrder(cells: seq<Shape>) returns (ordered: seq<Shape>, order: seq<nat>)
    ensures |order| == |cells| && NoDup(order)
    ensures forall p :: 0 <= p < |cells| ==> p in order
    ensures |ordered| == |order|
    ensures forall i :: 0 <= i < |order| ==> order[i] < |cells| && ordered[i] == cells[order[i]]
    ensures Acyclic(SimplifyTransitiveClosure(BuildRelationGraph(cells))) ==>
      Topological(SimplifyTransitiveClosure(BuildRelationGraph(cells)), order)
  {
    var g := SimplifyTransitiveClosure(BuildRelationGraph(cells));
    order := ReadGraph(g, cells);
    ordered := seq(|order|, i requires 0 <= i < |order| => cells[order[i]]);
  }
}
