/** The relation graph of DefaultReadingOrder: the pairwise comparison of
    two cells, the graph of all non-trivial relations, its pruning of edges
    implied by two-step paths, and its inversion. A polygon is identified
    by its index in the input list; the graph is a list of edge lists with
    one entry per polygon, in input order, which is the order in which the
    dictionary was filled. */
module ReadingGraph {
  import opened Util
  import opened Drawing
  import opened ReadingUtilities
  import opened Shapes
  import opened Sorting

  /** `CellsRelation`; `Unrelated` is the enumeration's `None`. The
      declaration order is the order `CompareTo` sorts by. */
  datatype CellsRelation = Unrelated | BottomOf | RightOf

  function RelationKey(r: CellsRelation): int {
    match r
    case Unrelated => 0
    case BottomOf => 1
    case RightOf => 2
  }

  /** One entry of a connectivity list: the relation and the other cell. */
  datatype Edge = Edge(rel: CellsRelation, target: nat)

  function EdgeKey(e: Edge): int { RelationKey(e.rel) }

  type Graph = seq<seq<Edge>>

  // ---------------------------------------------------------------------
  // Compare

  /** The box `Compare` works with: `Inflate` by minus a tenth of the width
      and height, truncated toward zero as the `(int)` cast does. */
  function Shrunk(b: Rect): Rect {
    Inflate(b, CDiv(-b.width, 10), CDiv(-b.height, 10))
  }

  /** For a box of non-negative size the shrink takes a tenth, rounded
      down, off every side. */
  lemma ShrunkMeaning(b: Rect)
    requires b.NonNegative()
    ensures Shrunk(b) == Rect(b.x + b.width / 10, b.y + b.height / 10,
                              b.width - 2 * (b.width / 10), b.height - 2 * (b.height / 10))
  {
    CDivOdd(b.width, 10);
    CDivNonNegative(b.width, 10);
    CDivOdd(b.height, 10);
    CDivNonNegative(b.height, 10);
  }

  /** The early exit of `Compare`: the second box lies wholly left of or
      wholly above the first. */
  predicate BoxesApart(b1: Rect, b2: Rect) {
    b2.Right() < b1.Left() || b2.Bottom() < b1.Top()
  }

  /** `Compare(p1, p2)`: where p2 lies relative to p1. Unless the shrunk
      boxes are separated, p2 is RightOf p1 exactly when they share rows and
      its centre is further right, and BottomOf exactly when they share no
      rows and its centre is further down. */
  function Compare(p1: Shape, p2: Shape): (r: CellsRelation)
    ensures r == RightOf <==> !BoxesApart(Shrunk(Box(p1)), Shrunk(Box(p2)))
                              && HeightIntersect(Shrunk(Box(p1)), Shrunk(Box(p2))) && Cog(p2).x > Cog(p1).x
    ensures r == BottomOf <==> !BoxesApart(Shrunk(Box(p1)), Shrunk(Box(p2)))
                               && !HeightIntersect(Shrunk(Box(p1)), Shrunk(Box(p2))) && Cog(p2).y > Cog(p1).y
    ensures BoxesApart(Shrunk(Box(p1)), Shrunk(Box(p2))) ==> r == Unrelated
  {
    var g1 := Cog(p1);
    var g2 := Cog(p2);
    var b1 := Shrunk(Box(p1));
    var b2 := Shrunk(Box(p2));
    if BoxesApart(b1, b2) then Unrelated
    else if HeightIntersect(b1, b2) then (if g2.x > g1.x then RightOf else Unrelated)
    else if g2.y > g1.y then BottomOf
    else Unrelated
  }

  /** The comparison is antisymmetric: if p2 is related to p1, then p1 is
      not related to p2 at all. A cell is never related to itself. So the
      relation graph has no cycle of length one or two. */
  lemma CompareAntisymmetric(p1: Shape, p2: Shape)
    ensures Compare(p1, p2) != Unrelated ==> Compare(p2, p1) == Unrelated
    ensures Compare(p1, p1) == Unrelated
  {
    var b1 := Shrunk(Box(p1));
    var b2 := Shrunk(Box(p2));
    assert HeightIntersect(b1, b2) == HeightIntersect(b2, b1);
  }

  // ---------------------------------------------------------------------
  // Well-formed graphs

  predicate DistinctTargets(s: seq<Edge>) {
    forall a, b :: 0 <= a < b < |s| ==> s[a].target != s[b].target
  }

  predicate Ascending(s: seq<Edge>) {
    forall a, b :: 0 <= a < b < |s| ==> s[a].target < s[b].target
  }

  /** Every edge leads to another polygon of the graph with a real
      relation, and no list names a polygon twice. */
  predicate WellFormed(g: Graph) {
    (forall p, e :: 0 <= p < |g| && e in g[p] ==> e.target < |g| && e.target != p && e.rel != Unrelated) &&
    (forall p :: 0 <= p < |g| ==> DistinctTargets(g[p]))
  }

  /** The edges of `s` with relation `r`, in order. */
  function WithRelation(s: seq<Edge>, r: CellsRelation): (f: seq<Edge>)
    ensures forall e :: e in f <==> e in s && e.rel == r
    ensures |f| <= |s|
  {
    if |s| == 0 then []
    else
      assert forall e :: e in s <==> e == s[0] || e in s[1..];
      (if s[0].rel == r then [s[0]] else []) + WithRelation(s[1..], r)
  }

  /** Filtering keeps ascending targets ascending. */
  lemma {:induction false} WithRelationAscending(s: seq<Edge>, r: CellsRelation)
    requires Ascending(s)
    ensures Ascending(WithRelation(s, r))
  {
    if |s| > 0 {
      WithRelationAscending(s[1..], r);
      if s[0].rel == r {
        var rest := WithRelation(s[1..], r);
        HeadBelowTail(s, rest);
        AscendingCons(s[0], rest);
      }
    }
  }

  lemma HeadBelowTail(s: seq<Edge>, rest: seq<Edge>)
    requires |s| > 0 && Ascending(s)
    requires forall e :: e in rest ==> e in s[1..]
    ensures forall e :: e in rest ==> s[0].target < e.target
  {
    forall e | e in rest
      ensures s[0].target < e.target
    {
      var k :| 0 <= k < |s[1..]| && s[1..][k] == e;
      assert s[k + 1] == e;
    }
  }

  lemma AscendingCons(x: Edge, rest: seq<Edge>)
    requires Ascending(rest) && forall e :: e in rest ==> x.target < e.target
    ensures Ascending([x] + rest)
  {
    var f := [x] + rest;
    forall a, b | 0 <= a < b < |f|
      ensures f[a].target < f[b].target
    {
      assert f[b] == rest[b - 1] && f[b] in rest;
      if a > 0 {
        assert f[a] == rest[a - 1];
      }
    }
  }

  /** The stable sort by relation of a list without `Unrelated` entries:
      the `BottomOf` entries, then the `RightOf` entries, each in their
      order. */
  function SortByRelation(s: seq<Edge>): (r: seq<Edge>)
    ensures forall e :: e in r <==> e in s && (e.rel == BottomOf || e.rel == RightOf)
  {
    WithRelation(s, BottomOf) + WithRelation(s, RightOf)
  }

  /** In a list naming each target once in ascending order, sorting by
      relation keeps the targets distinct. */
  lemma SortByRelationDistinct(s: seq<Edge>)
    requires Ascending(s)
    ensures DistinctTargets(SortByRelation(s))
  {
    var x := WithRelation(s, BottomOf);
    var y := WithRelation(s, RightOf);
    WithRelationAscending(s, BottomOf);
    WithRelationAscending(s, RightOf);
    forall e, f | e in s && f in s && e.target == f.target
      ensures e == f
    {
      var a :| 0 <= a < |s| && s[a] == e;
      var b :| 0 <= b < |s| && s[b] == f;
      assert a == b;
    }
    var r := x + y;
    forall a, b | 0 <= a < b < |r|
      ensures r[a].target != r[b].target
    {
      if b < |x| {
        assert r[a] == x[a] && r[b] == x[b];
      } else if a >= |x| {
        assert r[a] == y[a - |x|] && r[b] == y[b - |x|];
      } else {
        assert r[a] in x && r[b] in y;
      }
    }
  }

  // ---------------------------------------------------------------------
  // BuildRelationGraph

  /** The connectivity list of polygon `i` before sorting, as the inner
      loop builds it from the first `k` polygons. */
  function Connectivity(ps: seq<Shape>, i: nat, k: nat): (s: seq<Edge>)
    requires i < |ps| && k <= |ps|
    ensures forall e :: e in s <==>
      e.target < k && e.target != i && e.rel != Unrelated && Compare(ps[i], ps[e.target]) == e.rel
    ensures Ascending(s)
  {
    if k == 0 then []
    else
      var rest := Connectivity(ps, i, k - 1);
      var rel := Compare(ps[i], ps[k - 1]);
      if k - 1 != i && rel != Unrelated then
        AppendEdge(rest, Edge(rel, k - 1));
        rest + [Edge(rel, k - 1)]
      else rest
  }

  /** Appending an edge to a higher polygon keeps a list ascending. */
  lemma AppendEdge(s: seq<Edge>, e: Edge)
    requires Ascending(s) && forall x :: x in s ==> x.target < e.target
    ensures Ascending(s + [e])
    ensures forall x :: x in s + [e] <==> x in s || x == e
  {
    var r := s + [e];
    forall a, b | 0 <= a < b < |r|
      ensures r[a].target < r[b].target
    {
      assert r[a] == s[a];
      if b < |s| {
        assert r[b] == s[b];
      } else {
        assert s[a] in s;
      }
    }
  }

  /** `BuildRelationGraph`: every polygon is a key, and its list holds each
      other polygon it relates to, `BottomOf` entries first. */
  function BuildRelationGraph(ps: seq<Shape>): (g: Graph)
    ensures |g| == |ps|
    ensures WellFormed(g)
    ensures forall p1, r, p2 :: 0 <= p1 < |ps| && 0 <= p2 < |ps| ==>
      (Edge(r, p2) in g[p1] <==> p1 != p2 && r != Unrelated && Compare(ps[p1], ps[p2]) == r)
    ensures forall p, a, b :: 0 <= p < |g| && 0 <= a < b < |g[p]| ==> EdgeKey(g[p][a]) <= EdgeKey(g[p][b])
  {
    var g := seq(|ps|, i requires 0 <= i < |ps| => SortByRelation(Connectivity(ps, i, |ps|)));
    forall i | 0 <= i < |ps|
      ensures DistinctTargets(g[i])
      ensures forall a, b :: 0 <= a < b < |g[i]| ==> EdgeKey(g[i][a]) <= EdgeKey(g[i][b])
    {
      SortByRelationDistinct(Connectivity(ps, i, |ps|));
      SortByRelationSorted(Connectivity(ps, i, |ps|));
    }
    g
  }

  /** Sorting by relation puts no `RightOf` entry before a `BottomOf`
      entry. */
  lemma SortByRelationSorted(s: seq<Edge>)
    ensures forall a, b :: 0 <= a < b < |SortByRelation(s)| ==>
      EdgeKey(SortByRelation(s)[a]) <= EdgeKey(SortByRelation(s)[b])
  {
    var x := WithRelation(s, BottomOf);
    var y := WithRelation(s, RightOf);
    var r := x + y;
    forall a, b | 0 <= a < b < |r|
      ensures EdgeKey(r[a]) <= EdgeKey(r[b])
    {
      if b < |x| {
        assert r[a] in x && r[b] in x;
      } else if a >= |x| {
        assert r[a] == y[a - |x|] && r[b] == y[b - |x|];
        assert r[a] in y && r[b] in y;
      } else {
        assert r[a] in x;
      }
    }
  }

  /** The relation graph has no two-cycles: an edge in one direction rules
      out any edge back. */
  lemma RelationGraphAntisymmetric(ps: seq<Shape>, p1: nat, p2: nat, r1: CellsRelation, r2: CellsRelation)
    requires p1 < |ps| && p2 < |ps|
    requires Edge(r1, p2) in BuildRelationGraph(ps)[p1]
    ensures Edge(r2, p1) !in BuildRelationGraph(ps)[p2]
  {
    CompareAntisymmetric(ps[p1], ps[p2]);
  }

  // ---------------------------------------------------------------------
  // SimplifyTransitiveClosure

  /** The source's removal test for the edge `e` of polygon `p`: some edge
      `via` of `p` leads to a polygon that has `e` itself, and `via` is
      `BottomOf`, or both are `RightOf`. It reads the graph as it was
      before any removal. */
  predicate Shortcut(g: Graph, p: nat, e: Edge)
    requires p < |g|
  {
    exists via :: via in g[p] && via.target < |g| &&
      (via.rel == BottomOf || (via.rel == RightOf && e.rel == RightOf)) &&
      e in g[via.target]
  }

  /** The edges of `s`, a list of polygon `p`, that are not shortcuts. */
  function KeepDirect(g: Graph, p: nat, s: seq<Edge>): (f: seq<Edge>)
    requires p < |g|
    ensures forall e :: e in f <==> e in s && !Shortcut(g, p, e)
    ensures DistinctTargets(s) ==> DistinctTargets(f)
    ensures Subsequence(f, s)
  {
    if |s| == 0 then []
    else
      var rest := KeepDirect(g, p, s[1..]);
      assert forall e :: e in s <==> e == s[0] || e in s[1..];
      assert DistinctTargets(s) ==> DistinctTargets(s[1..]) && forall e :: e in s[1..] ==> e.target != s[0].target by {
        if DistinctTargets(s) {
          forall e | e in s[1..]
            ensures e.target != s[0].target
          {
            var k :| 0 <= k < |s[1..]| && s[1..][k] == e;
            assert s[k + 1] == e;
          }
        }
      }
      if !Shortcut(g, p, s[0]) then
        var f := [s[0]] + rest;
        assert f[1..] == rest;
        assert DistinctTargets(s) ==> DistinctTargets(f) by {
          if DistinctTargets(s) {
            forall a, b | 0 <= a < b < |f|
              ensures f[a].target != f[b].target
            {
              assert f[b] == rest[b - 1] && f[b] in rest;
              if a > 0 {
                assert f[a] == rest[a - 1];
              }
            }
          }
        }
        f
      else
        rest
  }

  /** `SimplifyTransitiveClosure`: each list loses the edges a two-step
      path through a `BottomOf` edge, or through two `RightOf` edges,
      already implies. Keys and the order of what remains are kept. */
  function SimplifyTransitiveClosure(g: Graph): (h: Graph)
    requires WellFormed(g)
    ensures |h| == |g|
    ensures WellFormed(h)
    ensures forall p :: 0 <= p < |g| ==> Subsequence(h[p], g[p])
    ensures forall p, e :: 0 <= p < |g| ==> (e in h[p] <==> e in g[p] && !Shortcut(g, p, e))
  {
    seq(|g|, p requires 0 <= p < |g| => KeepDirect(g, p, g[p]))
  }

  /** A `BottomOf` step followed by any step, or two `RightOf` steps, are
      never both kept along with the direct edge they imply. */
  lemma SimplifyRemovesImplied(g: Graph, p1: nat, via: Edge, e: Edge)
    requires WellFormed(g) && p1 < |g|
    requires via in g[p1] && e in g[via.target] && e in g[p1]
    requires via.rel == BottomOf || (via.rel == RightOf && e.rel == RightOf)
    ensures e !in SimplifyTransitiveClosure(g)[p1]
  {
  }

  // ---------------------------------------------------------------------
  // invertGraph

  /** The reversed edges of list `s`, the list of polygon `p`, that lead
      to `q`. */
  function EdgesTo(s: seq<Edge>, q: nat, p: nat): (f: seq<Edge>)
    ensures forall e :: e in f <==> e.target == p && Edge(e.rel, q) in s
  {
    if |s| == 0 then []
    else
      assert forall e :: e in s <==> e == s[0] || e in s[1..];
      (if s[0].target == q then [Edge(s[0].rel, p)] else []) + EdgesTo(s[1..], q, p)
  }

  /** A list not naming `q` yields no reversed edge. */
  lemma EdgesToNone(s: seq<Edge>, q: nat, p: nat)
    requires forall k :: 0 <= k < |s| ==> s[k].target != q
    ensures EdgesTo(s, q, p) == []
  {
  }

  /** A list naming `q` at most once yields at most one reversed edge. */
  lemma {:induction false} EdgesToAtMostOne(s: seq<Edge>, q: nat, p: nat)
    requires DistinctTargets(s)
    ensures |EdgesTo(s, q, p)| <= 1
  {
    if |s| > 0 {
      EdgesToAtMostOne(s[1..], q, p);
      if s[0].target == q {
        forall k | 0 <= k < |s[1..]|
          ensures s[1..][k].target != q
        {
          assert s[1..][k] == s[k + 1];
        }
        EdgesToNone(s[1..], q, p);
      }
    }
  }

  /** The entries `invertGraph` adds to the list of `q` while it walks
      the first `k` polygons. */
  function Incoming(g: Graph, q: nat, k: nat): (f: seq<Edge>)
    requires k <= |g|
    requires forall p :: 0 <= p < |g| ==> DistinctTargets(g[p])
    ensures forall e :: e in f <==> e.target < k && Edge(e.rel, q) in g[e.target]
    ensures Ascending(f)
  {
    if k == 0 then []
    else
      var rest := Incoming(g, q, k - 1);
      var last := EdgesTo(g[k - 1], q, k - 1);
      EdgesToAtMostOne(g[k - 1], q, k - 1);
      if |last| == 0 then rest
      else
        assert last == [last[0]] && last[0] in last;
        AppendEdge(rest, last[0]);
        rest + last
  }

  /** `invertGraph`: the same keys, every edge reversed, each list sorted
      by relation. */
  function InvertGraph(g: Graph): (inv: Graph)
    requires WellFormed(g)
    ensures |inv| == |g|
    ensures WellFormed(inv)
    ensures forall q, a, b :: 0 <= q < |inv| && 0 <= a < b < |inv[q]| ==> EdgeKey(inv[q][a]) <= EdgeKey(inv[q][b])
  {
    var inv := seq(|g|, q requires 0 <= q < |g| => SortByRelation(Incoming(g, q, |g|)));
    forall q | 0 <= q < |g|
      ensures DistinctTargets(inv[q])
      ensures forall a, b :: 0 <= a < b < |inv[q]| ==> EdgeKey(inv[q][a]) <= EdgeKey(inv[q][b])
    {
      SortByRelationDistinct(Incoming(g, q, |g|));
      SortByRelationSorted(Incoming(g, q, |g|));
    }
    inv
  }

  /** An entry (r, p1) in the inverse list of p2 is exactly an entry
      (r, p2) in the list of p1. */
  lemma InvertGraphMeaning(g: Graph, p1: nat, p2: nat, r: CellsRelation)
    requires WellFormed(g) && p2 < |g|
    ensures Edge(r, p1) in InvertGraph(g)[p2] <==> p1 < |g| && Edge(r, p2) in g[p1]
  {
    if p1 < |g| {
      assert Edge(r, p2) in g[p1] ==> r != Unrelated;
    }
  }
}
