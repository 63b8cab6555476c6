/** The invariant the throw in `Blob.MergeWith` guards: no region belongs to
    two registered blobs. It holds for the row merge once the owners already
    found for the current row are renamed along with the previous row's
    (`fixed`); in that version no merge ever fails. */
module RasterDisjoint {
  import opened Util
  import opened Blobs
  import opened Raster

  /** No region of `a` is a region of `b`. */
  predicate Apart(a: Blob, b: Blob) {
    forall r :: r in a.content ==> r !in b.content
  }

  /** The blobs named by `owners` are pairwise apart. */
  predicate Disjoint(arena: seq<Blob>, owners: set<nat>) {
    forall p, q :: p in owners && q in owners && p != q && p < |arena| && q < |arena| ==> Apart(arena[p], arena[q])
  }

  /** `p` is registered or owns a segment of the current row. */
  predicate IsOwner(live: set<nat>, result: seq<nat>, p: nat) {
    p in live || p in result
  }

  /** `Disjoint` over the registered blobs and the current row's owners. */
  ghost predicate OwnersApart(arena: seq<Blob>, live: set<nat>, result: seq<nat>) {
    forall p: nat, q: nat :: IsOwner(live, result, p) && IsOwner(live, result, q) && p != q && p < |arena| && q < |arena| ==>
      Apart(arena[p], arena[q])
  }

  /** A segment of row `y` lies before the `n`-th segment of the row. */
  predicate Before(seg: Segment, cur: seq<Segment>, n: nat) {
    n < |cur| ==> seg.to < cur[n].from
  }

  /** Every region of `b` is on a row above `y`, or on row `y` before the
      `n`-th segment of that row. */
  predicate Placed(b: Blob, y: int, cur: seq<Segment>, n: nat) {
    forall r :: r in b.content ==> r.row < y || (r.row == y && Before(r.seg, cur, n))
  }

  ghost predicate OwnersPlaced(arena: seq<Blob>, live: set<nat>, result: seq<nat>, y: int, cur: seq<Segment>, n: nat) {
    forall p: nat :: IsOwner(live, result, p) && p < |arena| ==> Placed(arena[p], y, cur, n)
  }

  /** The owner found for each segment of the current row holds its region. */
  predicate Owned(arena: seq<Blob>, result: seq<nat>, y: int, cur: seq<Segment>) {
    forall m :: 0 <= m < |result| && m < |cur| && result[m] < |arena| ==> Region(y, cur[m]) in arena[result[m]].content
  }

  /** Every region of `b` is on a row above `y`. */
  predicate Below(b: Blob, y: int) {
    forall r :: r in b.content ==> r.row < y
  }

  /** The loop invariant of the corrected merge. */
  ghost predicate Inv(s: MergeState, lastRow: seq<Segment>, cur: seq<Segment>, y: int) {
    Indexed(s, lastRow, cur) &&
    (forall p :: p in s.live ==> p < |s.arena|) &&
    (forall k :: s.j <= k < |s.lastBlobs| ==> s.lastBlobs[k] in s.live) &&
    (s.resultBlob.Some? ==> s.resultBlob.value in s.live) &&
    OwnersApart(s.arena, s.live, s.result) &&
    OwnersPlaced(s.arena, s.live, s.result, y, cur, |s.result|) &&
    Owned(s.arena, s.result, y, cur)
  }

  // ---------------------------------------------------------------------
  // Facts about separated rows

  lemma {:induction false} SeparatedOrder(segs: seq<Segment>, k: nat, m: nat)
    requires Separated(segs) && k < m < |segs|
    ensures segs[k].to < segs[m].from
    decreases m - k
  {
    if k + 1 < m {
      SeparatedOrder(segs, k + 1, m);
    }
  }

  /** Lying before a segment implies lying before every later one. */
  lemma PlacedAdvance(b: Blob, y: int, cur: seq<Segment>, n: nat, n': nat)
    requires Separated(cur) && n <= n' && Placed(b, y, cur, n)
    ensures Placed(b, y, cur, n')
  {
    if n < n' < |cur| {
      SeparatedOrder(cur, n, n');
    }
  }

  /** The region of the `n`-th segment is in no blob placed before it. */
  lemma Unseen(b: Blob, y: int, cur: seq<Segment>, n: nat)
    requires Separated(cur) && n < |cur| && Placed(b, y, cur, n)
    ensures Region(y, cur[n]) !in b.content
  {
  }

  // ---------------------------------------------------------------------
  // The three ways a step changes the arena

  /** A new blob apart from every owner joins the owners. */
  lemma AppendApart(arena: seq<Blob>, live: set<nat>, result: seq<nat>, b: Blob)
    requires OwnersApart(arena, live, result)
    requires forall p: nat :: IsOwner(live, result, p) ==> p < |arena|
    requires forall p: nat :: IsOwner(live, result, p) ==> Apart(arena[p], b) && Apart(b, arena[p])
    ensures OwnersApart(arena + [b], live, result + [|arena|])
  {
    var a' := arena + [b];
    forall p: nat, q: nat | IsOwner(live, result + [|arena|], p) && IsOwner(live, result + [|arena|], q) && p != q && p < |a'| && q < |a'|
      ensures Apart(a'[p], a'[q])
    {
      if p < |arena| && q < |arena| {
        assert IsOwner(live, result, p) && IsOwner(live, result, q);
      }
    }
  }

  /** An owner replaced by a blob apart from every other owner. */
  lemma UpdateApart(arena: seq<Blob>, live: set<nat>, result: seq<nat>, p0: nat, b: Blob)
    requires OwnersApart(arena, live, result) && p0 in live && p0 < |arena|
    requires forall q: nat :: IsOwner(live, result, q) && q != p0 && q < |arena| ==> Apart(arena[q], b) && Apart(b, arena[q])
    ensures OwnersApart(arena[p0 := b], live, result + [p0])
  {
    var a' := arena[p0 := b];
    forall p: nat, q: nat | IsOwner(live, result + [p0], p) && IsOwner(live, result + [p0], q) && p != q && p < |a'| && q < |a'|
      ensures Apart(a'[p], a'[q])
    {
      assert IsOwner(live, result, p) && IsOwner(live, result, q);
    }
  }

  /** `prev` absorbed into `rb`: dropped from the owners, renamed to `rb`. */
  lemma AbsorbApart(arena: seq<Blob>, live: set<nat>, result: seq<nat>, rb: nat, prev: nat, merged: Blob)
    requires OwnersApart(arena, live, result)
    requires rb in live && prev in live && rb != prev && rb < |arena| && prev < |arena|
    requires forall r :: r in merged.content ==> r in arena[rb].content || r in arena[prev].content
    ensures OwnersApart(arena[rb := merged], live - {prev}, Retarget(result, 0, prev, rb))
  {
    var a' := arena[rb := merged];
    var res' := Retarget(result, 0, prev, rb);
    forall p: nat | IsOwner(live - {prev}, res', p)
      ensures IsOwner(live, result, p) && p != prev
    {
      if p in res' {
        var k :| 0 <= k < |res'| && res'[k] == p;
        assert result[k] in result;
      }
    }
    forall p: nat, q: nat | IsOwner(live - {prev}, res', p) && IsOwner(live - {prev}, res', q) && p != q && p < |a'| && q < |a'|
      ensures Apart(a'[p], a'[q])
    {
      assert Apart(arena[p], arena[q]);
      if p == rb {
        assert Apart(arena[prev], arena[q]);
      } else if q == rb {
        assert Apart(arena[p], arena[prev]);
      }
    }
  }

  // ---------------------------------------------------------------------
  // One step of the loop

  /** A fresh blob for the `i`-th segment, appended to the arena, keeps the
      owners apart and placed before the next segment. */
  lemma AppendFresh(arena: seq<Blob>, live: set<nat>, result: seq<nat>, y: int, cur: seq<Segment>, i: nat)
    requires Separated(cur) && i < |cur|
    requires forall p: nat :: IsOwner(live, result, p) ==> p < |arena|
    requires OwnersApart(arena, live, result) && OwnersPlaced(arena, live, result, y, cur, i)
    ensures OwnersApart(arena + [SingleBlob(y, cur[i])], live, result + [|arena|])
    ensures OwnersPlaced(arena + [SingleBlob(y, cur[i])], live, result + [|arena|], y, cur, i + 1)
  {
    var n := |arena|;
    var b := SingleBlob(y, cur[i]);
    forall p: nat | IsOwner(live, result, p)
      ensures Apart(arena[p], b) && Apart(b, arena[p])
    {
      Unseen(arena[p], y, cur, i);
    }
    AppendApart(arena, live, result, b);
    forall p: nat | IsOwner(live, result + [n], p) && p < n + 1
      ensures Placed((arena + [b])[p], y, cur, i + 1)
    {
      if p < n {
        assert IsOwner(live, result, p);
        PlacedAdvance(arena[p], y, cur, i, i + 1);
      } else if i + 1 < |cur| {
        SeparatedOrder(cur, i, i + 1);
      }
    }
  }

  /** A current segment touching no previous one gets a fresh blob. */
  lemma FreshInv(s: MergeState, lastRow: seq<Segment>, cur: seq<Segment>, y: int)
    requires Inv(s, lastRow, cur, y) && Separated(cur)
    requires s.i < |cur| && s.resultBlob.None?
    ensures Inv(s.(i := s.i + 1, result := s.result + [|s.arena|], arena := s.arena + [SingleBlob(y, cur[s.i])]), lastRow, cur, y)
  {
    var n := |s.arena|;
    var t := s.(i := s.i + 1, result := s.result + [n], arena := s.arena + [SingleBlob(y, cur[s.i])]);
    forall p: nat | IsOwner(s.live, s.result, p)
      ensures p < n
    {
      if p in s.result {
        var k :| 0 <= k < |s.result| && s.result[k] == p;
      }
    }
    AppendFresh(s.arena, s.live, s.result, y, cur, s.i);
    forall m | 0 <= m < |t.result| && m < |cur| && t.result[m] < |t.arena|
      ensures Region(y, cur[m]) in t.arena[t.result[m]].content
    {
      if m < |s.result| {
        assert t.result[m] == s.result[m];
      }
    }
  }

  /** A joined segment with no blob yet joins the previous segment's blob. */
  lemma JoinNoneInv(s: MergeState, lastRow: seq<Segment>, cur: seq<Segment>, y: int, fixed: bool)
    requires Inv(s, lastRow, cur, y) && Separated(cur)
    requires s.i < |cur| && s.j < |lastRow| && s.resultBlob.None?
    ensures Join(s, y, cur[s.i], fixed).Ok?
    ensures Inv(Join(s, y, cur[s.i], fixed).value, lastRow, cur, y)
  {
    var prev := s.lastBlobs[s.j];
    var b := AddRegion(s.arena[prev], y, cur[s.i]);
    var t := Join(s, y, cur[s.i], fixed).value;
    assert t == s.(arena := s.arena[prev := b], result := s.result + [prev], resultBlob := Some(prev));
    forall q: nat | IsOwner(s.live, s.result, q) && q != prev && q < |s.arena|
      ensures Apart(s.arena[q], b) && Apart(b, s.arena[q])
    {
      Unseen(s.arena[q], y, cur, s.i);
      assert Apart(s.arena[q], s.arena[prev]) && Apart(s.arena[prev], s.arena[q]);
    }
    UpdateApart(s.arena, s.live, s.result, prev, b);
    forall p: nat | IsOwner(t.live, t.result, p) && p < |t.arena|
      ensures Placed(t.arena[p], y, cur, |t.result|)
    {
      assert IsOwner(s.live, s.result, p);
      PlacedAdvance(s.arena[p], y, cur, s.i, s.i + 1);
      if p == prev && s.i + 1 < |cur| {
        SeparatedOrder(cur, s.i, s.i + 1);
      }
    }
    forall m | 0 <= m < |t.result| && m < |cur| && t.result[m] < |t.arena|
      ensures Region(y, cur[m]) in t.arena[t.result[m]].content
    {
      if m < |s.result| {
        assert t.result[m] == s.result[m];
      }
    }
  }

  /** Two distinct registered blobs are apart, so merging them succeeds. */
  lemma MergeApart(s: MergeState, lastRow: seq<Segment>, cur: seq<Segment>, y: int)
    requires Inv(s, lastRow, cur, y)
    requires s.j < |lastRow| && s.resultBlob.Some? && s.lastBlobs[s.j] != s.resultBlob.value
    ensures MergeWith(s.arena[s.resultBlob.value], s.arena[s.lastBlobs[s.j]]).Ok?
  {
    var rb := s.resultBlob.value;
    var prev := s.lastBlobs[s.j];
    assert IsOwner(s.live, s.result, rb) && IsOwner(s.live, s.result, prev);
    assert Apart(s.arena[prev], s.arena[rb]);
  }

  /** A joined segment whose blob differs from the previous segment's: the
      corrected merge keeps the invariant. */
  lemma JoinMergeInv(s: MergeState, lastRow: seq<Segment>, cur: seq<Segment>, y: int)
    requires Inv(s, lastRow, cur, y)
    requires s.i < |cur| && s.j < |lastRow| && s.resultBlob.Some? && s.lastBlobs[s.j] != s.resultBlob.value
    ensures Join(s, y, cur[s.i], true).Ok?
    ensures Inv(Join(s, y, cur[s.i], true).value, lastRow, cur, y)
  {
    var rb := s.resultBlob.value;
    var prev := s.lastBlobs[s.j];
    MergeApart(s, lastRow, cur, y);
    var merged := MergeWith(s.arena[rb], s.arena[prev]).value;
    var res' := Retarget(s.result, 0, prev, rb);
    var t := Join(s, y, cur[s.i], true).value;
    assert t == s.(arena := s.arena[rb := merged],
                   lastBlobs := Retarget(s.lastBlobs, s.j, prev, rb),
                   result := res',
                   live := s.live - {prev});
    AbsorbApart(s.arena, s.live, s.result, rb, prev, merged);
    forall p: nat | IsOwner(t.live, t.result, p) && p < |t.arena|
      ensures Placed(t.arena[p], y, cur, |t.result|)
    {
      if p in res' {
        var k :| 0 <= k < |res'| && res'[k] == p;
        assert s.result[k] in s.result;
      }
      assert IsOwner(s.live, s.result, p);
      if p == rb {
        assert IsOwner(s.live, s.result, prev);
      }
    }
    forall m | 0 <= m < |t.result| && m < |cur| && t.result[m] < |t.arena|
      ensures Region(y, cur[m]) in t.arena[t.result[m]].content
    {
      assert Region(y, cur[m]) in s.arena[s.result[m]].content;
    }
    forall k | t.j <= k < |t.lastBlobs|
      ensures t.lastBlobs[k] in t.live
    {
      assert s.lastBlobs[k] in s.live;
    }
  }

  /** One turn of the corrected loop succeeds and keeps the invariant. */
  lemma StepInv(lastRow: seq<Segment>, cur: seq<Segment>, y: int, s: MergeState)
    requires Inv(s, lastRow, cur, y) && Separated(cur)
    requires s.i < |cur| && s.j < |lastRow|
    ensures Step(lastRow, cur, y, true, s).Ok?
    ensures Inv(Step(lastRow, cur, y, true, s).value, lastRow, cur, y)
  {
    var c := cur[s.i];
    var l := lastRow[s.j];
    if c.from > l.to {
    } else if c.to < l.from {
      if s.resultBlob.None? {
        FreshInv(s, lastRow, cur, y);
      }
    } else {
      if s.resultBlob.None? {
        JoinNoneInv(s, lastRow, cur, y, true);
      } else if s.lastBlobs[s.j] != s.resultBlob.value {
        JoinMergeInv(s, lastRow, cur, y);
      }
    }
  }

  lemma {:induction false} LoopInv(lastRow: seq<Segment>, cur: seq<Segment>, y: int, s: MergeState)
    requires Inv(s, lastRow, cur, y) && Separated(cur)
    ensures Loop(lastRow, cur, y, true, s).Ok?
    ensures Inv(Loop(lastRow, cur, y, true, s).value, lastRow, cur, y)
    decreases Measure(s, lastRow, cur)
  {
    if s.i < |cur| && s.j < |lastRow| {
      StepInv(lastRow, cur, y, s);
      LoopInv(lastRow, cur, y, Step(lastRow, cur, y, true, s).value);
    }
  }

  // ---------------------------------------------------------------------
  // Fresh blobs and the whole row

  /** Fresh blobs for the segments of `cur` from `from` on keep the owners
      apart and leave every owner's regions on row `y` or above. */
  lemma {:induction false} CreateInv(arena: seq<Blob>, live: set<nat>, result: seq<nat>, y: int, cur: seq<Segment>, from: nat)
    requires Separated(cur) && from <= |cur|
    requires forall p: nat :: IsOwner(live, result, p) ==> p < |arena|
    requires OwnersApart(arena, live, result) && OwnersPlaced(arena, live, result, y, cur, from)
    ensures OwnersApart(CreateBlobs(arena, cur[from..], y).1, live, result + CreateBlobs(arena, cur[from..], y).0)
    ensures OwnersPlaced(CreateBlobs(arena, cur[from..], y).1, live, result + CreateBlobs(arena, cur[from..], y).0, y, cur, |cur|)
    decreases |cur| - from
  {
    var added := CreateBlobs(arena, cur[from..], y);
    if from == |cur| {
      assert added == ([], arena);
      assert result + added.0 == result;
      forall p: nat | IsOwner(live, result, p) && p < |arena|
        ensures Placed(arena[p], y, cur, |cur|)
      {
        assert Placed(arena[p], y, cur, from);
      }
    } else {
      var n := |arena|;
      var a1 := arena + [SingleBlob(y, cur[from])];
      AppendFresh(arena, live, result, y, cur, from);
      assert cur[from..][1..] == cur[from + 1..];
      var rest := CreateBlobs(a1, cur[from + 1..], y);
      assert added == ([n] + rest.0, rest.1);
      assert result + added.0 == (result + [n]) + rest.0;
      forall p: nat | IsOwner(live, result + [n], p)
        ensures p < |a1|
      {
        if p != n {
          assert IsOwner(live, result, p);
        }
      }
      CreateInv(a1, live, result + [n], y, cur, from + 1);
    }
  }

  /** `Disjoint` over the registered blobs and the current row's owners, as
      a set. */
  lemma OwnersDisjoint(arena: seq<Blob>, live: set<nat>, result: seq<nat>)
    requires OwnersApart(arena, live, result)
    ensures Disjoint(arena, live + Elems(result))
  {
    forall p: nat, q: nat | p in live + Elems(result) && q in live + Elems(result) && p != q && p < |arena| && q < |arena|
      ensures Apart(arena[p], arena[q])
    {
      assert IsOwner(live, result, p) && IsOwner(live, result, q);
    }
  }

  /** What the scan keeps between rows: one registered owner per previous
      segment, registered blobs pairwise apart and above row `y`. */
  predicate Sound(arena: seq<Blob>, live: set<nat>, lastBlobs: seq<nat>, y: int) {
    (forall k :: 0 <= k < |lastBlobs| ==> lastBlobs[k] in live) &&
    (forall p :: p in live ==> p < |arena| && Below(arena[p], y)) &&
    Disjoint(arena, live)
  }

  /** The registered blobs and the owners of the new row, all placed on row
      `y` or above and pairwise apart, make a sound scan state. */
  lemma SoundAfterRow(arena: seq<Blob>, live: set<nat>, result: seq<nat>, y: int, cur: seq<Segment>)
    requires forall p: nat :: IsOwner(live, result, p) ==> p < |arena|
    requires OwnersApart(arena, live, result) && OwnersPlaced(arena, live, result, y, cur, |cur|)
    ensures Sound(arena, live + Elems(result), result, y + 1)
  {
    OwnersDisjoint(arena, live, result);
    forall p: nat | p in live + Elems(result)
      ensures p < |arena| && Below(arena[p], y + 1)
    {
      assert IsOwner(live, result, p);
      assert Placed(arena[p], y, cur, |cur|);
    }
  }

  /** Fresh blobs for the segments from `i` on, after owners placed before
      segment `i`, complete a sound scan state. */
  lemma SoundAfterCreate(arena: seq<Blob>, live: set<nat>, result: seq<nat>, y: int, cur: seq<Segment>, i: nat)
    requires Separated(cur) && i <= |cur|
    requires forall p: nat :: IsOwner(live, result, p) ==> p < |arena|
    requires OwnersApart(arena, live, result) && OwnersPlaced(arena, live, result, y, cur, i)
    ensures var added := CreateBlobs(arena, cur[i..], y);
            Sound(added.1, live + Elems(result + added.0), result + added.0, y + 1)
  {
    var added := CreateBlobs(arena, cur[i..], y);
    var result' := result + added.0;
    CreateInv(arena, live, result, y, cur, i);
    forall p: nat | IsOwner(live, result', p)
      ensures p < |added.1|
    {
      if p in result' {
        var k :| 0 <= k < |result'| && result'[k] == p;
        if k < |result| {
          assert IsOwner(live, result, p);
        } else {
          assert p == added.0[k - |result|];
        }
      } else {
        assert IsOwner(live, result, p);
      }
    }
    SoundAfterRow(added.1, live, result', y, cur);
  }

  /** Fresh blobs for the segments from `i` on hold their regions, and the
      owners found before keep theirs. */
  lemma OwnedAfterCreate(arena: seq<Blob>, result: seq<nat>, y: int, cur: seq<Segment>, i: nat)
    requires |result| == i <= |cur|
    requires forall k :: 0 <= k < i ==> result[k] < |arena|
    requires Owned(arena, result, y, cur)
    ensures var added := CreateBlobs(arena, cur[i..], y);
            forall k :: 0 <= k < |cur| ==> Region(y, cur[k]) in added.1[(result + added.0)[k]].content
  {
    var added := CreateBlobs(arena, cur[i..], y);
    var result' := result + added.0;
    forall k | 0 <= k < |cur|
      ensures Region(y, cur[k]) in added.1[result'[k]].content
    {
      if k < i {
        assert result'[k] == result[k];
        assert added.1[..|arena|][result[k]] == arena[result[k]];
      } else {
        assert result'[k] == added.0[k - i];
        assert cur[i..][k - i] == cur[k];
      }
    }
  }

  /** The corrected loop, started on a sound scan state, succeeds; once the
      current segment's blob is passed the invariant holds. */
  lemma LoopCorrected(lastBlobs: seq<nat>, lastRow: seq<Segment>, cur: seq<Segment>,
                      arena: seq<Blob>, live: set<nat>, y: int)
    requires |lastBlobs| == |lastRow| && Separated(cur)
    requires Sound(arena, live, lastBlobs, y)
    ensures Loop(lastRow, cur, y, true, MergeState(0, 0, lastBlobs, [], None, arena, live)).Ok?
    ensures var s := Loop(lastRow, cur, y, true, MergeState(0, 0, lastBlobs, [], None, arena, live)).value;
            Inv(if s.resultBlob.Some? then s.(i := s.i + 1, resultBlob := None) else s, lastRow, cur, y)
  {
    var s0 := MergeState(0, 0, lastBlobs, [], None, arena, live);
    assert OwnersApart(arena, live, []) by {
      forall p: nat, q: nat | IsOwner(live, [], p) && IsOwner(live, [], q) && p != q && p < |arena| && q < |arena|
        ensures Apart(arena[p], arena[q])
      {
      }
    }
    assert Inv(s0, lastRow, cur, y);
    LoopInv(lastRow, cur, y, s0);
  }

  /** The corrected `mergeBlobs` never fails, leaves the registered blobs
      pairwise apart and above the next row, registers every owner, and
      the owner of each current segment holds its region. */
  lemma MergeBlobsCorrected(lastBlobs: seq<nat>, lastRow: seq<Segment>, cur: seq<Segment>,
                            arena: seq<Blob>, live: set<nat>, y: int)
    requires |lastBlobs| == |lastRow| && Separated(cur)
    requires Sound(arena, live, lastBlobs, y)
    ensures MergeBlobs(lastBlobs, lastRow, cur, arena, live, y, true).Ok?
    ensures var m := MergeBlobs(lastBlobs, lastRow, cur, arena, live, y, true).value;
            Sound(m.1, m.2, m.0, y + 1) &&
            forall k :: 0 <= k < |cur| ==> Region(y, cur[k]) in m.1[m.0[k]].content
  {
    LoopCorrected(lastBlobs, lastRow, cur, arena, live, y);
    var s := Loop(lastRow, cur, y, true, MergeState(0, 0, lastBlobs, [], None, arena, live)).value;
    var s1 := if s.resultBlob.Some? then s.(i := s.i + 1, resultBlob := None) else s;
    forall p: nat | IsOwner(s1.live, s1.result, p)
      ensures p < |s1.arena|
    {
      if p in s1.result {
        var k :| 0 <= k < |s1.result| && s1.result[k] == p;
      }
    }
    SoundAfterCreate(s1.arena, s1.live, s1.result, y, cur, s1.i);
    OwnedAfterCreate(s1.arena, s1.result, y, cur, s1.i);
  }

  /** `createBlobs` with registration keeps the scan sound. */
  lemma CreateBlobsSound(arena: seq<Blob>, live: set<nat>, cur: seq<Segment>, y: int)
    requires Separated(cur) && Sound(arena, live, [], y)
    ensures var added := CreateBlobs(arena, cur, y);
            Sound(added.1, live + Elems(added.0), added.0, y + 1)
  {
    assert OwnersApart(arena, live, []) by {
      forall p: nat, q: nat | IsOwner(live, [], p) && IsOwner(live, [], q) && p != q && p < |arena| && q < |arena|
        ensures Apart(arena[p], arena[q])
      {
      }
    }
    assert cur[0..] == cur;
    CreateInv(arena, live, [], y, cur, 0);
    var added := CreateBlobs(arena, cur, y);
    assert [] + added.0 == added.0;
    forall p: nat | IsOwner(live, added.0, p)
      ensures p < |added.1|
    {
      if p in added.0 {
        var k :| 0 <= k < |added.0| && added.0[k] == p;
      }
    }
    SoundAfterRow(added.1, live, added.0, y, cur);
  }

  // ---------------------------------------------------------------------
  // The whole mask

  predicate ScanSound(sc: Scan, y: int) {
    Linked(sc) && Sound(sc.arena, sc.live, sc.lastBlobs, y)
  }

  /** One row of the corrected scan succeeds and keeps the scan sound. */
  lemma RowStepSound(sc: Scan, y: int, cur: seq<Segment>)
    requires ScanSound(sc, y) && Separated(cur)
    ensures RowStep(sc, y, cur, true).Ok?
    ensures ScanSound(RowStep(sc, y, cur, true).value, y + 1)
  {
    if |sc.lastRow| != 0 {
      MergeBlobsCorrected(sc.lastBlobs, sc.lastRow, cur, sc.arena, sc.live, y);
    } else {
      assert sc.lastBlobs == [];
      CreateBlobsSound(sc.arena, sc.live, cur, y);
    }
  }

  lemma {:induction false} ScanRowsSound(rows: seq<seq<Segment>>, y: int, sc: Scan)
    requires ScanSound(sc, y)
    requires forall k :: 0 <= k < |rows| ==> Separated(rows[k])
    ensures ScanRows(rows, y, sc, true).Ok?
    ensures ScanSound(ScanRows(rows, y, sc, true).value, y + |rows|)
    decreases |rows|
  {
    if |rows| > 0 {
      RowStepSound(sc, y, rows[0]);
      ScanRowsSound(rows[1..], y + 1, RowStep(sc, y, rows[0], true).value);
    }
  }

  /** With the owners already found for a row renamed on every merge, blob
      extraction never fails, and no region of the mask belongs to two
      registered blobs. */
  lemma IdentifyBlobsCorrected(mask: seq<seq<bool>>)
    ensures IdentifyBlobs(mask, true).Ok?
    ensures var r := IdentifyBlobs(mask, true).value;
            Disjoint(r.0, r.1) &&
            forall p :: p in r.1 ==> p < |r.0| && Below(r.0[p], |mask|)
  {
    var rows := seq(|mask|, k requires 0 <= k < |mask| => PackRow(mask[k]));
    forall k | 0 <= k < |rows|
      ensures Separated(rows[k])
    {
      PackRowMeaning(mask[k]);
    }
    ScanRowsSound(rows, 0, Scan([], {}, [], []));
  }
}
