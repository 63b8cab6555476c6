/** Blob extraction of MangaParser/Segmentation/MyAdapter/Graphics.cs: each
    row of a binary mask is packed into runs of foreground cells, and the
    runs of consecutive rows are joined, 8-connected, into blobs. Blob
    identity (the source's object references) is an index into an arena of
    blobs; the source's `HashSet<Blob>` is a set of such indices. */
module Raster {
  import opened Util
  import opened Blobs

  /** The one 32-bit ARGB value that counts as foreground: black with full alpha. */
  const Foreground: int := 0xff00_0000

  /** `ParseStride`: one flag per pixel of the row, set exactly for the
      foreground value. */
  function ParseStride(pixels: seq<int>): (line: seq<bool>)
    ensures |line| == |pixels|
    ensures forall i :: 0 <= i < |pixels| ==> (line[i] <==> pixels[i] == Foreground)
  {
    seq(|pixels|, i requires 0 <= i < |pixels| => pixels[i] == Foreground)
  }

  // ---------------------------------------------------------------------
  // Row packing

  /** The rest of `packRow` from cell `i`, where `cont` says whether cell
      i - 1 was foreground and `start` is where the current run began. */
  function PackFrom(row: seq<bool>, i: nat, start: nat, cont: bool): seq<Segment>
    requires i <= |row|
    decreases |row| - i
  {
    if i == |row| then
      (if cont then [Segment(start, i)] else [])
    else
      var start' := if row[i] && !cont then i else start;
      var emit := if !row[i] && cont then [Segment(start, i)] else [];
      emit + PackFrom(row, i + 1, start', row[i])
  }

  /** `packRow`: the maximal runs of foreground cells, as half-open
      segments. */
  function PackRow(row: seq<bool>): seq<Segment> {
    PackFrom(row, 0, 0, false)
  }

  /** Non-empty segments in increasing order with at least one cell between
      consecutive ones. */
  predicate Separated(segs: seq<Segment>) {
    (forall k :: 0 <= k < |segs| ==> segs[k].from < segs[k].to) &&
    (forall k :: 0 <= k < |segs| - 1 ==> segs[k].to < segs[k + 1].from)
  }

  /** Some segment holds cell x. */
  predicate Covers(segs: seq<Segment>, x: int) {
    exists k :: 0 <= k < |segs| && segs[k].from <= x < segs[k].to
  }

  lemma CoversCons(seg: Segment, rest: seq<Segment>, x: int)
    ensures Covers([seg] + rest, x) <==> (seg.from <= x < seg.to || Covers(rest, x))
  {
    var r := [seg] + rest;
    if seg.from <= x < seg.to {
      assert r[0] == seg;
    }
    if Covers(rest, x) {
      var k :| 0 <= k < |rest| && rest[k].from <= x < rest[k].to;
      assert r[k + 1] == rest[k];
    }
    if Covers(r, x) {
      var k :| 0 <= k < |r| && r[k].from <= x < r[k].to;
      if k > 0 {
        assert rest[k - 1] == r[k];
      }
    }
  }

  /** Every segment lies within [lo, hi). */
  predicate Within(segs: seq<Segment>, lo: int, hi: int) {
    forall k :: 0 <= k < |segs| ==> lo <= segs[k].from && segs[k].to <= hi
  }

  lemma SeparatedCons(seg: Segment, rest: seq<Segment>, hi: int)
    requires seg.from < seg.to <= hi && Separated(rest) && Within(rest, seg.to + 1, hi)
    ensures Separated([seg] + rest) && Within([seg] + rest, seg.from, hi)
  {
    var r := [seg] + rest;
    forall k | 0 <= k < |r| - 1
      ensures r[k].to < r[k + 1].from
    {
      assert r[k + 1] == rest[k];
      if k > 0 {
        assert r[k] == rest[k - 1];
      }
    }
    forall k | 0 <= k < |r|
      ensures seg.from <= r[k].from && r[k].to <= hi
    {
      if k > 0 {
        assert r[k] == rest[k - 1];
      }
    }
  }

  /** The shape of what `packRow` still emits from cell `i`: separated
      segments within [lo, |row|), the first one starting at `start` and
      reaching at least `i` when a run is open. */
  lemma {:induction false} PackFromShape(row: seq<bool>, i: nat, start: nat, cont: bool)
    requires i <= |row|
    requires cont ==> start < i
    ensures Separated(PackFrom(row, i, start, cont))
    ensures Within(PackFrom(row, i, start, cont), if cont then start else i, |row|)
    ensures cont ==> |PackFrom(row, i, start, cont)| > 0 &&
                     PackFrom(row, i, start, cont)[0].from == start &&
                     PackFrom(row, i, start, cont)[0].to >= i
    decreases |row| - i
  {
    var r := PackFrom(row, i, start, cont);
    if i == |row| {
      assert r == (if cont then [Segment(start, i)] else []);
    } else {
      var start' := if row[i] && !cont then i else start;
      var rest := PackFrom(row, i + 1, start', row[i]);
      PackFromShape(row, i + 1, start', row[i]);
      if !row[i] && cont {
        assert r == [Segment(start, i)] + rest;
        SeparatedCons(Segment(start, i), rest, |row|);
      } else {
        assert r == rest;
      }
    }
  }

  /** From cell `i` on, a cell is covered by what `packRow` emits exactly
      when it is foreground. */
  lemma {:induction false} PackFromCovers(row: seq<bool>, i: nat, start: nat, cont: bool, x: int)
    requires i <= x < |row|
    requires cont ==> start < i
    ensures row[x] <==> Covers(PackFrom(row, i, start, cont), x)
    decreases |row| - i
  {
    var start' := if row[i] && !cont then i else start;
    var r := PackFrom(row, i, start, cont);
    var rest := PackFrom(row, i + 1, start', row[i]);
    PackFromShape(row, i + 1, start', row[i]);
    if x > i {
      PackFromCovers(row, i + 1, start', row[i], x);
    }
    if !row[i] && cont {
      assert r == [Segment(start, i)] + rest;
      CoversCons(Segment(start, i), rest, x);
      if x == i {
        assert !Covers(rest, x);
      }
    } else {
      assert r == rest;
      if x == i && row[i] {
        assert rest[0].from <= x < rest[0].to;
      }
    }
  }

  /** `packRow` returns non-empty segments within the row, in increasing
      order and separated by at least one background cell, whose union is
      exactly the set of foreground cells. */
  lemma PackRowMeaning(row: seq<bool>)
    ensures Separated(PackRow(row))
    ensures forall k :: 0 <= k < |PackRow(row)| ==> 0 <= PackRow(row)[k].from && PackRow(row)[k].to <= |row|
    ensures forall x :: 0 <= x < |row| ==> (row[x] <==> Covers(PackRow(row), x))
  {
    PackFromShape(row, 0, 0, false);
    forall x | 0 <= x < |row|
      ensures row[x] <==> Covers(PackRow(row), x)
    {
      PackFromCovers(row, 0, 0, false, x);
    }
  }

  /** The loop of `packRow`, yielding into a list. */
  method PackRowLoop(row: seq<bool>) returns (segs: seq<Segment>)
    ensures segs == PackRow(row)
    ensures Separated(segs)
    ensures forall x :: 0 <= x < |row| ==> (row[x] <==> Covers(segs, x))
  {
    var i: nat := 0;
    var start: nat := 0;
    var cont := false;
    segs := [];
    while i != |row|
      invariant i <= |row|
      invariant segs + PackFrom(row, i, start, cont) == PackRow(row)
      decreases |row| - i
    {
      if row[i] && !cont {
        start := i;
      } else if !row[i] && cont {
        segs := segs + [Segment(start, i)];
      }
      cont := row[i];
      i := i + 1;
    }
    if cont {
      segs := segs + [Segment(start, i)];
    }
    PackRowMeaning(row);
  }

  // ---------------------------------------------------------------------
  // Row merging

  /** A current segment and a previous-row segment are joined unless one
      lies strictly beyond the other's end column: overlapping runs and
      runs that touch diagonally are 8-connected. */
  predicate Joined(cur: Segment, last: Segment) {
    !(cur.from > last.to) && !(cur.to < last.from)
  }

  lemma JoinedMeaning(cur: Segment, last: Segment)
    ensures Joined(cur, last) <==> cur.from <= last.to && last.from <= cur.to
    ensures Joined(cur, last) == Joined(last, cur)
  {
  }

  /** The state of the `mergeBlobs` loop: the two cursors, the owners of the
      previous row's segments, the owners found so far for the current
      row, the blob of the current segment if it has one, the arena and the
      registered blobs. */
  datatype MergeState = MergeState(
    i: nat, j: nat,
    lastBlobs: seq<nat>, result: seq<nat>, resultBlob: Option<nat>,
    arena: seq<Blob>, live: set<nat>)

  /** The shape facts the loop keeps: cursors in range, one owner per
      previous segment, every index a blob of the arena, and one owner per
      current segment passed, plus the current one when it has a blob. */
  predicate Indexed(s: MergeState, lastRow: seq<Segment>, cur: seq<Segment>) {
    s.i <= |cur| && s.j <= |lastRow| && |s.lastBlobs| == |lastRow| &&
    (forall k :: 0 <= k < |s.lastBlobs| ==> s.lastBlobs[k] < |s.arena|) &&
    (forall k :: 0 <= k < |s.result| ==> s.result[k] < |s.arena|) &&
    (s.resultBlob.Some? ==> s.i < |cur| && |s.result| == s.i + 1 && s.result[s.i] == s.resultBlob.value) &&
    (s.resultBlob.None? ==> |s.result| == s.i)
  }

  /** Replaces `gone` by `into` in the entries from `start` on. */
  function Retarget(xs: seq<nat>, start: int, gone: nat, into: nat): (r: seq<nat>)
    ensures |r| == |xs|
    ensures forall k :: 0 <= k < |xs| ==> r[k] == (if k >= start && xs[k] == gone then into else xs[k])
  {
    seq(|xs|, k requires 0 <= k < |xs| => if k >= start && xs[k] == gone then into else xs[k])
  }

  /** What the loop does for a joined pair: with no blob for the current
      segment yet, the previous segment's blob takes the region and becomes
      its owner; with a different blob already, that blob absorbs the
      previous segment's blob, which is renamed in the owners of the
      previous row from `j` on and unregistered. The source renames only
      there; `fixed` also renames in the owners already found for the
      current row. */
  function Join(s: MergeState, y: int, c: Segment, fixed: bool): (r: Result<MergeState>)
    requires s.j < |s.lastBlobs| && s.lastBlobs[s.j] < |s.arena|
    requires s.resultBlob.Some? ==> s.resultBlob.value < |s.arena|
    ensures r.Ok? ==> (r.value.i == s.i && r.value.j == s.j &&
      |r.value.lastBlobs| == |s.lastBlobs| && |r.value.arena| == |s.arena| && r.value.live <= s.live)
    ensures s.resultBlob.None? ==> (r.Ok? &&
      r.value.resultBlob == Some(s.lastBlobs[s.j]) &&
      r.value.result == s.result + [s.lastBlobs[s.j]] &&
      r.value.arena[s.lastBlobs[s.j]].content == s.arena[s.lastBlobs[s.j]].content + [Region(y, c)])
    ensures s.resultBlob == Some(s.lastBlobs[s.j]) ==> r == Ok(s)
    ensures s.resultBlob.Some? && s.resultBlob.value != s.lastBlobs[s.j] ==>
      (r.Err? <==> exists reg :: reg in s.arena[s.lastBlobs[s.j]].content && reg in s.arena[s.resultBlob.value].content)
    ensures s.resultBlob.Some? && s.resultBlob.value != s.lastBlobs[s.j] && r.Ok? ==> (
      r.value.arena[s.resultBlob.value].content ==
        s.arena[s.resultBlob.value].content + s.arena[s.lastBlobs[s.j]].content &&
      s.lastBlobs[s.j] !in r.value.live &&
      s.lastBlobs[s.j] !in r.value.lastBlobs[s.j..] &&
      (fixed ==> s.lastBlobs[s.j] !in r.value.result) &&
      (!fixed ==> r.value.result == s.result))
  {
    var prev := s.lastBlobs[s.j];
    match s.resultBlob
    case None =>
      Ok(s.(arena := s.arena[prev := AddRegion(s.arena[prev], y, c)],
            result := s.result + [prev],
            resultBlob := Some(prev)))
    case Some(rb) =>
      if prev == rb then Ok(s)
      else
        var merged :- MergeWith(s.arena[rb], s.arena[prev]);
        Ok(s.(arena := s.arena[rb := merged],
              lastBlobs := Retarget(s.lastBlobs, s.j, prev, rb),
              result := if fixed then Retarget(s.result, 0, prev, rb) else s.result,
              live := s.live - {prev}))
  }

  function Measure(s: MergeState, lastRow: seq<Segment>, cur: seq<Segment>): int {
    (|cur| - s.i) + (|lastRow| - s.j)
  }

  /** One turn of the `while (i < currentRow.Count && j < lastRow.Count)`
      loop. */
  function Step(lastRow: seq<Segment>, cur: seq<Segment>, y: int, fixed: bool, s: MergeState): (r: Result<MergeState>)
    requires Indexed(s, lastRow, cur) && s.i < |cur| && s.j < |lastRow|
    ensures r.Ok? ==> Indexed(r.value, lastRow, cur)
    ensures r.Ok? ==> 0 <= Measure(r.value, lastRow, cur) < Measure(s, lastRow, cur)
    ensures r.Ok? ==> |s.arena| <= |r.value.arena|
    ensures r.Ok? ==> r.value.live <= s.live
  {
    var c := cur[s.i];
    var l := lastRow[s.j];
    if c.from > l.to then
      Ok(s.(j := s.j + 1))
    else if c.to < l.from then
      if s.resultBlob.None? then
        Ok(s.(i := s.i + 1, result := s.result + [|s.arena|], arena := s.arena + [SingleBlob(y, c)]))
      else
        Ok(s.(i := s.i + 1, resultBlob := None))
    else
      var s1 :- Join(s, y, c, fixed);
      if l.to < c.to then Ok(s1.(j := s1.j + 1))
      else Ok(s1.(i := s1.i + 1, resultBlob := None))
  }

  /** The loop, run until one row is exhausted. */
  function Loop(lastRow: seq<Segment>, cur: seq<Segment>, y: int, fixed: bool, s: MergeState): (r: Result<MergeState>)
    requires Indexed(s, lastRow, cur)
    ensures r.Ok? ==> Indexed(r.value, lastRow, cur)
    ensures r.Ok? ==> r.value.i == |cur| || r.value.j == |lastRow|
    ensures r.Ok? ==> |s.arena| <= |r.value.arena|
    ensures r.Ok? ==> r.value.live <= s.live
    decreases Measure(s, lastRow, cur)
  {
    if s.i < |cur| && s.j < |lastRow| then
      var s1 :- Step(lastRow, cur, y, fixed, s);
      Loop(lastRow, cur, y, fixed, s1)
    else Ok(s)
  }

  /** `createBlobs`: a fresh blob holding only (y, segment) for each of
      `segs`, appended to the arena; the new indices in order. */
  function CreateBlobs(arena: seq<Blob>, segs: seq<Segment>, y: int): (r: (seq<nat>, seq<Blob>))
    ensures |r.0| == |segs| && |r.1| == |arena| + |segs|
    ensures r.1[..|arena|] == arena
    ensures forall k :: 0 <= k < |segs| ==> r.0[k] == |arena| + k && r.1[|arena| + k] == SingleBlob(y, segs[k])
    decreases |segs|
  {
    if |segs| == 0 then ([], arena)
    else
      var rest := CreateBlobs(arena + [SingleBlob(y, segs[0])], segs[1..], y);
      ([|arena|] + rest.0, rest.1)
  }

  function Elems(xs: seq<nat>): set<nat> {
    set x | x in xs
  }

  /** The source's `mergeBlobs`: returns the owner of each current segment,
      the arena and the registered set, or fails when a merge meets a
      region already in the absorbing blob. After the loop the current
      segment's blob, if any, is passed; each remaining segment gets a fresh
      blob; the owners are registered. */
  function MergeBlobs(lastBlobs: seq<nat>, lastRow: seq<Segment>, cur: seq<Segment>,
                      arena: seq<Blob>, live: set<nat>, y: int, fixed: bool)
    : (r: Result<(seq<nat>, seq<Blob>, set<nat>)>)
    requires |lastBlobs| == |lastRow|
    requires forall k :: 0 <= k < |lastBlobs| ==> lastBlobs[k] < |arena|
    ensures r.Ok? ==> |r.value.0| == |cur| && |arena| <= |r.value.1|
    ensures r.Ok? ==> forall k :: 0 <= k < |cur| ==> r.value.0[k] < |r.value.1|
    ensures r.Ok? ==> Elems(r.value.0) <= r.value.2 && r.value.2 - Elems(r.value.0) <= live
  {
    var s :- Loop(lastRow, cur, y, fixed, MergeState(0, 0, lastBlobs, [], None, arena, live));
    var i := if s.resultBlob.Some? then s.i + 1 else s.i;
    var added := CreateBlobs(s.arena, cur[i..], y);
    var result := s.result + added.0;
    Ok((result, added.1, s.live + Elems(result)))
  }

  // ---------------------------------------------------------------------
  // Whole mask

  /** What `identifyBlobs` carries from one row to the next: the arena, the
      registered blobs, and the previous row's segments with their owners. */
  datatype Scan = Scan(arena: seq<Blob>, live: set<nat>, lastBlobs: seq<nat>, lastRow: seq<Segment>)

  predicate Linked(sc: Scan) {
    |sc.lastBlobs| == |sc.lastRow| &&
    (forall k :: 0 <= k < |sc.lastBlobs| ==> sc.lastBlobs[k] < |sc.arena|) &&
    (forall p :: p in sc.live ==> p < |sc.arena|)
  }

  /** One row of `identifyBlobs`: merged into the previous row's blobs, or,
      when the previous row is missing or empty, one fresh registered blob
      per segment. */
  function RowStep(sc: Scan, y: int, cur: seq<Segment>, fixed: bool): (r: Result<Scan>)
    requires Linked(sc)
    ensures r.Ok? ==> Linked(r.value) && r.value.lastRow == cur
    ensures |sc.lastRow| == 0 ==> r.Ok?
  {
    if |sc.lastRow| != 0 then
      var m :- MergeBlobs(sc.lastBlobs, sc.lastRow, cur, sc.arena, sc.live, y, fixed);
      Ok(Scan(m.1, m.2, m.0, cur))
    else
      var added := CreateBlobs(sc.arena, cur, y);
      Ok(Scan(added.1, sc.live + Elems(added.0), added.0, cur))
  }

  /** The rows from number `y` on. */
  function ScanRows(rows: seq<seq<Segment>>, y: int, sc: Scan, fixed: bool): (r: Result<Scan>)
    requires Linked(sc)
    ensures r.Ok? ==> Linked(r.value)
    decreases |rows|
  {
    if |rows| == 0 then Ok(sc)
    else
      var next :- RowStep(sc, y, rows[0], fixed);
      ScanRows(rows[1..], y + 1, next, fixed)
  }

  /** `identifyBlobs`: every row packed, then scanned from the top; the
      arena and the registered blobs, or the failure of a merge. */
  function IdentifyBlobs(mask: seq<seq<bool>>, fixed: bool): (r: Result<(seq<Blob>, set<nat>)>)
    ensures r.Ok? ==> forall p :: p in r.value.1 ==> p < |r.value.0|
  {
    var rows := seq(|mask|, k requires 0 <= k < |mask| => PackRow(mask[k]));
    var sc :- ScanRows(rows, 0, Scan([], {}, [], []), fixed);
    Ok((sc.arena, sc.live))
  }

  /** A row with no foreground cell packs to no segment. */
  lemma PackRowBackground(row: seq<bool>)
    requires forall x :: 0 <= x < |row| ==> !row[x]
    ensures PackRow(row) == []
  {
    PackRowMeaning(row);
    var r := PackRow(row);
    if |r| > 0 {
      assert Covers(r, r[0].from);
    }
  }

  lemma {:induction false} ScanBackground(rows: seq<seq<Segment>>, y: int, fixed: bool)
    requires forall k :: 0 <= k < |rows| ==> rows[k] == []
    ensures ScanRows(rows, y, Scan([], {}, [], []), fixed) == Ok(Scan([], {}, [], []))
    decreases |rows|
  {
    if |rows| > 0 {
      var sc := Scan([], {}, [], []);
      var added := CreateBlobs(sc.arena, rows[0], y);
      assert added.0 == [] && added.1 == [];
      assert sc.live + Elems(added.0) == {};
      assert RowStep(sc, y, rows[0], fixed) == Ok(sc);
      ScanBackground(rows[1..], y + 1, fixed);
    }
  }

  /** An all-background mask yields no blob at all. */
  lemma IdentifyBlobsBackground(mask: seq<seq<bool>>, fixed: bool)
    requires forall y, x :: 0 <= y < |mask| && 0 <= x < |mask[y]| ==> !mask[y][x]
    ensures IdentifyBlobs(mask, fixed).Ok?
    ensures IdentifyBlobs(mask, fixed).value.0 == [] && IdentifyBlobs(mask, fixed).value.1 == {}
  {
    var rows := seq(|mask|, k requires 0 <= k < |mask| => PackRow(mask[k]));
    forall k | 0 <= k < |rows|
      ensures rows[k] == []
    {
      PackRowBackground(mask[k]);
    }
    ScanBackground(rows, 0, fixed);
  }
}
