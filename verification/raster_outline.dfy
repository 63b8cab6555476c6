/** The outline of a square, one pixel wide, is one 8-connected blob whose
    box covers the outline's outer edge: drawing the outline of a w x h
    rectangle at (x, y) sets the pixels from x to x + w inclusive, so the
    box is (x, y, w + 1, h + 1). Traced here on the 5 x 5 mask of the
    outline of the 2 x 2 rectangle at (1, 1):

        .....      row 0: nothing
        .###.      row 1: A
        .#.#.      row 2: A, A
        .###.      row 3: A (both previous segments already A)
        .....      row 4: nothing */
module RasterOutline {
  import opened Util
  import opened Drawing
  import opened Blobs
  import opened Raster

  const OutlineMask: seq<seq<bool>> := [
    [false, false, false, false, false],
    [false, true, true, true, false],
    [false, true, false, true, false],
    [false, true, true, true, false],
    [false, false, false, false, false]
  ]

  const OutlineRows: seq<seq<Segment>> := [
    [],
    [Segment(1, 4)],
    [Segment(1, 2), Segment(3, 4)],
    [Segment(1, 4)],
    []
  ]

  lemma OutlineMaskRows()
    ensures seq(|OutlineMask|, k requires 0 <= k < |OutlineMask| => PackRow(OutlineMask[k])) == OutlineRows
  {
    OutlinePacked0();
    OutlinePacked1();
    OutlinePacked2();
    OutlinePacked3();
    OutlinePacked4();
  }

  lemma OutlinePacked0()
    ensures PackRow(OutlineMask[0]) == OutlineRows[0]
  {
    PackRowBackground(OutlineMask[0]);
  }

  lemma OutlinePacked1()
    ensures PackRow(OutlineMask[1]) == OutlineRows[1]
  {
    var r := OutlineMask[1];
    assert PackFrom(r, 2, 1, true) == PackFrom(r, 4, 1, true) == [Segment(1, 4)];
  }

  lemma OutlinePacked2()
    ensures PackRow(OutlineMask[2]) == OutlineRows[2]
  {
    var r := OutlineMask[2];
    assert PackFrom(r, 3, 1, false) == [Segment(3, 4)];
  }

  lemma OutlinePacked3()
    ensures PackRow(OutlineMask[3]) == OutlineRows[3]
  {
    var r := OutlineMask[3];
    assert PackFrom(r, 2, 1, true) == PackFrom(r, 4, 1, true) == [Segment(1, 4)];
  }

  lemma OutlinePacked4()
    ensures PackRow(OutlineMask[4]) == OutlineRows[4]
  {
    PackRowBackground(OutlineMask[4]);
  }

  // The one blob of the trace, as it grows row by row.
  const O0: Blob := SingleBlob(1, Segment(1, 4))
  const O1: Blob := AddRegion(O0, 2, Segment(1, 2))
  const O2: Blob := AddRegion(O1, 2, Segment(3, 4))
  const O3: Blob := AddRegion(O2, 3, Segment(1, 4))

  const EmptyScan: Scan := Scan([], {}, [], [])
  const Traced1: Scan := Scan([O0], {0}, [0], OutlineRows[1])
  const Traced2: Scan := Scan([O2], {0}, [0, 0], OutlineRows[2])
  const Traced3: Scan := Scan([O3], {0}, [0], OutlineRows[3])
  const Traced4: Scan := Scan([O3], {0}, [], [])

  lemma OutlineRow0(fixed: bool)
    ensures RowStep(EmptyScan, 0, OutlineRows[0], fixed) == Ok(EmptyScan)
  {
    var e: seq<nat> := [];
    var none: seq<Blob> := [];
    assert CreateBlobs(none, OutlineRows[0], 0) == (e, none);
    assert Elems(e) == {};
    assert EmptyScan.live + Elems(e) == {};
  }

  lemma OutlineRow1(fixed: bool)
    ensures RowStep(EmptyScan, 1, OutlineRows[1], fixed) == Ok(Traced1)
  {
    var e: seq<Blob> := [];
    assert OutlineRows[1][1..] == [];
    assert e + [O0] == [O0];
    var added := CreateBlobs(e, OutlineRows[1], 1);
    assert added.0 == [0] + CreateBlobs([O0], [], 1).0 == [0];
    assert added.1 == [O0];
    assert Elems(added.0) == {0};
    assert EmptyScan.live + Elems(added.0) == {0};
  }

  const Q2S0: MergeState := MergeState(0, 0, [0], [], None, [O0], {0})
  const Q2S1: MergeState := MergeState(1, 0, [0], [0], None, [O1], {0})
  const Q2S2: MergeState := MergeState(2, 0, [0], [0, 0], None, [O2], {0})

  lemma OutlineLoop2(fixed: bool)
    ensures Loop(OutlineRows[1], OutlineRows[2], 2, fixed, Q2S0) == Ok(Q2S2)
  {
    assert [O0][0 := O1] == [O1];
    assert [O1][0 := O2] == [O2];
    assert Q2S0.result + [0] == [0];
    assert Q2S1.result + [0] == [0, 0];
    assert Step(OutlineRows[1], OutlineRows[2], 2, fixed, Q2S0) == Ok(Q2S1);
    assert Step(OutlineRows[1], OutlineRows[2], 2, fixed, Q2S1) == Ok(Q2S2);
    assert Loop(OutlineRows[1], OutlineRows[2], 2, fixed, Q2S2) == Ok(Q2S2);
    assert Loop(OutlineRows[1], OutlineRows[2], 2, fixed, Q2S1) == Ok(Q2S2);
  }

  lemma OutlineRow2(fixed: bool)
    ensures RowStep(Traced1, 2, OutlineRows[2], fixed) == Ok(Traced2)
  {
    OutlineLoop2(fixed);
    assert OutlineRows[2][2..] == [];
    var added := CreateBlobs(Q2S2.arena, OutlineRows[2][2..], 2);
    assert added.0 == [] && added.1 == [O2];
    assert Q2S2.result + added.0 == [0, 0];
    assert Elems([0, 0]) == {0};
    var mb := MergeBlobs(Traced1.lastBlobs, Traced1.lastRow, OutlineRows[2], Traced1.arena, Traced1.live, 2, fixed);
    assert mb.Ok? && mb.value.0 == [0, 0] && mb.value.1 == [O2] && mb.value.2 == Traced2.live;
  }

  const Q3S0: MergeState := MergeState(0, 0, [0, 0], [], None, [O2], {0})
  const Q3S1: MergeState := MergeState(0, 1, [0, 0], [0], Some(0), [O3], {0})
  const Q3S2: MergeState := MergeState(1, 1, [0, 0], [0], None, [O3], {0})

  lemma OutlineLoop3(fixed: bool)
    ensures Loop(OutlineRows[2], OutlineRows[3], 3, fixed, Q3S0) == Ok(Q3S2)
  {
    assert [O2][0 := O3] == [O3];
    assert Q3S0.result + [0] == [0];
    assert Step(OutlineRows[2], OutlineRows[3], 3, fixed, Q3S0) == Ok(Q3S1);
    assert Step(OutlineRows[2], OutlineRows[3], 3, fixed, Q3S1) == Ok(Q3S2);
    assert Loop(OutlineRows[2], OutlineRows[3], 3, fixed, Q3S2) == Ok(Q3S2);
    assert Loop(OutlineRows[2], OutlineRows[3], 3, fixed, Q3S1) == Ok(Q3S2);
  }

  lemma OutlineRow3(fixed: bool)
    ensures RowStep(Traced2, 3, OutlineRows[3], fixed) == Ok(Traced3)
  {
    OutlineLoop3(fixed);
    assert OutlineRows[3][1..] == [];
    var added := CreateBlobs(Q3S2.arena, OutlineRows[3][1..], 3);
    assert added.0 == [] && added.1 == [O3];
    assert Q3S2.result + added.0 == [0];
    assert Elems([0]) == {0};
    var mb := MergeBlobs(Traced2.lastBlobs, Traced2.lastRow, OutlineRows[3], Traced2.arena, Traced2.live, 3, fixed);
    assert mb.Ok? && mb.value.0 == [0] && mb.value.1 == [O3] && mb.value.2 == Traced3.live;
  }

  lemma OutlineRow4(fixed: bool)
    ensures RowStep(Traced3, 4, OutlineRows[4], fixed) == Ok(Traced4)
  {
    var s0 := MergeState(0, 0, [0], [], None, [O3], {0});
    assert Loop(OutlineRows[3], OutlineRows[4], 4, fixed, s0) == Ok(s0);
    var e: seq<nat> := [];
    assert OutlineRows[4][0..] == [];
    assert Elems(e) == {};
    var mb := MergeBlobs(Traced3.lastBlobs, Traced3.lastRow, OutlineRows[4], Traced3.arena, Traced3.live, 4, fixed);
    assert mb.Ok? && mb.value.0 == [] && mb.value.1 == [O3] && mb.value.2 == Traced4.live;
  }

  lemma OutlineScan(fixed: bool)
    ensures ScanRows(OutlineRows, 0, EmptyScan, fixed) == Ok(Traced4)
  {
    OutlineRow0(fixed);
    OutlineRow1(fixed);
    OutlineRow2(fixed);
    OutlineRow3(fixed);
    OutlineRow4(fixed);
    assert ScanRows(OutlineRows[4..], 4, Traced3, fixed) == Ok(Traced4) by {
      assert OutlineRows[4..][0] == OutlineRows[4] && OutlineRows[4..][1..] == [];
    }
    assert ScanRows(OutlineRows[3..], 3, Traced2, fixed) == Ok(Traced4) by {
      assert OutlineRows[3..][1..] == OutlineRows[4..];
    }
    assert ScanRows(OutlineRows[2..], 2, Traced1, fixed) == Ok(Traced4) by {
      assert OutlineRows[2..][1..] == OutlineRows[3..];
    }
    assert ScanRows(OutlineRows[1..], 1, EmptyScan, fixed) == Ok(Traced4) by {
      assert OutlineRows[1..][1..] == OutlineRows[2..];
    }
  }

  lemma OutlineBox()
    ensures O3.content == [Region(1, Segment(1, 4)), Region(2, Segment(1, 2)),
                           Region(2, Segment(3, 4)), Region(3, Segment(1, 4))]
    ensures BoundingBox(O3) == Ok(Rect(1, 1, 3, 3))
  {
    var c := O3.content;
    assert c == [Region(1, Segment(1, 4)), Region(2, Segment(1, 2)),
                 Region(2, Segment(3, 4)), Region(3, Segment(1, 4))];
    assert c[1..][1..][1..] == [Region(3, Segment(1, 4))];
    assert c[1..][1..] == [Region(2, Segment(3, 4)), Region(3, Segment(1, 4))];
    assert c[1..] == [Region(2, Segment(1, 2)), Region(2, Segment(3, 4)), Region(3, Segment(1, 4))];
    assert Least(c[1..][1..], From) == 1 && Greatest(c[1..][1..], To) == 4;
    assert Least(c[1..][1..], Row) == 2 && Greatest(c[1..][1..], Row) == 3;
    assert Least(c, From) == 1 && Greatest(c, To) == 4;
    assert Least(c, Row) == 1 && Greatest(c, Row) == 3;
  }

  /** The outline of the 2 x 2 rectangle at (1, 1) is found as exactly one
      registered blob, with or without the corrected merge, and its box is
      (1, 1, 3, 3): the outline's pixels from column 1 to column 3 and row
      1 to row 3. */
  lemma OutlineSquareOneBlob(fixed: bool)
    ensures IdentifyBlobs(OutlineMask, fixed) == Ok(([O3], {0}))
    ensures BoundingBox(O3) == Ok(Rect(1, 1, 3, 3))
  {
    OutlineMaskRows();
    OutlineScan(fixed);
    OutlineBox();
  }
}
