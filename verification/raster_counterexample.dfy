/** A 5 x 5 mask on which `mergeBlobs` as written breaks the invariant its
    own `MergeWith` guards. On row 3 a bridge merges blob A into blob B,
    but the owner list of row 3 still names A and re-registers it, so A
    and B share A's regions. On row 4 the segment that touches both
    previous segments then merges B into A, and `MergeWith` throws.

        .###.      row 0: A
        #...#      row 1: A, A
        #.#.#      row 2: A, B, A
        #..#.      row 3: A, B (B absorbs A)
        .##..      row 4: joins A and B: fails */
module RasterCounterexample {
  import opened Util
  import opened Blobs
  import opened Raster
  import opened RasterDisjoint

  const Mask: seq<seq<bool>> := [
    [false, true, true, true, false],
    [true, false, false, false, true],
    [true, false, true, false, true],
    [true, false, false, true, false],
    [false, true, true, false, false]
  ]

  const Rows: seq<seq<Segment>> := [
    [Segment(1, 4)],
    [Segment(0, 1), Segment(4, 5)],
    [Segment(0, 1), Segment(2, 3), Segment(4, 5)],
    [Segment(0, 1), Segment(3, 4)],
    [Segment(1, 3)]
  ]

  lemma MaskRows()
    ensures seq(|Mask|, k requires 0 <= k < |Mask| => PackRow(Mask[k])) == Rows
  {
    PackedRow0();
    PackedRow1();
    PackedRow2();
    PackedRow3();
    PackedRow4();
  }

  lemma PackedRow0()
    ensures PackRow(Mask[0]) == Rows[0]
  {
    var r := Mask[0];
    assert PackFrom(r, 2, 1, true) == PackFrom(r, 4, 1, true) == [Segment(1, 4)];
  }

  lemma PackedRow1()
    ensures PackRow(Mask[1]) == Rows[1]
  {
    var r := Mask[1];
    assert PackFrom(r, 4, 1, false) == [Segment(4, 5)];
  }

  lemma PackedRow2()
    ensures PackRow(Mask[2]) == Rows[2]
  {
    var r := Mask[2];
    assert PackFrom(r, 4, 3, false) == [Segment(4, 5)];
    assert PackFrom(r, 2, 1, false) == [Segment(2, 3), Segment(4, 5)];
  }

  lemma PackedRow3()
    ensures PackRow(Mask[3]) == Rows[3]
  {
    var r := Mask[3];
    assert PackFrom(r, 3, 1, false) == [Segment(3, 4)];
  }

  lemma PackedRow4()
    ensures PackRow(Mask[4]) == Rows[4]
  {
    var r := Mask[4];
    assert PackFrom(r, 2, 1, true) == [Segment(1, 3)];
  }

  // The blobs of the trace, as the arena holds them: A grows row by row,
  // B starts on row 2 and absorbs A on row 3.
  const A0: Blob := SingleBlob(0, Segment(1, 4))
  const A1: Blob := AddRegion(A0, 1, Segment(0, 1))
  const A2: Blob := AddRegion(A1, 1, Segment(4, 5))
  const A3: Blob := AddRegion(A2, 2, Segment(0, 1))
  const A4: Blob := AddRegion(A3, 2, Segment(4, 5))
  const A5: Blob := AddRegion(A4, 3, Segment(0, 1))
  const A6: Blob := AddRegion(A5, 4, Segment(1, 3))
  const B0: Blob := SingleBlob(2, Segment(2, 3))
  const B1: Blob := AddRegion(B0, 3, Segment(3, 4))
  const B2: Blob := Blob(B1.content + A5.content, false)

  lemma Contents()
    ensures A5.content == [Region(0, Segment(1, 4)), Region(1, Segment(0, 1)), Region(1, Segment(4, 5)),
                           Region(2, Segment(0, 1)), Region(2, Segment(4, 5)), Region(3, Segment(0, 1))]
    ensures B1.content == [Region(2, Segment(2, 3)), Region(3, Segment(3, 4))]
  {
  }

  const Start: Scan := Scan([], {}, [], [])
  const After0: Scan := Scan([A0], {0}, [0], Rows[0])
  const After1: Scan := Scan([A2], {0}, [0, 0], Rows[1])
  const After2: Scan := Scan([A4, B0], {0, 1}, [0, 1, 0], Rows[2])
  const After3: Scan := Scan([A5, B2], {0, 1}, [0, 1], Rows[3])

  lemma Row0()
    ensures RowStep(Start, 0, Rows[0], false) == Ok(After0)
  {
    var e: seq<Blob> := [];
    assert Rows[0][1..] == [];
    assert e + [A0] == [A0];
    var added := CreateBlobs(e, Rows[0], 0);
    assert added.0 == [0] + CreateBlobs([A0], [], 0).0 == [0];
    assert added.1 == [A0];
    assert Elems(added.0) == {0};
    assert Start.live + Elems(added.0) == {0};
  }

  const R1S0: MergeState := MergeState(0, 0, [0], [], None, [A0], {0})
  const R1S1: MergeState := MergeState(1, 0, [0], [0], None, [A1], {0})
  const R1S2: MergeState := MergeState(1, 1, [0], [0, 0], Some(0), [A2], {0})

  lemma R1Step0()
    ensures Step(Rows[0], Rows[1], 1, false, R1S0) == Ok(R1S1)
  {
    assert [A0][0 := A1] == [A1];
    assert R1S0.result + [0] == [0];
  }

  lemma R1Step1()
    ensures Step(Rows[0], Rows[1], 1, false, R1S1) == Ok(R1S2)
  {
    assert [A1][0 := A2] == [A2];
    assert R1S1.result + [0] == [0, 0];
  }

  lemma R1Loop()
    ensures Loop(Rows[0], Rows[1], 1, false, R1S0) == Ok(R1S2)
  {
    assert Loop(Rows[0], Rows[1], 1, false, R1S2) == Ok(R1S2);
    R1Step1();
    assert Loop(Rows[0], Rows[1], 1, false, R1S1) == Ok(R1S2);
    R1Step0();
    assert Loop(Rows[0], Rows[1], 1, false, R1S0) == Ok(R1S2);
  }

  const R2S0: MergeState := MergeState(0, 0, [0, 0], [], None, [A2], {0})
  const R2S1: MergeState := MergeState(1, 0, [0, 0], [0], None, [A3], {0})
  const R2S2: MergeState := MergeState(1, 1, [0, 0], [0], None, [A3], {0})
  const R2S3: MergeState := MergeState(2, 1, [0, 0], [0, 1], None, [A3, B0], {0})
  const R2S4: MergeState := MergeState(3, 1, [0, 0], [0, 1, 0], None, [A4, B0], {0})

  lemma R2Step0()
    ensures Step(Rows[1], Rows[2], 2, false, R2S0) == Ok(R2S1)
  {
    assert [A2][0 := A3] == [A3];
    assert R2S0.result + [0] == [0];
  }

  lemma R2Step1()
    ensures Step(Rows[1], Rows[2], 2, false, R2S1) == Ok(R2S2)
  {
  }

  lemma R2Step2()
    ensures Step(Rows[1], Rows[2], 2, false, R2S2) == Ok(R2S3)
  {
    assert [A3] + [B0] == [A3, B0];
    assert R2S2.result + [1] == [0, 1];
  }

  lemma R2Step3()
    ensures Step(Rows[1], Rows[2], 2, false, R2S3) == Ok(R2S4)
  {
    assert [A3, B0][0 := A4] == [A4, B0];
    assert R2S3.result + [0] == [0, 1, 0];
  }

  lemma R2Loop()
    ensures Loop(Rows[1], Rows[2], 2, false, R2S0) == Ok(R2S4)
  {
    assert Loop(Rows[1], Rows[2], 2, false, R2S4) == Ok(R2S4);
    R2Step3();
    assert Loop(Rows[1], Rows[2], 2, false, R2S3) == Ok(R2S4);
    R2Step2();
    assert Loop(Rows[1], Rows[2], 2, false, R2S2) == Ok(R2S4);
    R2Step1();
    assert Loop(Rows[1], Rows[2], 2, false, R2S1) == Ok(R2S4);
    R2Step0();
    assert Loop(Rows[1], Rows[2], 2, false, R2S0) == Ok(R2S4);
  }

  const R3S0: MergeState := MergeState(0, 0, [0, 1, 0], [], None, [A4, B0], {0, 1})
  const R3S1: MergeState := MergeState(1, 0, [0, 1, 0], [0], None, [A5, B0], {0, 1})
  const R3S2: MergeState := MergeState(1, 1, [0, 1, 0], [0], None, [A5, B0], {0, 1})
  const R3S3: MergeState := MergeState(1, 2, [0, 1, 0], [0, 1], Some(1), [A5, B1], {0, 1})
  const R3S4: MergeState := MergeState(2, 2, [0, 1, 1], [0, 1], None, [A5, B2], {1})

  lemma R3Step0()
    ensures Step(Rows[2], Rows[3], 3, false, R3S0) == Ok(R3S1)
  {
    assert [A4, B0][0 := A5] == [A5, B0];
    assert R3S0.result + [0] == [0];
  }

  lemma R3Step1()
    ensures Step(Rows[2], Rows[3], 3, false, R3S1) == Ok(R3S2)
  {
  }

  lemma R3Step2()
    ensures Step(Rows[2], Rows[3], 3, false, R3S2) == Ok(R3S3)
  {
    assert [A5, B0][1 := B1] == [A5, B1];
    assert R3S2.result + [1] == [0, 1];
  }

  lemma R3Step3()
    ensures Step(Rows[2], Rows[3], 3, false, R3S3) == Ok(R3S4)
  {
    assert [A5, B1][1 := B2] == [A5, B2];
    assert {0, 1} - {0} == {1};
    assert Retarget([0, 1, 0], 2, 0, 1) == [0, 1, 1];
    Row3Merge();
  }

  lemma R3Loop()
    ensures Loop(Rows[2], Rows[3], 3, false, R3S0) == Ok(R3S4)
  {
    assert Loop(Rows[2], Rows[3], 3, false, R3S4) == Ok(R3S4);
    R3Step3();
    assert Loop(Rows[2], Rows[3], 3, false, R3S3) == Ok(R3S4);
    R3Step2();
    assert Loop(Rows[2], Rows[3], 3, false, R3S2) == Ok(R3S4);
    R3Step1();
    assert Loop(Rows[2], Rows[3], 3, false, R3S1) == Ok(R3S4);
    R3Step0();
    assert Loop(Rows[2], Rows[3], 3, false, R3S0) == Ok(R3S4);
  }

  lemma Row1()
    ensures RowStep(After0, 1, Rows[1], false) == Ok(After1)
  {
    R1Loop();
    assert Rows[1][2..] == [];
    var added := CreateBlobs(R1S2.arena, Rows[1][2..], 1);
    assert added.0 == [] && added.1 == [A2];
    assert R1S2.result + added.0 == [0, 0];
    assert Elems([0, 0]) == {0};
    var mb := MergeBlobs(After0.lastBlobs, After0.lastRow, Rows[1], After0.arena, After0.live, 1, false);
    assert mb.Ok? && mb.value.0 == [0, 0] && mb.value.1 == [A2] && mb.value.2 == After1.live;
  }

  lemma Row2()
    ensures RowStep(After1, 2, Rows[2], false) == Ok(After2)
  {
    R2Loop();
    assert Rows[2][3..] == [];
    var added := CreateBlobs(R2S4.arena, Rows[2][3..], 2);
    assert added.0 == [] && added.1 == [A4, B0];
    assert R2S4.result + added.0 == [0, 1, 0];
    assert Elems([0, 1, 0]) == {0, 1};
    var mb := MergeBlobs(After1.lastBlobs, After1.lastRow, Rows[2], After1.arena, After1.live, 2, false);
    assert mb.Ok? && mb.value.0 == [0, 1, 0] && mb.value.1 == [A4, B0] && mb.value.2 == After2.live;
  }

  lemma Row3Merge()
    ensures MergeWith(B1, A5) == Ok(B2)
  {
    Contents();
  }

  lemma Row3()
    ensures RowStep(After2, 3, Rows[3], false) == Ok(After3)
  {
    R3Loop();
    assert Rows[3][2..] == [];
    var added := CreateBlobs(R3S4.arena, Rows[3][2..], 3);
    assert added.0 == [] && added.1 == [A5, B2];
    assert R3S4.result + added.0 == [0, 1];
    assert Elems([0, 1]) == {0, 1};
    var mb := MergeBlobs(After2.lastBlobs, After2.lastRow, Rows[3], After2.arena, After2.live, 3, false);
    assert mb.Ok? && mb.value.0 == [0, 1] && mb.value.1 == [A5, B2] && mb.value.2 == After3.live;
  }

  lemma Row4Merge()
    ensures MergeWith(A6, B2) == Err(DuplicateRegion)
  {
    Contents();
    assert Region(0, Segment(1, 4)) in B2.content && Region(0, Segment(1, 4)) in A6.content;
  }

  const R4S0: MergeState := MergeState(0, 0, [0, 1], [], None, [A5, B2], {0, 1})
  const R4S1: MergeState := MergeState(0, 1, [0, 1], [0], Some(0), [A6, B2], {0, 1})

  lemma R4Step0()
    ensures Step(Rows[3], Rows[4], 4, false, R4S0) == Ok(R4S1)
  {
    assert [A5, B2][0 := A6] == [A6, B2];
    assert R4S0.result + [0] == [0];
  }

  lemma Row4()
    ensures RowStep(After3, 4, Rows[4], false) == Err(DuplicateRegion)
  {
    R4Step0();
    Row4Merge();
    assert Step(Rows[3], Rows[4], 4, false, R4S1) == Err(DuplicateRegion);
    assert Loop(Rows[3], Rows[4], 4, false, R4S0) == Err(DuplicateRegion);
  }

  lemma ScanTail3()
    ensures ScanRows(Rows[3..4], 3, After2, false) == Ok(After3)
  {
    Row3();
    assert Rows[3..4][1..] == [];
  }

  lemma ScanTail2()
    ensures ScanRows(Rows[2..4], 2, After1, false) == Ok(After3)
  {
    Row2();
    ScanTail3();
    assert Rows[2..4][1..] == Rows[3..4];
  }

  lemma ScanTail1()
    ensures ScanRows(Rows[1..4], 1, After0, false) == Ok(After3)
  {
    Row1();
    ScanTail2();
    assert Rows[1..4][1..] == Rows[2..4];
  }

  lemma After3Shares()
    ensures Region(0, Segment(1, 4)) in After3.arena[0].content && Region(0, Segment(1, 4)) in After3.arena[1].content
    ensures !Disjoint(After3.arena, After3.live)
  {
    var reg := Region(0, Segment(1, 4));
    Contents();
    assert After3.arena[0] == A5 && After3.arena[1] == B2;
    assert reg in A5.content && reg in B2.content;
    assert !Apart(A5, B2);
  }

  /** After row 3 the merge as written has registered two blobs that share
      a region: the invariant `MergeWith` relies on no longer holds. */
  lemma AsWrittenSharesRegions()
    ensures ScanRows(Rows[..4], 0, Start, false) == Ok(After3)
    ensures 0 in After3.live && 1 in After3.live
    ensures Region(0, Segment(1, 4)) in After3.arena[0].content && Region(0, Segment(1, 4)) in After3.arena[1].content
    ensures !Disjoint(After3.arena, After3.live)
  {
    Row0();
    ScanTail1();
    assert Rows[..4][1..] == Rows[1..4];
    After3Shares();
  }

  lemma ScanFails()
    ensures ScanRows(Rows, 0, Start, false) == Err(DuplicateRegion)
  {
    Row0();
    Row1();
    Row2();
    Row3();
    Row4();
    assert ScanRows(Rows[4..], 4, After3, false) == Err(DuplicateRegion) by {
      assert Rows[4..][0] == Rows[4];
    }
    assert ScanRows(Rows[3..], 3, After2, false) == Err(DuplicateRegion) by {
      assert Rows[3..][1..] == Rows[4..];
    }
    assert ScanRows(Rows[2..], 2, After1, false) == Err(DuplicateRegion) by {
      assert Rows[2..][1..] == Rows[3..];
    }
    assert ScanRows(Rows[1..], 1, After0, false) == Err(DuplicateRegion) by {
      assert Rows[1..][1..] == Rows[2..];
    }
  }

  /** On this mask blob extraction as written throws from `MergeWith`, while
      the corrected merge succeeds with registered blobs pairwise apart. */
  lemma AsWrittenFails()
    ensures IdentifyBlobs(Mask, false) == Err(DuplicateRegion)
    ensures IdentifyBlobs(Mask, true).Ok?
  {
    MaskRows();
    ScanFails();
    IdentifyBlobsCorrected(Mask);
  }
}
