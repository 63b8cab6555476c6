/** The strip viewer: strips of cells that share rows are merged without a
    size limit, and a strip wider than the view is cut at cell boundaries
    into pieces that fit, greedily first and then balanced by moving cells
    forward from a wider piece to the next one. */
module Strip {
  import opened Util
  import opened Drawing
  import opened Merging

  /** `StripPageViewer`: its own width and height limits over a merging
      viewer with the strip overlap whose limits are switched off. */
  datatype StripViewer = StripViewer(maxWidth: int, maxHeight: int, base: MergingViewer)

  function NewStrip(maxWidth: int, maxHeight: int): (sv: StripViewer)
    ensures sv.maxWidth == maxWidth && sv.maxHeight == maxHeight && sv.base.kind == StripKind
    ensures forall r :: Fits(sv.base, r)
  {
    StripViewer(maxWidth, maxHeight, NewViewer(StripKind, -1, -1))
  }

  // ---------------------------------------------------------------------
  // Extents of consecutive cells

  /** The rectangle obtained by folding `Rectangle.Union` over
      `cells[lo..hi]` from left to right. */
  function Hull(cells: seq<Rect>, lo: nat, hi: nat): Rect
    requires lo < hi <= |cells|
    decreases hi
  {
    if hi == lo + 1 then cells[lo] else Union(Hull(cells, lo, hi - 1), cells[hi - 1])
  }

  /** The hull only grows as cells are added at its end. */
  lemma HullGrows(cells: seq<Rect>, lo: nat, hi: nat)
    requires lo + 1 < hi <= |cells|
    ensures Hull(cells, lo, hi - 1).width <= Hull(cells, lo, hi).width
  {
  }

  /** The hull contains each of its cells. */
  lemma {:induction false} HullContains(cells: seq<Rect>, lo: nat, hi: nat)
    requires lo < hi <= |cells|
    ensures forall k :: lo <= k < hi ==> ContainsRect(Hull(cells, lo, hi), cells[k])
    decreases hi
  {
    if hi > lo + 1 {
      HullContains(cells, lo, hi - 1);
      var h, u := Hull(cells, lo, hi - 1), Hull(cells, lo, hi);
      forall k | lo <= k < hi
        ensures ContainsRect(u, cells[k])
      {
        if k < hi - 1 {
          assert ContainsRect(h, cells[k]);
          assert ContainsRect(u, h);
        }
      }
    }
  }

  /** The smallest left edge of a non-empty run of cells, taken from the
      front. */
  function MinLeft(s: seq<Rect>): int
    requires |s| > 0
  {
    if |s| == 1 then s[0].Left() else Min(MinLeft(s[..|s| - 1]), s[|s| - 1].Left())
  }

  /** The largest right edge of a non-empty run of cells. */
  function MaxRight(s: seq<Rect>): int
    requires |s| > 0
  {
    if |s| == 1 then s[0].Right() else Max(MaxRight(s[..|s| - 1]), s[|s| - 1].Right())
  }

  /** `MinLeft` and `MaxRight` are the extreme edges of the run: attained by
      some cell and bounding every cell. */
  lemma {:induction false} RunExtremes(s: seq<Rect>)
    requires |s| > 0
    ensures forall k :: 0 <= k < |s| ==> MinLeft(s) <= s[k].Left() && s[k].Right() <= MaxRight(s)
    ensures exists k :: 0 <= k < |s| && s[k].Left() == MinLeft(s)
    ensures exists k :: 0 <= k < |s| && s[k].Right() == MaxRight(s)
  {
    if |s| > 1 {
      var p := s[..|s| - 1];
      RunExtremes(p);
      assert forall k :: 0 <= k < |p| ==> p[k] == s[k];
      var i :| 0 <= i < |p| && p[i].Left() == MinLeft(p);
      var j :| 0 <= j < |p| && p[j].Right() == MaxRight(p);
      var last := |s| - 1;
      var l := if MinLeft(s) == s[last].Left() then last else i;
      var r := if MaxRight(s) == s[last].Right() then last else j;
      assert s[l].Left() == MinLeft(s);
      assert s[r].Right() == MaxRight(s);
    } else {
      assert s[0].Left() == MinLeft(s) && s[0].Right() == MaxRight(s);
    }
  }

  /** The union of a run of cells spans from the smallest left edge to the
      largest right edge. */
  lemma {:induction false} HullEdges(cells: seq<Rect>, lo: nat, hi: nat)
    requires lo < hi <= |cells|
    ensures Hull(cells, lo, hi).Left() == MinLeft(cells[lo..hi])
    ensures Hull(cells, lo, hi).Right() == MaxRight(cells[lo..hi])
    decreases hi
  {
    if hi > lo + 1 {
      HullEdges(cells, lo, hi - 1);
      RunSnoc(cells, lo, hi);
      UnionEdges(Hull(cells, lo, hi - 1), cells[hi - 1]);
    }
  }

  lemma RunSnoc(cells: seq<Rect>, lo: nat, hi: nat)
    requires lo + 1 < hi <= |cells|
    ensures MinLeft(cells[lo..hi]) == Min(MinLeft(cells[lo..hi - 1]), cells[hi - 1].Left())
    ensures MaxRight(cells[lo..hi]) == Max(MaxRight(cells[lo..hi - 1]), cells[hi - 1].Right())
  {
    var s := cells[lo..hi];
    assert s[..|s| - 1] == cells[lo..hi - 1];
    assert s[|s| - 1] == cells[hi - 1];
  }

  /** `cells.Skip(index).Take(length)`: a negative skip skips nothing and a
      non-positive take takes nothing; both stop at the end of the list. */
  function Window(cells: seq<Rect>, index: int, length: int): (w: seq<Rect>)
    ensures 0 <= index && 0 <= length && index + length <= |cells| ==> w == cells[index..index + length]
    ensures |w| == 0 <==> length <= 0 || Max(index, 0) >= |cells|
  {
    var lo := if index < 0 then 0 else Min(index, |cells|);
    var hi := if length <= 0 then lo else Min(|cells|, lo + length);
    cells[lo..hi]
  }

  /** `getWidth`: the distance from the smallest left edge to the largest
      right edge of a window of cells; `Min` over nothing throws. */
  function GetWidth(cells: seq<Rect>, index: int, length: int): (r: Result<int>)
    ensures r.Err? <==> length <= 0 || Max(index, 0) >= |cells|
    ensures r.Err? ==> r.failure == EmptySequence
    ensures 0 <= index && 0 < length && index + length <= |cells| ==>
      r == Ok(Hull(cells, index, index + length).width)
  {
    var w := Window(cells, index, length);
    if |w| == 0 then Err(EmptySequence)
    else
      if 0 <= index && 0 < length && index + length <= |cells| then
        HullEdges(cells, index, index + length);
        Ok(MaxRight(w) - MinLeft(w))
      else
        Ok(MaxRight(w) - MinLeft(w))
  }

  // ---------------------------------------------------------------------
  // Balance of two widths

  /** The IEEE double values the balance can take: the absolute value in
      `balance` leaves no negative infinity. Finite values are exact reals. */
  datatype Double = Finite(value: real) | PosInf | NaN

  /** The `>` of doubles: false whenever a NaN is involved. */
  predicate Greater(a: Double, b: Double) {
    match (a, b)
    case (Finite(x), Finite(y)) => x > y
    case (PosInf, Finite(_)) => true
    case _ => false
  }

  /** `<` against a finite constant. */
  predicate Below(a: Double, c: real) {
    a.Finite? && a.value < c
  }

  lemma GreaterOrder(a: Double, b: Double, c: Double)
    ensures !Greater(a, a)
    ensures Greater(a, b) && Greater(b, c) ==> Greater(a, c)
    ensures !a.NaN? && !b.NaN? ==> Greater(a, b) || Greater(b, a) || a == b
    ensures !Greater(a, b) && Greater(c, b) && !b.NaN? ==> !Greater(a, c)
  {
  }

  function RealAbs(x: real): real { if x < 0.0 then -x else x }

  /** `balance(width1, width2)`: |1 - min/max| in double arithmetic. A zero
      maximum divides by zero: 0/0 is NaN, and a negative minimum over zero
      is an infinity that the absolute value makes positive. */
  function Balance(width1: int, width2: int): (b: Double)
    ensures width1 > 0 && width2 > 0 ==>
      b.Finite? && 0.0 <= b.value < 1.0 && (b.value == 0.0 <==> width1 == width2)
    ensures Max(width1, width2) == 0 ==> (b.NaN? <==> Min(width1, width2) == 0)
  {
    var lo, hi := Min(width1, width2), Max(width2, width1);
    if hi == 0 then
      if lo == 0 then NaN else PosInf
    else
      var q := lo as real / hi as real;
      RatioBelowOne(lo, hi);
      Finite(RealAbs(1.0 - q))
  }

  /** The balance is symmetric in the two widths. */
  lemma BalanceSymmetric(width1: int, width2: int)
    ensures Balance(width1, width2) == Balance(width2, width1)
  {
    assert Min(width1, width2) == Min(width2, width1);
    assert Max(width1, width2) == Max(width2, width1);
  }

  /** For positive widths the balance is one minus the ratio of the smaller
      width to the larger. */
  lemma BalanceValue(width1: int, width2: int)
    requires width1 > 0 && width2 > 0
    ensures Balance(width1, width2) == Finite(1.0 - Min(width1, width2) as real / Max(width1, width2) as real)
  {
    var lo, hi := Min(width1, width2), Max(width2, width1);
    assert hi == Max(width1, width2);
    RatioBelowOne(lo, hi);
  }

  lemma RatioBelowOne(lo: int, hi: int)
    ensures 0 < lo <= hi ==>
      0.0 < lo as real / hi as real <= 1.0 && (lo as real / hi as real == 1.0 <==> lo == hi)
  {
    if 0 < lo <= hi {
      var q := lo as real / hi as real;
      assert q * (hi as real) == lo as real;
    }
  }

  /** For positive widths a pair is more unbalanced than another exactly when
      its ratio of smaller to larger width is smaller. */
  lemma BalanceOrder(w1: int, w2: int, w3: int, w4: int)
    requires w1 > 0 && w2 > 0 && w3 > 0 && w4 > 0
    ensures Greater(Balance(w1, w2), Balance(w3, w4)) <==>
      Min(w1, w2) * Max(w3, w4) < Min(w3, w4) * Max(w1, w2)
  {
    var a, b, c, d := Min(w1, w2), Max(w1, w2), Min(w3, w4), Max(w3, w4);
    var q1, q2 := a as real / b as real, c as real / d as real;
    BalanceValue(w1, w2);
    BalanceValue(w3, w4);
    assert Greater(Balance(w1, w2), Balance(w3, w4)) <==> q1 < q2;
    CrossCompare(a, b, c, d, q1, q2);
  }

  lemma CrossCompare(a: int, b: int, c: int, d: int, q1: real, q2: real)
    requires b > 0 && d > 0
    requires q1 * (b as real) == a as real && q2 * (d as real) == c as real
    ensures q1 < q2 <==> a * d < c * b
  {
    var bd := (b as real) * (d as real);
    assert bd > 0.0;
    assert q1 * bd == (a * d) as real;
    assert q2 * bd == (c * b) as real;
    if q1 < q2 {
      assert q1 * bd < q2 * bd;
    } else {
      assert q1 * bd >= q2 * bd;
    }
  }

  // ---------------------------------------------------------------------
  // Boundaries of the pieces of a strip

  /** The start of group `k` when the groups are given by their exclusive
      ends `views` and the first one starts at `start`. */
  function PrevFrom(start: nat, views: seq<nat>, k: nat): nat
    requires k < |views|
  {
    if k == 0 then start else views[k - 1]
  }

  /** `views` cuts `start..n` into non-empty consecutive groups. */
  predicate ValidFrom(start: nat, views: seq<nat>, n: nat) {
    |views| > 0 && views[|views| - 1] == n && start < views[0] &&
    (forall j, k :: 0 <= j < k < |views| ==> views[j] < views[k]) &&
    (forall k :: 0 <= k < |views| ==> views[k] <= n)
  }

  /** Every group of two cells or more is narrower than `maxWidth`. */
  ghost predicate GroupsFitFrom(cells: seq<Rect>, maxWidth: int, start: nat, views: seq<nat>)
    requires ValidFrom(start, views, |cells|)
  {
    forall k :: 0 <= k < |views| && views[k] - PrevFrom(start, views, k) >= 2 ==>
      Hull(cells, PrevFrom(start, views, k), views[k]).width < maxWidth
  }

  /** Every group that stops before the last cell would reach `maxWidth`
      with the next cell. */
  ghost predicate MaximalFrom(cells: seq<Rect>, maxWidth: int, start: nat, views: seq<nat>)
    requires ValidFrom(start, views, |cells|)
  {
    forall k :: 0 <= k < |views| && views[k] < |cells| ==>
      Hull(cells, PrevFrom(start, views, k), views[k] + 1).width >= maxWidth
  }

  lemma ConsShape(start: nat, i: nat, rest: seq<nat>)
    requires |rest| > 0
    ensures forall k :: 1 <= k < |rest| + 1 ==>
      ([i] + rest)[k] == rest[k - 1] && PrevFrom(start, [i] + rest, k) == PrevFrom(i, rest, k - 1)
    ensures ([i] + rest)[0] == i && PrevFrom(start, [i] + rest, 0) == start
  {
  }

  lemma ConsValid(start: nat, i: nat, rest: seq<nat>, n: nat)
    requires start < i && ValidFrom(i, rest, n)
    ensures ValidFrom(start, [i] + rest, n)
  {
    ConsShape(start, i, rest);
  }

  /** Prepending the end `i` of a first group `start..i` to the groups from
      `i` on keeps the groups fitting and maximal. */
  lemma ConsGroup(cells: seq<Rect>, maxWidth: int, start: nat, i: nat, rest: seq<nat>)
    requires start < i < |cells|
    requires ValidFrom(i, rest, |cells|)
    requires GroupsFitFrom(cells, maxWidth, i, rest) && MaximalFrom(cells, maxWidth, i, rest)
    requires i - start >= 2 ==> Hull(cells, start, i).width < maxWidth
    requires Hull(cells, start, i + 1).width >= maxWidth
    ensures ValidFrom(start, [i] + rest, |cells|)
    ensures GroupsFitFrom(cells, maxWidth, start, [i] + rest)
    ensures MaximalFrom(cells, maxWidth, start, [i] + rest)
  {
    ConsValid(start, i, rest, |cells|);
    ConsFits(cells, maxWidth, start, i, rest);
    ConsMaximal(cells, maxWidth, start, i, rest);
  }

  lemma ConsFits(cells: seq<Rect>, maxWidth: int, start: nat, i: nat, rest: seq<nat>)
    requires start < i < |cells|
    requires ValidFrom(i, rest, |cells|) && ValidFrom(start, [i] + rest, |cells|)
    requires GroupsFitFrom(cells, maxWidth, i, rest)
    requires i - start >= 2 ==> Hull(cells, start, i).width < maxWidth
    ensures GroupsFitFrom(cells, maxWidth, start, [i] + rest)
  {
    var views := [i] + rest;
    ConsShape(start, i, rest);
    forall k | 0 <= k < |views| && views[k] - PrevFrom(start, views, k) >= 2
      ensures Hull(cells, PrevFrom(start, views, k), views[k]).width < maxWidth
    {
      if k > 0 {
        assert rest[k - 1] - PrevFrom(i, rest, k - 1) >= 2;
      }
    }
  }

  lemma ConsMaximal(cells: seq<Rect>, maxWidth: int, start: nat, i: nat, rest: seq<nat>)
    requires start < i < |cells|
    requires ValidFrom(i, rest, |cells|) && ValidFrom(start, [i] + rest, |cells|)
    requires MaximalFrom(cells, maxWidth, i, rest)
    requires Hull(cells, start, i + 1).width >= maxWidth
    ensures MaximalFrom(cells, maxWidth, start, [i] + rest)
  {
    var views := [i] + rest;
    forall k | 0 <= k < |views| && views[k] < |cells|
      ensures Hull(cells, PrevFrom(start, views, k), views[k] + 1).width >= maxWidth
    {
      if k > 0 {
        ConsMaximalAt(cells, maxWidth, start, i, rest, k);
      }
    }
  }

  lemma ConsMaximalAt(cells: seq<Rect>, maxWidth: int, start: nat, i: nat, rest: seq<nat>, k: nat)
    requires start < i < |cells|
    requires ValidFrom(i, rest, |cells|) && ValidFrom(start, [i] + rest, |cells|)
    requires MaximalFrom(cells, maxWidth, i, rest)
    requires 0 < k < |rest| + 1 && ([i] + rest)[k] < |cells|
    ensures Hull(cells, PrevFrom(start, [i] + rest, k), ([i] + rest)[k] + 1).width >= maxWidth
  {
    var p := PrevFrom(i, rest, k - 1);
    assert PrevFrom(start, [i] + rest, k) == p && ([i] + rest)[k] == rest[k - 1];
    assert rest[k - 1] < |cells|;
  }

  /** The loop of `maxViews` from cell `i` on, with the current piece
      starting at `start`: its union is `Hull(cells, start, i)`. A cell joins
      the piece while the union stays narrower than `maxWidth`; otherwise a
      piece ends before it. The last boundary is the number of cells. */
  function Breaks(cells: seq<Rect>, maxWidth: int, start: nat, i: nat): (r: seq<nat>)
    requires start < i <= |cells|
    requires i - start >= 2 ==> Hull(cells, start, i).width < maxWidth
    ensures ValidFrom(start, r, |cells|)
    ensures GroupsFitFrom(cells, maxWidth, start, r)
    ensures MaximalFrom(cells, maxWidth, start, r)
    decreases |cells| - i
  {
    if i == |cells| then
      assert PrevFrom(start, [|cells|], 0) == start;
      [|cells|]
    else if Union(Hull(cells, start, i), cells[i]).width < maxWidth then
      Breaks(cells, maxWidth, start, i + 1)
    else
      var rest := Breaks(cells, maxWidth, i, i + 1);
      ConsGroup(cells, maxWidth, start, i, rest);
      [i] + rest
  }

  /** `maxViews`: the greedy cut of a strip's cells into pieces, as the
      exclusive end of each piece; `First()` of no cells throws. */
  function MaxViews(cells: seq<Rect>, maxWidth: int): (r: Result<seq<nat>>)
    ensures r.Err? <==> |cells| == 0
    ensures r.Err? ==> r.failure == EmptySequence
    ensures r.Ok? ==> ValidFrom(0, r.value, |cells|)
    ensures r.Ok? ==> GroupsFitFrom(cells, maxWidth, 0, r.value)
    ensures r.Ok? ==> MaximalFrom(cells, maxWidth, 0, r.value)
  {
    if |cells| == 0 then Err(EmptySequence) else Ok(Breaks(cells, maxWidth, 0, 1))
  }

  // ---------------------------------------------------------------------
  // Balancing the pieces

  /** Moving the last cell of the piece `first..middle` to the front of the
      next piece `middle..last` is allowed: the first piece keeps a cell and
      is the wider, the second stays narrower than `maxWidth`, and the
      balance of the two widths does not get worse. */
  ghost predicate Forwardable(cells: seq<Rect>, maxWidth: int, first: nat, middle: nat, last: nat)
    requires first < middle < last <= |cells|
  {
    middle - first >= 2 &&
    Hull(cells, first, middle).width > Hull(cells, middle, last).width &&
    Hull(cells, middle - 1, last).width < maxWidth &&
    !Greater(Balance(Hull(cells, first, middle - 1).width, Hull(cells, middle - 1, last).width),
             Balance(Hull(cells, first, middle).width, Hull(cells, middle, last).width))
  }

  /** `canForward`, returning its answer and the value left in its `ref`
      balance argument: the balance before the move once the width tests
      pass, the argument unchanged otherwise. */
  function CanForward(cells: seq<Rect>, maxWidth: int, first: nat, middle: nat, last: nat,
                      currentBalance: Double): (r: (bool, Double))
    requires first < middle < last <= |cells|
    ensures r.0 <==> Forwardable(cells, maxWidth, first, middle, last)
    ensures r.0 ==> r.1 == Balance(Hull(cells, first, middle).width, Hull(cells, middle, last).width)
  {
    if middle - first <= 1 then (false, currentBalance)
    else
      var w1Before := GetWidth(cells, first, middle - first).value;
      var w2Before := GetWidth(cells, middle, last - middle).value;
      if w1Before <= w2Before then (false, currentBalance)
      else
        var w2After := GetWidth(cells, middle - 1, last - middle + 1).value;
        if w2After >= maxWidth then (false, currentBalance)
        else
          var w1After := GetWidth(cells, first, middle - first - 1).value;
          var before := Balance(w1Before, w2Before);
          (!Greater(Balance(w1After, w2After), before), before)
  }

  /** The balance of the pair of pieces `k` and `k + 1`. */
  ghost function PairBalance(cells: seq<Rect>, views: seq<nat>, k: nat): Double
    requires ValidFrom(0, views, |cells|) && k < |views| - 1
  {
    Balance(Hull(cells, PrevFrom(0, views, k), views[k]).width, Hull(cells, views[k], views[k + 1]).width)
  }

  ghost predicate ForwardableAt(cells: seq<Rect>, maxWidth: int, views: seq<nat>, k: nat)
    requires ValidFrom(0, views, |cells|) && k < |views| - 1
  {
    Forwardable(cells, maxWidth, PrevFrom(0, views, k), views[k], views[k + 1])
  }

  /** The `canForward` call of each pair of consecutive pieces, in order,
      with the balance argument starting at 0.0 as in the loop. */
  function PairSteps(cells: seq<Rect>, maxWidth: int, views: seq<nat>): (steps: seq<(bool, Double)>)
    requires ValidFrom(0, views, |cells|)
    ensures |steps| == |views| - 1
    ensures forall k :: 0 <= k < |steps| ==> steps[k] == StepAt(cells, maxWidth, views, k)
  {
    StepsBelow(cells, maxWidth, views, |views| - 1)
  }

  /** The calls of the first `n` pairs. */
  function StepsBelow(cells: seq<Rect>, maxWidth: int, views: seq<nat>, n: nat): (steps: seq<(bool, Double)>)
    requires ValidFrom(0, views, |cells|) && n <= |views| - 1
    ensures |steps| == n
    ensures forall k :: 0 <= k < n ==> steps[k] == StepAt(cells, maxWidth, views, k)
  {
    if n == 0 then [] else StepsBelow(cells, maxWidth, views, n - 1) + [StepAt(cells, maxWidth, views, n - 1)]
  }

  /** The `canForward` call of pair `k`. */
  function StepAt(cells: seq<Rect>, maxWidth: int, views: seq<nat>, k: nat): (bool, Double)
    requires ValidFrom(0, views, |cells|) && k < |views| - 1
  {
    CanForward(cells, maxWidth, PrevFrom(0, views, k), views[k], views[k + 1], Finite(0.0))
  }

  /** Step `k` of the scan says whether pair `k` can forward a cell and,
      when it can, the pair's balance. */
  lemma PairStep(cells: seq<Rect>, maxWidth: int, views: seq<nat>, k: nat)
    requires ValidFrom(0, views, |cells|) && k < |views| - 1
    ensures PairSteps(cells, maxWidth, views)[k].0 <==> ForwardableAt(cells, maxWidth, views, k)
    ensures PairSteps(cells, maxWidth, views)[k].0 ==>
      PairSteps(cells, maxWidth, views)[k].1 == PairBalance(cells, views, k)
  {
  }

  /** The inner loop of `balance` from pair `i` on: the pair whose cell can
      be forwarded and whose balance beats every balance seen so far,
      including `worse` carried over from earlier rounds; -1 when none. */
  function FindWorst(steps: seq<(bool, Double)>, i: nat, worse: Double, index: int): (r: (int, Double))
    requires i <= |steps| && !worse.NaN?
    requires index == -1 || (0 <= index < i && steps[index].0)
    ensures !r.1.NaN?
    ensures r.0 == -1 || (0 <= r.0 < |steps| && steps[r.0].0)
    ensures r.0 == index ==> r.1 == worse
    ensures r.0 != index ==> i <= r.0 < |steps| && Greater(r.1, worse) && r.1 == steps[r.0].1
    ensures forall k :: i <= k < |steps| && steps[k].0 ==> !Greater(steps[k].1, r.1)
    decreases |steps| - i
  {
    if i == |steps| then (index, worse)
    else if steps[i].0 && Greater(steps[i].1, worse) then
      var r := FindWorst(steps, i + 1, steps[i].1, i);
      GreaterOrder(r.1, steps[i].1, worse);
      GreaterOrder(steps[i].1, r.1, steps[i].1);
      r
    else
      var r := FindWorst(steps, i + 1, worse, index);
      GreaterOrder(steps[i].1, worse, r.1);
      r
  }

  /** The pair the inner loop picks can forward a cell, and its balance is
      the record returned. */
  lemma WorstPairForwardable(cells: seq<Rect>, maxWidth: int, views: seq<nat>, worse: Double)
    requires ValidFrom(0, views, |cells|) && !worse.NaN?
    ensures var r := FindWorst(PairSteps(cells, maxWidth, views), 0, worse, -1);
      r.0 == -1 || (0 <= r.0 < |views| - 1 && ForwardableAt(cells, maxWidth, views, r.0) &&
                    r.1 == PairBalance(cells, views, r.0))
  {
    var r := FindWorst(PairSteps(cells, maxWidth, views), 0, worse, -1);
    if r.0 != -1 {
      PairStep(cells, maxWidth, views, r.0);
    }
  }

  /** No pair that can forward a cell is more unbalanced than the record the
      inner loop returns. */
  lemma WorstPairIsWorst(cells: seq<Rect>, maxWidth: int, views: seq<nat>, worse: Double)
    requires ValidFrom(0, views, |cells|) && !worse.NaN?
    ensures var r := FindWorst(PairSteps(cells, maxWidth, views), 0, worse, -1);
      forall k :: 0 <= k < |views| - 1 && ForwardableAt(cells, maxWidth, views, k) ==>
        !Greater(PairBalance(cells, views, k), r.1)
  {
    var r := FindWorst(PairSteps(cells, maxWidth, views), 0, worse, -1);
    forall k | 0 <= k < |views| - 1 && ForwardableAt(cells, maxWidth, views, k)
      ensures !Greater(PairBalance(cells, views, k), r.1)
    {
      PairStep(cells, maxWidth, views, k);
    }
  }

  function Sum(s: seq<nat>): nat {
    if |s| == 0 then 0 else Sum(s[..|s| - 1]) + s[|s| - 1]
  }

  lemma {:induction false} SumDecrement(s: seq<nat>, i: nat)
    requires i < |s| && s[i] > 0
    ensures Sum(s[i := s[i] - 1]) == Sum(s) - 1
    decreases |s|
  {
    var t := s[i := s[i] - 1];
    if i < |s| - 1 {
      assert t[..|t| - 1] == s[..|s| - 1][i := s[i] - 1];
      SumDecrement(s[..|s| - 1], i);
    } else {
      assert t[..|t| - 1] == s[..|s| - 1];
    }
  }

  /** Moving a cell forward at pair `index` keeps the pieces valid. */
  lemma MoveKeepsValid(views: seq<nat>, n: nat, index: nat)
    requires ValidFrom(0, views, n) && index < |views| - 1
    requires views[index] - PrevFrom(0, views, index) >= 2
    ensures views[index] > 0
    ensures ValidFrom(0, views[index := views[index] - 1], n)
  {
    var v := views[index := views[index] - 1];
    forall j, k | 0 <= j < k < |v|
      ensures v[j] < v[k]
    {
      if k == index && index > 0 {
        assert PrevFrom(0, views, index) == views[index - 1];
        assert views[j] <= views[index - 1];
      }
    }
  }

  /** Moving a cell forward keeps every piece of two cells or more narrower
      than `maxWidth`: the donor only shrinks and the receiver was checked. */
  lemma MoveKeepsFit(cells: seq<Rect>, maxWidth: int, views: seq<nat>, index: nat)
    requires ValidFrom(0, views, |cells|) && index < |views| - 1
    requires views[index] - PrevFrom(0, views, index) >= 2
    requires Hull(cells, views[index] - 1, views[index + 1]).width < maxWidth
    requires ValidFrom(0, views[index := views[index] - 1], |cells|)
    ensures GroupsFitFrom(cells, maxWidth, 0, views) ==>
      GroupsFitFrom(cells, maxWidth, 0, views[index := views[index] - 1])
  {
    var v := views[index := views[index] - 1];
    if GroupsFitFrom(cells, maxWidth, 0, views) {
      forall k | 0 <= k < |v| && v[k] - PrevFrom(0, v, k) >= 2
        ensures Hull(cells, PrevFrom(0, v, k), v[k]).width < maxWidth
      {
        MoveFitAt(cells, maxWidth, views, index, k);
      }
    }
  }

  lemma MoveFitAt(cells: seq<Rect>, maxWidth: int, views: seq<nat>, index: nat, k: nat)
    requires ValidFrom(0, views, |cells|) && index < |views| - 1
    requires views[index] - PrevFrom(0, views, index) >= 2
    requires Hull(cells, views[index] - 1, views[index + 1]).width < maxWidth
    requires ValidFrom(0, views[index := views[index] - 1], |cells|)
    requires GroupsFitFrom(cells, maxWidth, 0, views)
    requires k < |views|
    requires var v := views[index := views[index] - 1]; v[k] - PrevFrom(0, v, k) >= 2
    ensures var v := views[index := views[index] - 1]; Hull(cells, PrevFrom(0, v, k), v[k]).width < maxWidth
  {
    var v := views[index := views[index] - 1];
    if k == index {
      var p := PrevFrom(0, views, k);
      assert PrevFrom(0, v, k) == p && v[k] == views[k] - 1;
      HullGrows(cells, p, views[k]);
      assert Hull(cells, p, views[k]).width < maxWidth;
    } else if k == index + 1 {
      assert PrevFrom(0, v, k) == views[index] - 1;
    } else {
      assert PrevFrom(0, v, k) == PrevFrom(0, views, k) && v[k] == views[k];
    }
  }

  /** `balance(views, cells)`: while some pair beats the worst balance seen
      so far and that record is at least 0.2, the boundary of the most
      unbalanced pair moves one cell back. The record is never reset. */
  function BalanceViews(cells: seq<Rect>, maxWidth: int, views: seq<nat>, worse: Double): (r: seq<nat>)
    requires ValidFrom(0, views, |cells|) && !worse.NaN?
    ensures ValidFrom(0, r, |cells|) && |r| == |views|
    ensures forall k :: 0 <= k < |r| ==> r[k] <= views[k]
    ensures GroupsFitFrom(cells, maxWidth, 0, views) ==> GroupsFitFrom(cells, maxWidth, 0, r)
    decreases Sum(views)
  {
    var step := BalanceOnce(cells, maxWidth, views, worse);
    if step.0 == views then views
    else
      var r := BalanceViews(cells, maxWidth, step.0, step.1);
      r
  }

  /** One round of `balance`: the pieces after moving the boundary of the
      most unbalanced pair, with the new record; the pieces unchanged when
      the loop stops. */
  function BalanceOnce(cells: seq<Rect>, maxWidth: int, views: seq<nat>, worse: Double): (r: (seq<nat>, Double))
    requires ValidFrom(0, views, |cells|) && !worse.NaN?
    ensures ValidFrom(0, r.0, |cells|) && |r.0| == |views| && !r.1.NaN?
    ensures r.0 != views ==> Sum(r.0) < Sum(views)
    ensures forall k :: 0 <= k < |r.0| ==> r.0[k] <= views[k]
    ensures GroupsFitFrom(cells, maxWidth, 0, views) ==> GroupsFitFrom(cells, maxWidth, 0, r.0)
  {
    var found := WorstPair(cells, maxWidth, views, worse);
    if Below(found.1, 0.2) || found.0 == -1 then (views, worse)
    else (MoveBack(cells, maxWidth, views, found.0), found.1)
  }

  /** The pair the loop picks from `views`, by way of the `canForward`
      calls, as the pair and its balance. */
  function WorstPair(cells: seq<Rect>, maxWidth: int, views: seq<nat>, worse: Double): (r: (int, Double))
    requires ValidFrom(0, views, |cells|) && !worse.NaN?
    ensures !r.1.NaN?
    ensures r.0 == -1 || (0 <= r.0 < |views| - 1 && ForwardableAt(cells, maxWidth, views, r.0) &&
                          r.1 == PairBalance(cells, views, r.0))
  {
    WorstPairForwardable(cells, maxWidth, views, worse);
    FindWorst(PairSteps(cells, maxWidth, views), 0, worse, -1)
  }

  /** Moving the cell of a pair that can forward one. */
  lemma MoveAt(cells: seq<Rect>, maxWidth: int, views: seq<nat>, index: nat)
    requires ValidFrom(0, views, |cells|) && index < |views| - 1
    requires ForwardableAt(cells, maxWidth, views, index)
    ensures views[index] > 0
    ensures ValidFrom(0, views[index := views[index] - 1], |cells|)
    ensures Sum(views[index := views[index] - 1]) < Sum(views)
    ensures GroupsFitFrom(cells, maxWidth, 0, views) ==>
      GroupsFitFrom(cells, maxWidth, 0, views[index := views[index] - 1])
  {
    ForwardableFacts(cells, maxWidth, views, index);
    MoveKeepsValid(views, |cells|, index);
    SumDecrement(views, index);
    MoveKeepsFit(cells, maxWidth, views, index);
  }

  lemma ForwardableFacts(cells: seq<Rect>, maxWidth: int, views: seq<nat>, index: nat)
    requires ValidFrom(0, views, |cells|) && index < |views| - 1
    requires ForwardableAt(cells, maxWidth, views, index)
    ensures views[index] - PrevFrom(0, views, index) >= 2
    ensures Hull(cells, views[index] - 1, views[index + 1]).width < maxWidth
  {
  }

  /** The boundary of a forwardable pair moved one cell back: the pieces
      stay valid, every boundary stays or moves back, and groups that fit
      still fit. */
  function MoveBack(cells: seq<Rect>, maxWidth: int, views: seq<nat>, index: int): (moved: seq<nat>)
    requires ValidFrom(0, views, |cells|) && 0 <= index < |views| - 1
    requires ForwardableAt(cells, maxWidth, views, index)
    ensures ValidFrom(0, moved, |cells|) && |moved| == |views| && Sum(moved) < Sum(views)
    ensures forall k :: 0 <= k < |moved| ==> moved[k] <= views[k]
    ensures moved[index] == views[index] - 1
    ensures GroupsFitFrom(cells, maxWidth, 0, views) ==> GroupsFitFrom(cells, maxWidth, 0, moved)
  {
    MoveAt(cells, maxWidth, views, index);
    views[index := views[index] - 1]
  }

  // ---------------------------------------------------------------------
  // Emitting the pieces

  /** The inner `while` of `ComputeView`: `viewRect` grown by the cells
      from `i` up to `end`. */
  function Grow(cells: seq<Rect>, acc: Rect, i: nat, end: nat): Rect
    requires end <= |cells|
    decreases end - i
  {
    if i >= end then acc else Grow(cells, Union(acc, cells[i]), i + 1, end)
  }

  /** Growing the hull of `lo..i` up to `hi` gives the hull of `lo..hi`. */
  lemma {:induction false} GrowHull(cells: seq<Rect>, lo: nat, i: nat, hi: nat)
    requires lo < i <= hi <= |cells|
    ensures Grow(cells, Hull(cells, lo, i), i, hi) == Hull(cells, lo, hi)
    decreases hi - i
  {
    if i < hi {
      assert Hull(cells, lo, i + 1) == Union(Hull(cells, lo, i), cells[i]);
      GrowHull(cells, lo, i + 1, hi);
    }
  }

  /** The hull of group `k`. */
  function GroupHull(cells: seq<Rect>, views: seq<nat>, k: nat): (h: Rect)
    requires ValidFrom(0, views, |cells|) && k < |views|
    ensures PrevFrom(0, views, k) < views[k] <= |cells|
    ensures h == Hull(cells, PrevFrom(0, views, k), views[k])
  {
    GroupBounds(views, |cells|, k);
    Hull(cells, PrevFrom(0, views, k), views[k])
  }

  /** Group `k` is a non-empty range of cells. */
  lemma GroupBounds(views: seq<nat>, n: nat, k: nat)
    requires ValidFrom(0, views, n) && k < |views|
    ensures PrevFrom(0, views, k) < views[k] <= n
  {
    if k > 0 {
      assert views[k - 1] < views[k];
    }
  }

  /** The outer loop of `ComputeView` from piece `j` on, with `i` the first
      cell not yet emitted: each piece is the hull of its cells. */
  function Pieces(cells: seq<Rect>, views: seq<nat>, j: nat, i: nat): (r: seq<Rect>)
    requires ValidFrom(0, views, |cells|) && j <= |views|
    requires i == if j == 0 then 0 else views[j - 1]
    ensures |r| == |views| - j
    ensures forall k :: j <= k < |views| ==> r[k - j] == GroupHull(cells, views, k)
    decreases |views| - j
  {
    if j == |views| then []
    else
      GroupBounds(views, |cells|, j);
      GrowHull(cells, i, i + 1, views[j]);
      var piece := Grow(cells, cells[i], i + 1, views[j]);
      var rest := Pieces(cells, views, j + 1, views[j]);
      PiecesCons(cells, views, j, piece, rest);
      [piece] + rest
  }

  lemma PiecesCons(cells: seq<Rect>, views: seq<nat>, j: nat, piece: Rect, rest: seq<Rect>)
    requires ValidFrom(0, views, |cells|) && j < |views|
    requires piece == GroupHull(cells, views, j)
    requires |rest| == |views| - j - 1
    requires forall k :: j + 1 <= k < |views| ==> rest[k - j - 1] == GroupHull(cells, views, k)
    ensures forall k :: j <= k < |views| ==> ([piece] + rest)[k - j] == GroupHull(cells, views, k)
  {
    forall k | j <= k < |views|
      ensures ([piece] + rest)[k - j] == GroupHull(cells, views, k)
    {
      if k > j {
        assert ([piece] + rest)[k - j] == rest[k - j - 1];
      }
    }
  }

  /** Under fitting groups, every piece is narrower than `maxWidth` or is a
      single cell. */
  lemma PiecesFit(cells: seq<Rect>, maxWidth: int, views: seq<nat>)
    requires ValidFrom(0, views, |cells|) && GroupsFitFrom(cells, maxWidth, 0, views)
    ensures forall p :: p in Pieces(cells, views, 0, 0) ==> p.width < maxWidth || p in cells
  {
    var r := Pieces(cells, views, 0, 0);
    forall p | p in r
      ensures p.width < maxWidth || p in cells
    {
      var k :| 0 <= k < |r| && r[k] == p;
      assert p == GroupHull(cells, views, k - 0);
      if views[k] - PrevFrom(0, views, k) < 2 {
        assert p == Hull(cells, PrevFrom(0, views, k), views[k]) == cells[PrevFrom(0, views, k)];
      }
    }
  }

  /** The index of the group of cell `c`: the first boundary beyond it. */
  function GroupOf(views: seq<nat>, c: nat, k: nat): (g: nat)
    requires k < |views| && c < views[|views| - 1]
    ensures k <= g < |views| && c < views[g]
    ensures forall m :: k <= m < g ==> views[m] <= c
    decreases |views| - k
  {
    if c < views[k] then k else GroupOf(views, c, k + 1)
  }

  /** Every cell lies in the piece of its group. */
  lemma PiecesCover(cells: seq<Rect>, views: seq<nat>, c: nat)
    requires ValidFrom(0, views, |cells|) && c < |cells|
    ensures exists k :: 0 <= k < |views| && ContainsRect(Pieces(cells, views, 0, 0)[k], cells[c])
  {
    var g := GroupOf(views, c, 0);
    var lo := PrevFrom(0, views, g);
    assert lo <= c by {
      if g > 0 {
        assert views[g - 1] <= c;
      }
    }
    HullContains(cells, lo, views[g]);
    assert Pieces(cells, views, 0, 0)[g - 0] == GroupHull(cells, views, g);
    assert ContainsRect(Pieces(cells, views, 0, 0)[g], cells[c]);
  }

  /** The splitting of one strip: a strip narrower than the view is
      emitted whole; otherwise its cells are merged by a cells viewer with
      the strip's limits, cut greedily, balanced, and emitted piece by
      piece. */
  function SplitStrip(sv: StripViewer, m: Merge): (r: Result<seq<Rect>>)
    ensures m.rect.width < sv.maxWidth ==> r == Ok([m.rect])
    ensures r.Ok? ==> 1 <= |r.value| && (m.rect.width >= sv.maxWidth ==> |r.value| <= |m.parts|)
    ensures r.Ok? ==> forall p :: p in r.value ==>
      p.width <= sv.maxWidth || sv.maxWidth == -1 || p in m.parts
    ensures r.Err? <==> (m.rect.width >= sv.maxWidth &&
      (|m.parts| == 0 || !MergeCellsIterative(NewViewer(CellsKind, sv.maxWidth, sv.maxHeight), m.parts).Ok?))
  {
    if m.rect.width < sv.maxWidth then Ok([m.rect])
    else
      var inner :- MergeCellsIterative(NewViewer(CellsKind, sv.maxWidth, sv.maxHeight), m.parts);
      var cells := Rects(inner);
      InnerCells(sv, m.parts, inner);
      var views :- MaxViews(cells, sv.maxWidth);
      var balanced := BalanceViews(cells, sv.maxWidth, views, Finite(0.0));
      PiecesFit(cells, sv.maxWidth, balanced);
      ValidCount(0, balanced, |cells|);
      Ok(Pieces(cells, balanced, 0, 0))
  }

  /** The cells a strip splits into: as many as its parts at most, at least
      one when it has parts, and each one of the parts or within the
      limits. */
  lemma InnerCells(sv: StripViewer, parts: seq<Rect>, inner: seq<Merge>)
    requires MergeCellsIterative(NewViewer(CellsKind, sv.maxWidth, sv.maxHeight), parts) == Ok(inner)
    ensures |Rects(inner)| <= |parts| && (|parts| > 0 ==> |Rects(inner)| > 0)
    ensures forall c :: c in Rects(inner) ==> c in parts || sv.maxWidth == -1 || c.width <= sv.maxWidth
  {
    var v := NewViewer(CellsKind, sv.maxWidth, sv.maxHeight);
    MergeCellsIterativeMeaning(v, parts);
    if |parts| > 0 {
      assert exists m :: 0 <= m < |inner| && ContainsRect(inner[m].rect, parts[0]);
    }
  }

  /** Boundary `k` is at least `start + k + 1`. */
  lemma {:induction false} ValidLower(start: nat, views: seq<nat>, n: nat, k: nat)
    requires ValidFrom(start, views, n) && k < |views|
    ensures views[k] >= start + k + 1
  {
    if k > 0 {
      ValidLower(start, views, n, k - 1);
      assert views[k - 1] < views[k];
    }
  }

  /** There are no more groups than cells. */
  lemma ValidCount(start: nat, views: seq<nat>, n: nat)
    requires ValidFrom(start, views, n)
    ensures |views| <= n - start
  {
    ValidLower(start, views, n, |views| - 1);
  }

  /** When a wide strip is split, each of its parts lies in one of the
      pieces. A strip emitted whole need not contain its parts: a part
      whose union would break the cells limits is listed without being
      merged. */
  lemma SplitStripCovers(sv: StripViewer, m: Merge, part: Rect)
    requires SplitStrip(sv, m).Ok? && m.rect.width >= sv.maxWidth && part in m.parts
    ensures exists p :: p in SplitStrip(sv, m).value && ContainsRect(p, part)
  {
    var v := NewViewer(CellsKind, sv.maxWidth, sv.maxHeight);
    var inner := MergeCellsIterative(v, m.parts).value;
    var cells := Rects(inner);
    var views := MaxViews(cells, sv.maxWidth).value;
    var balanced := BalanceViews(cells, sv.maxWidth, views, Finite(0.0));
    var pieces := Pieces(cells, balanced, 0, 0);
    assert SplitStrip(sv, m).value == pieces;
    PiecesCoverParts(v, m.parts, inner, balanced, part);
    var k :| 0 <= k < |pieces| && ContainsRect(pieces[k], part);
    assert pieces[k] in SplitStrip(sv, m).value;
  }

  /** Some piece of the merged parts' cells contains a given part. */
  lemma PiecesCoverParts(v: MergingViewer, parts: seq<Rect>, inner: seq<Merge>, views: seq<nat>, part: Rect)
    requires MergeCellsIterative(v, parts) == Ok(inner) && part in parts
    requires ValidFrom(0, views, |Rects(inner)|)
    ensures exists k :: 0 <= k < |views| && ContainsRect(Pieces(Rects(inner), views, 0, 0)[k], part)
  {
    var cells := Rects(inner);
    MergeCellsIterativeMeaning(v, parts);
    var i :| 0 <= i < |parts| && parts[i] == part;
    var g :| 0 <= g < |inner| && ContainsRect(inner[g].rect, parts[i]);
    PiecesCover(cells, views, g);
    var k :| 0 <= k < |views| && ContainsRect(Pieces(cells, views, 0, 0)[k], cells[g]);
    assert ContainsRect(Pieces(cells, views, 0, 0)[k], part);
  }

  /** The `foreach` over the strips, in order. */
  function SplitAll(sv: StripViewer, strips: seq<Merge>): (r: Result<seq<Rect>>)
    ensures r.Ok? ==> |r.value| >= |strips|
    ensures r.Ok? ==> forall p :: p in r.value ==>
      p.width <= sv.maxWidth || sv.maxWidth == -1 || exists s :: s in strips && p in s.parts
    ensures r.Ok? <==> forall s :: s in strips ==> SplitStrip(sv, s).Ok?
  {
    if strips == [] then Ok([])
    else
      var first :- SplitStrip(sv, strips[0]);
      var rest :- SplitAll(sv, strips[1..]);
      SplitAllCons(sv, strips, first, rest);
      Ok(first + rest)
  }

  lemma SplitAllCons(sv: StripViewer, strips: seq<Merge>, first: seq<Rect>, rest: seq<Rect>)
    requires |strips| > 0 && SplitStrip(sv, strips[0]) == Ok(first)
    requires forall p :: p in rest ==>
      p.width <= sv.maxWidth || sv.maxWidth == -1 || exists s :: s in strips[1..] && p in s.parts
    ensures forall p :: p in first + rest ==>
      p.width <= sv.maxWidth || sv.maxWidth == -1 || exists s :: s in strips && p in s.parts
  {
    forall p | p in first + rest && !(p.width <= sv.maxWidth || sv.maxWidth == -1)
      ensures exists s :: s in strips && p in s.parts
    {
      if p in first {
        assert strips[0] in strips;
      } else {
        var s :| s in strips[1..] && p in s.parts;
        assert s in strips;
      }
    }
  }

  /** `StripPageViewer.ComputeView`: the strips of the bounding boxes,
      merged without limits, each split to fit. Every emitted rectangle is
      within the view's width, or the width is unlimited, or it is one of
      the boxes as given. */
  function ComputeView(sv: StripViewer, boxes: seq<Rect>): (r: Result<seq<Rect>>)
    requires sv.base.kind == StripKind
    ensures r.Ok? ==> forall p :: p in r.value ==> p.width <= sv.maxWidth || sv.maxWidth == -1 || p in boxes
    ensures boxes == [] ==> r == Ok([])
  {
    var strips := MergeCellsIterative(sv.base, boxes).value;
    MergeCellsIterativeParts(sv.base, boxes);
    SplitAll(sv, strips)
  }

  /** The strip viewer only fails on a zero-area box. */
  lemma ComputeViewOk(sv: StripViewer, boxes: seq<Rect>)
    requires sv.base.kind == StripKind
    requires forall k :: 0 <= k < |boxes| ==> Positive(boxes[k])
    ensures ComputeView(sv, boxes).Ok?
  {
    var strips := MergeCellsIterative(sv.base, boxes).value;
    MergeCellsIterativeParts(sv.base, boxes);
    MergeCellsIterativeHasParts(sv.base, boxes);
    forall s | s in strips
      ensures SplitStrip(sv, s).Ok?
    {
      var m :| 0 <= m < |strips| && strips[m] == s;
      forall q | 0 <= q < |s.parts|
        ensures Positive(s.parts[q])
      {
        assert s.parts[q] in strips[m].parts;
        assert s.parts[q] in boxes;
      }
    }
  }

  lemma {:induction false} SplitAllNarrow(sv: StripViewer, strips: seq<Merge>)
    requires forall m :: 0 <= m < |strips| ==> strips[m].rect.width < sv.maxWidth
    ensures SplitAll(sv, strips) == Ok(Rects(strips))
  {
    if strips != [] {
      SplitAllNarrow(sv, strips[1..]);
      assert Rects(strips) == [strips[0].rect] + Rects(strips[1..]);
    }
  }

  /** When every strip of the unlimited merging is narrower than the view,
      the strip viewer returns the strips themselves, as the plain merging
      viewer does. */
  lemma NarrowStripsUnsplit(sv: StripViewer, boxes: seq<Rect>)
    requires sv.base.kind == StripKind
    requires forall p :: p in Merging.ComputeView(sv.base, boxes).value ==> p.width < sv.maxWidth
    ensures ComputeView(sv, boxes) == Merging.ComputeView(sv.base, boxes)
  {
    var strips := MergeCellsIterative(sv.base, boxes).value;
    ViewOfGroups(sv.base, boxes, strips);
    forall m | 0 <= m < |strips|
      ensures strips[m].rect.width < sv.maxWidth
    {
      assert Rects(strips)[m] in Merging.ComputeView(sv.base, boxes).value;
    }
    SplitAllNarrow(sv, strips);
  }

  // ---------------------------------------------------------------------
  // The five-cell strip test: two rows of cells, a view far wider than both

  // `RectanglePoly(x1, y1, x2, y2)` is the rectangle from (x1, y1) to (x2, y2).
  const Top1: Rect := Rect(100, 100, 100, 100)
  const Top2: Rect := Rect(230, 100, 70, 80)
  const Top3: Rect := Rect(310, 120, 90, 100)
  const Bottom1: Rect := Rect(100, 220, 200, 120)
  const Bottom2: Rect := Rect(330, 220, 70, 110)
  const TopPair: Rect := Rect(100, 100, 200, 100)
  const TopRow: Merge := Merge(Rect(100, 100, 300, 120), [Top1, Top2, Top3])
  const BottomRow: Merge := Merge(Rect(100, 220, 300, 120), [Bottom1, Bottom2])

  /** The overlaps the first pass decides: the first cell shares more than
      half its rows with the second and third cells and none with the
      bottom row, and the two bottom cells share more than half of theirs. */
  lemma StripOverlaps()
    ensures StripOverlap(Top1, Top2) && StripOverlap(Top1, Top3)
    ensures !StripOverlap(Top1, Bottom1) && !StripOverlap(Top1, Bottom2)
    ensures StripOverlap(Bottom1, Bottom2)
  {
  }

  lemma StripUnionTop12()
    ensures Union(Top1, Top2) == TopPair
  {
    UnionIs(Top1, Top2, TopPair);
  }

  lemma StripUnionTop()
    ensures Union(TopPair, Top3) == TopRow.rect
  {
    UnionIs(TopPair, Top3, TopRow.rect);
  }

  lemma StripUnionBottom()
    ensures Union(Bottom1, Bottom2) == BottomRow.rect
  {
    UnionIs(Bottom1, Bottom2, BottomRow.rect);
  }

  /** The union in the order the test writes it. */
  lemma StripUnionTopNested()
    ensures Union(Top1, Union(Top2, Top3)) == TopRow.rect
  {
    UnionIs(Top2, Top3, Rect(230, 100, 170, 120));
    UnionIs(Top1, Rect(230, 100, 170, 120), TopRow.rect);
  }

  /** Each test cell as its own group. */
  const StripCells: seq<Merge> := [Merge(Top1, [Top1]), Merge(Top2, [Top2]), Merge(Top3, [Top3]),
                                   Merge(Bottom1, [Bottom1]), Merge(Bottom2, [Bottom2])]

  /** A merging viewer without size limits, as the strip viewer's is. */
  predicate Unlimited(v: MergingViewer) {
    v.kind == StripKind && v.maxWidth == -1 && v.maxHeight == -1
  }

  lemma StripSingletons()
    ensures Singletons([Top1, Top2, Top3, Bottom1, Bottom2]) == StripCells
  {
  }

  /** One turn of the scan that absorbs cell `j`. */
  lemma ScanAbsorbs(v: MergingViewer, cells: seq<Merge>, ref: nat, j: nat, merged: seq<bool>, acc: Merge)
    requires Unlimited(v) && ref < j < |cells| == |merged| && !merged[j]
    requires StripOverlap(cells[ref].rect, cells[j].rect)
    ensures Scan(v, cells, ref, j, merged, acc) ==
      Scan(v, cells, ref, j + 1, merged[j := true], Merge(Union(acc.rect, cells[j].rect), acc.parts + cells[j].parts))
  {
  }

  /** One turn of the scan that passes over cell `j`. */
  lemma ScanSkips(v: MergingViewer, cells: seq<Merge>, ref: nat, j: nat, merged: seq<bool>, acc: Merge)
    requires Unlimited(v) && ref < j < |cells| == |merged|
    requires merged[j] || !StripOverlap(cells[ref].rect, cells[j].rect)
    ensures Scan(v, cells, ref, j, merged, acc) == Scan(v, cells, ref, j + 1, merged, acc)
  {
  }

  /** One turn of a pass over an absorbed cell. */
  lemma PassSkips(v: MergingViewer, cells: seq<Merge>, i: nat, merged: seq<bool>)
    requires i < |cells| == |merged| && merged[i]
    ensures Pass(v, cells, i, merged) == Pass(v, cells, i + 1, merged)
  {
  }

  /** The second cell joins the first cell's group. */
  lemma StripTopSecond(v: MergingViewer)
    requires Unlimited(v)
    ensures Scan(v, StripCells, 0, 1, [false, false, false, false, false], StripCells[0]) ==
      Scan(v, StripCells, 0, 2, [false, true, false, false, false], Merge(TopPair, [Top1, Top2]))
  {
    var m0 := [false, false, false, false, false];
    assert StripCells[0] == Merge(Top1, [Top1]) && StripCells[1] == Merge(Top2, [Top2]);
    assert StripOverlap(Top1, Top2) by {
      StripOverlaps();
    }
    ScanAbsorbs(v, StripCells, 0, 1, m0, StripCells[0]);
    assert m0[1 := true] == [false, true, false, false, false];
    assert [Top1] + [Top2] == [Top1, Top2];
    StripUnionTop12();
  }

  /** The third cell joins it too. */
  lemma StripTopThird(v: MergingViewer)
    requires Unlimited(v)
    ensures Scan(v, StripCells, 0, 2, [false, true, false, false, false], Merge(TopPair, [Top1, Top2])) ==
      Scan(v, StripCells, 0, 3, [false, true, true, false, false], TopRow)
  {
    var m1 := [false, true, false, false, false];
    assert StripCells[0].rect == Top1 && StripCells[2] == Merge(Top3, [Top3]);
    assert StripOverlap(Top1, Top3) by {
      StripOverlaps();
    }
    ScanAbsorbs(v, StripCells, 0, 2, m1, Merge(TopPair, [Top1, Top2]));
    assert m1[2 := true] == [false, true, true, false, false];
    assert [Top1, Top2] + [Top3] == TopRow.parts;
    StripUnionTop();
  }

  /** The bottom row stays out of the first cell's group. */
  lemma StripTopRest(v: MergingViewer)
    requires Unlimited(v)
    ensures Scan(v, StripCells, 0, 3, [false, true, true, false, false], TopRow) ==
      Ok((TopRow, [false, true, true, false, false]))
  {
    var m2 := [false, true, true, false, false];
    assert StripCells[0].rect == Top1 && StripCells[3].rect == Bottom1 && StripCells[4].rect == Bottom2;
    assert !StripOverlap(Top1, Bottom1) && !StripOverlap(Top1, Bottom2) by {
      StripOverlaps();
    }
    ScanSkips(v, StripCells, 0, 3, m2, TopRow);
    ScanSkips(v, StripCells, 0, 4, m2, TopRow);
  }

  /** The top row's group: the first cell takes in the second and third
      cells and none of the bottom row. */
  lemma StripTopScan(v: MergingViewer)
    requires Unlimited(v)
    ensures Scan(v, StripCells, 0, 1, [false, false, false, false, false], StripCells[0])
      == Ok((TopRow, [false, true, true, false, false]))
  {
    StripTopSecond(v);
    StripTopThird(v);
    StripTopRest(v);
  }

  /** The bottom row's group: the fourth cell takes in the fifth. */
  lemma StripBottomScan(v: MergingViewer)
    requires Unlimited(v)
    ensures Scan(v, StripCells, 3, 4, [false, true, true, false, false], StripCells[3])
      == Ok((BottomRow, [false, true, true, false, true]))
  {
    var c := StripCells;
    var m2 := [false, true, true, false, false];
    assert m2[4 := true] == [false, true, true, false, true];
    assert c[3] == Merge(Bottom1, [Bottom1]) && c[4] == Merge(Bottom2, [Bottom2]);
    assert [Bottom1] + [Bottom2] == BottomRow.parts;
    StripOverlaps();
    StripUnionBottom();
    ScanAbsorbs(v, c, 3, 4, m2, c[3]);
  }

  /** From the second cell on, the first pass yields the bottom row's group
      alone. */
  lemma StripPassRest(v: MergingViewer)
    requires Unlimited(v)
    ensures Pass(v, StripCells, 1, [false, true, true, false, false]) == Ok([BottomRow])
  {
    var c := StripCells;
    var m2 := [false, true, true, false, false];
    var m3 := [false, true, true, false, true];
    StripBottomScan(v);
    assert Pass(v, c, 5, m3) == Ok([]);
    PassSkips(v, c, 4, m3);
    PassStep(v, c, 3, m2, BottomRow, m3, []);
    assert [BottomRow] + [] == [BottomRow];
    PassSkips(v, c, 2, m2);
    PassSkips(v, c, 1, m2);
  }

  /** The first pass: one group per row. */
  lemma StripFirstPass(v: MergingViewer)
    requires Unlimited(v)
    ensures Pass(v, StripCells, 0, NoneMerged(5)) == Ok([TopRow, BottomRow])
  {
    var m0 := [false, false, false, false, false];
    assert NoneMerged(5) == m0;
    StripTopScan(v);
    StripPassRest(v);
    PassStep(v, StripCells, 0, m0, TopRow, [false, true, true, false, false], [BottomRow]);
    assert [TopRow] + [BottomRow] == [TopRow, BottomRow];
  }

  /** The two rows share no row of pixels, so the second pass keeps them. */
  lemma StripSecondPass(v: MergingViewer)
    requires Unlimited(v)
    ensures Iterate(v, [TopRow, BottomRow]) == Ok([TopRow, BottomRow])
  {
    var gs := [TopRow, BottomRow];
    assert !StripOverlap(TopRow.rect, BottomRow.rect);
    PassWithoutOverlap(v, gs, 0);
    assert gs[0..] == gs;
  }

  /** Merged, the five cells are the two rows. */
  lemma StripMerged(v: MergingViewer)
    requires Unlimited(v)
    ensures Merging.ComputeView(v, [Top1, Top2, Top3, Bottom1, Bottom2]) == Ok([TopRow.rect, BottomRow.rect])
  {
    var boxes := [Top1, Top2, Top3, Bottom1, Bottom2];
    StripSingletons();
    StripFirstPass(v);
    StripSecondPass(v);
    assert Iterate(v, StripCells) == Ok([TopRow, BottomRow]);
    assert MergeCellsIterative(v, boxes) == Ok([TopRow, BottomRow]);
    ViewOfGroups(v, boxes, [TopRow, BottomRow]);
    RectsPair(TopRow, BottomRow);
  }

  /** ViewsTests' strip test: five cells in two rows give one view per row,
      each the union of its row's cells. */
  lemma StripMergeTest()
    ensures ComputeView(NewStrip(2000, 2000), [Top1, Top2, Top3, Bottom1, Bottom2]) ==
      Ok([Union(Top1, Union(Top2, Top3)), Union(Bottom1, Bottom2)])
  {
    var sv := NewStrip(2000, 2000);
    var boxes := [Top1, Top2, Top3, Bottom1, Bottom2];
    assert Unlimited(sv.base) && sv.maxWidth == 2000;
    StripMerged(sv.base);
    var views := [TopRow.rect, BottomRow.rect];
    assert forall p :: p in views ==> p.width < 2000;
    NarrowStripsUnsplit(sv, boxes);
    StripUnionTopNested();
    StripUnionBottom();
  }
}
