/**
  The array helpers of hictools/utils.py that the compartment code relies
  on: the positions of a boolean mask, removal of isolated gap positions,
  filling one diagonal of a 2-D array in place, masking and indexing a
  nest of arrays, normalising a slice argument, and the dense symmetry test.
 */
module Utils {
  import opened Base
  import opened PySeq

  // ---------------------------------------------------------------------
  // np.where(mask)[0]

  /** The positions at or after `k` where `mask` is True, in increasing order. */
  function TrueIndicesFrom(mask: seq<bool>, k: nat): (r: seq<nat>)
    requires k <= |mask|
    ensures forall j :: 0 <= j < |r| ==> k <= r[j] < |mask| && mask[r[j]]
    ensures forall j, l :: 0 <= j < l < |r| ==> r[j] < r[l]
    ensures forall p :: k <= p < |mask| && mask[p] ==> p in r
    decreases |mask| - k
  {
    if k == |mask| then []
    else if mask[k] then [k] + TrueIndicesFrom(mask, k + 1)
    else TrueIndicesFrom(mask, k + 1)
  }

  /** `np.where(mask)[0]`: every True position of `mask`, in increasing order. */
  function TrueIndices(mask: seq<bool>): (r: seq<nat>)
    ensures forall j :: 0 <= j < |r| ==> r[j] < |mask| && mask[r[j]]
    ensures forall j, l :: 0 <= j < l < |r| ==> r[j] < r[l]
    ensures forall p :: 0 <= p < |mask| && mask[p] ==> p in r
  {
    TrueIndicesFrom(mask, 0)
  }

  // ---------------------------------------------------------------------
  // remove_small_gap

  predicate HasTrueNeighbour(mask: seq<bool>, p: nat)
    requires p < |mask|
  {
    (p > 0 && mask[p - 1]) || (p + 1 < |mask| && mask[p + 1])
  }

  /** The mask with every True position that has no True neighbour cleared. */
  function SmallGapsRemoved(mask: seq<bool>): (r: seq<bool>)
    ensures |r| == |mask|
  {
    seq(|mask|, p requires 0 <= p < |mask| => mask[p] && HasTrueNeighbour(mask, p))
  }

  /** The test the code applies to the j-th gap position (first, middle or last). */
  predicate SingleGap(gaps: seq<int>, j: nat)
    requires 2 <= |gaps| && j < |gaps|
  {
    if j == 0 then gaps[0] != gaps[1] - 1
    else if j == |gaps| - 1 then gaps[j] != gaps[j - 1] + 1
    else !(gaps[j] == gaps[j - 1] + 1 || gaps[j] == gaps[j + 1] - 1)
  }

  /** In a strictly increasing sequence, positions and values are ordered alike. */
  lemma StrictOrder(g: seq<int>, a: int, b: int)
    requires forall x, y :: 0 <= x < y < |g| ==> g[x] < g[y]
    requires 0 <= a < |g| && 0 <= b < |g|
    ensures a < b <==> g[a] < g[b]
  {
  }

  /** The True position just before g[j], if any, is g[j - 1]. */
  lemma GapLeft(mask: seq<bool>, g: seq<nat>, j: nat)
    requires g == TrueIndices(mask) && j < |g|
    ensures (g[j] > 0 && mask[g[j] - 1]) <==> (j > 0 && g[j - 1] == g[j] - 1)
  {
    if g[j] > 0 && mask[g[j] - 1] {
      assert g[j] - 1 in g;
      var l :| 0 <= l < |g| && g[l] == g[j] - 1;
      StrictOrder(g, l, j);
      StrictOrder(g, j - 1, j);
      StrictOrder(g, l, j - 1);
    }
  }

  /** The True position just after g[j], if any, is g[j + 1]. */
  lemma GapRight(mask: seq<bool>, g: seq<nat>, j: nat)
    requires g == TrueIndices(mask) && j < |g|
    ensures (g[j] + 1 < |mask| && mask[g[j] + 1]) <==> (j + 1 < |g| && g[j + 1] == g[j] + 1)
  {
    if g[j] + 1 < |mask| && mask[g[j] + 1] {
      assert g[j] + 1 in g;
      var l :| 0 <= l < |g| && g[l] == g[j] + 1;
      StrictOrder(g, j, l);
      StrictOrder(g, j, j + 1);
      StrictOrder(g, j + 1, l);
    }
  }

  /** The code's single-gap test is "no True neighbour". */
  lemma SingleGapMeansIsolated(mask: seq<bool>, j: nat)
    requires 2 <= |TrueIndices(mask)| && j < |TrueIndices(mask)|
    ensures SingleGap(TrueIndices(mask), j) <==> !HasTrueNeighbour(mask, TrueIndices(mask)[j])
  {
    GapLeft(mask, TrueIndices(mask), j);
    GapRight(mask, TrueIndices(mask), j);
  }

  /** Which gap positions `single` holds after the loop has run for every middle index below `i`. */
  predicate Recorded(gaps: seq<int>, i: nat, j: nat)
    requires 2 <= |gaps| && j < |gaps|
  {
    i > 1 && SingleGap(gaps, j) && (j < i || j == |gaps| - 1)
  }

  /**
    remove_small_gap: clears every True position with no True neighbour.
    The two end tests sit inside the loop over the middle positions, so they
    run only when there are at least three True positions; with fewer the
    mask comes back unchanged. gap_size is accepted and never read.
   */
  method RemoveSmallGap(gapMask: seq<bool>, gapSize: int) returns (res: seq<bool>)
    ensures |res| == |gapMask| && forall p :: 0 <= p < |res| && res[p] ==> gapMask[p]
    ensures |TrueIndices(gapMask)| < 3 ==> res == gapMask
    ensures |TrueIndices(gapMask)| >= 3 ==> res == SmallGapsRemoved(gapMask)
  {
    var gaps := TrueIndices(gapMask);
    var single := SingleGaps(gaps);
    var keep := set x | x in gaps && x !in single;
    var mask := new bool[|gapMask|](_ => false);
    forall p | 0 <= p < mask.Length && p in keep {
      mask[p] := true;
    }
    if |gaps| < 3 {
      assert mask[..] == gapMask;
    } else {
      forall p | 0 <= p < |gapMask|
        ensures mask[p] == SmallGapsRemoved(gapMask)[p]
      {
        KeptIsNotSmallGap(gapMask, single, p);
      }
      assert mask[..] == SmallGapsRemoved(gapMask);
    }
    res := mask[..];
  }

  /** The loop of remove_small_gap: the gap positions it records as single. */
  method SingleGaps(gaps: seq<int>) returns (single: seq<int>)
    requires forall j, l :: 0 <= j < l < |gaps| ==> gaps[j] < gaps[l]
    ensures |gaps| < 3 ==> single == []
    ensures 3 <= |gaps| ==> forall j :: 0 <= j < |gaps| ==> (gaps[j] in single <==> SingleGap(gaps, j))
  {
    single := [];
    var i := 1;
    while i < |gaps| - 1
      invariant 1 <= i
      invariant i > 1 ==> 3 <= |gaps| && i <= |gaps| - 1
      invariant i == 1 ==> single == []
      invariant 2 <= |gaps| ==> forall j :: 0 <= j < |gaps| ==> (gaps[j] in single <==> Recorded(gaps, i, j))
    {
      ghost var before := single;
      ghost var mid: seq<int> := if SingleGap(gaps, i) then [gaps[i]] else [];
      ghost var head: seq<int> := if SingleGap(gaps, 0) then [gaps[0]] else [];
      ghost var tail: seq<int> := if SingleGap(gaps, |gaps| - 1) then [gaps[|gaps| - 1]] else [];
      var adjacentF := gaps[i] == gaps[i - 1] + 1;
      var adjacentB := gaps[i] == gaps[i + 1] - 1;
      if !(adjacentF || adjacentB) {
        single := single + [gaps[i]];
      }
      assert single == before + mid;
      if gaps[0] != gaps[1] - 1 {
        single := single + [gaps[0]];
      }
      assert single == before + mid + head;
      if gaps[|gaps| - 1] != gaps[|gaps| - 2] + 1 {
        single := single + [gaps[|gaps| - 1]];
      }
      assert single == before + mid + head + tail;
      StepRecorded(gaps, i, before, mid, head, tail);
      i := i + 1;
    }
  }

  /** One pass of the loop body records the middle position `i` and re-records the two ends. */
  lemma StepRecorded(gaps: seq<int>, i: nat, before: seq<int>, mid: seq<int>, head: seq<int>, tail: seq<int>)
    requires 3 <= |gaps| && 1 <= i < |gaps| - 1
    requires forall j, l :: 0 <= j < l < |gaps| ==> gaps[j] < gaps[l]
    requires forall j :: 0 <= j < |gaps| ==> (gaps[j] in before <==> Recorded(gaps, i, j))
    requires mid == if SingleGap(gaps, i) then [gaps[i]] else []
    requires head == if SingleGap(gaps, 0) then [gaps[0]] else []
    requires tail == if SingleGap(gaps, |gaps| - 1) then [gaps[|gaps| - 1]] else []
    ensures forall j :: 0 <= j < |gaps| ==> (gaps[j] in before + mid + head + tail <==> Recorded(gaps, i + 1, j))
  {
    var last := |gaps| - 1;
    forall j | 0 <= j < |gaps| ensures gaps[j] in before + mid + head + tail <==> Recorded(gaps, i + 1, j) {
      assert gaps[j] in before + mid + head + tail <==>
        gaps[j] in before || gaps[j] in mid || gaps[j] in head || gaps[j] in tail;
      StrictOrder(gaps, j, i);
      StrictOrder(gaps, i, j);
      StrictOrder(gaps, j, 0);
      StrictOrder(gaps, 0, j);
      StrictOrder(gaps, j, last);
      StrictOrder(gaps, last, j);
    }
  }

  /** A position survives exactly when it is a gap position not recorded as single. */
  lemma KeptIsNotSmallGap(mask: seq<bool>, single: seq<int>, p: nat)
    requires 3 <= |TrueIndices(mask)|
    requires forall j :: 0 <= j < |TrueIndices(mask)| ==>
               (TrueIndices(mask)[j] in single <==> SingleGap(TrueIndices(mask), j))
    requires p < |mask|
    ensures (p in TrueIndices(mask) && p !in single) == SmallGapsRemoved(mask)[p]
  {
    var gaps := TrueIndices(mask);
    if mask[p] {
      var j :| 0 <= j < |gaps| && gaps[j] == p;
      SingleGapMeansIsolated(mask, j);
    }
  }

  /** No True position of the result is isolated: each surviving position keeps a surviving neighbour. */
  lemma SmallGapsRemovedNoIsolated(mask: seq<bool>, p: nat)
    requires p < |mask| && SmallGapsRemoved(mask)[p]
    ensures mask[p] && HasTrueNeighbour(SmallGapsRemoved(mask), p)
  {
    var r := SmallGapsRemoved(mask);
    if p > 0 && mask[p - 1] {
      assert HasTrueNeighbour(mask, p - 1);
      assert r[p - 1];
    } else {
      assert HasTrueNeighbour(mask, p + 1);
      assert r[p + 1];
    }
  }

  /** A second pass removes nothing. */
  lemma SmallGapsRemovedIdempotent(mask: seq<bool>)
    ensures SmallGapsRemoved(SmallGapsRemoved(mask)) == SmallGapsRemoved(mask)
  {
    var r := SmallGapsRemoved(mask);
    forall p | 0 <= p < |mask| ensures SmallGapsRemoved(r)[p] == r[p] {
      if r[p] {
        SmallGapsRemovedNoIsolated(mask, p);
      }
    }
  }

  /**
    Two isolated True positions come back unchanged, although neither has a
    True neighbour: the end tests never run when there are only two.
   */
  lemma LoneGapPairKept()
    ensures |TrueIndices([true, false, true])| == 2
    ensures SmallGapsRemoved([true, false, true]) == [false, false, false]
  {
    assert TrueIndicesFrom([true, false, true], 2) == [2];
    assert TrueIndicesFrom([true, false, true], 1) == [2];
    assert TrueIndices([true, false, true]) == [0, 2];
  }

  // ---------------------------------------------------------------------
  // fill_diag

  function Max(a: int, b: int): int {
    if a < b then b else a
  }

  /**
    The flat positions `mat.ravel()[st:ed:cols + 1]` selects in a
    rows x cols array, with st = max(offset, -cols * offset) and
    ed = max(0, cols - offset).
   */
  function FillPositions(rows: nat, cols: nat, offset: int): (r: seq<int>)
    ensures forall k :: 0 <= k < |r| ==> 0 <= r[k] < rows * cols
  {
    SliceIndices(rows * cols, Some(Max(offset, -(cols as int) * offset)), Some(Max(0, cols - offset)), cols + 1)
  }

  lemma {:induction false} WalkAtMostOne(start: int, stop: int, step: int)
    requires step > 0 && stop - start <= step
    ensures |Walk(start, stop, step)| <= 1
  {
    if start < stop {
      assert Walk(start + step, stop, step) == [];
    }
  }

  lemma {:induction false} MulAtLeast(a: int, c: int)
    requires a >= 1 && c >= 0
    ensures a * c >= c
  {
    if a > 1 {
      MulAtLeast(a - 1, c);
      assert a * c == (a - 1) * c + c;
    }
  }

  /** Row-major flat indices are unique: (i, j) is recovered from i * cols + j. */
  lemma FlatUnique(i: int, j: int, i2: int, j2: int, cols: int)
    requires 0 <= j < cols && 0 <= j2 < cols
    requires i * cols + j == i2 * cols + j2
    ensures i == i2 && j == j2
  {
    if i < i2 {
      MulAtLeast(i2 - i, cols);
    } else if i2 < i {
      MulAtLeast(i - i2, cols);
    }
  }

  /** Clamping both bounds to the sequence length never widens a forward slice. */
  lemma ClampedGap(st: int, ed: int, size: nat, step: int)
    requires st >= 0 && ed >= 0 && step > 0
    requires ed - st < step || size == 0
    ensures StopOf(Some(ed), size, step) - StartOf(Some(st), size, step) < step
  {
  }

  /** Although the docstring promises a whole diagonal, fill_diag writes at most one cell. */
  lemma FillDiagAtMostOne(rows: nat, cols: nat, offset: int)
    ensures |FillPositions(rows, cols, offset)| <= 1
  {
    var size := rows * cols;
    var neg := -(cols as int) * offset;
    var st := Max(offset, neg);
    var ed := Max(0, cols - offset);
    if cols == 0 {
      assert size == 0;
    } else if offset < 0 {
      var m := -offset;
      assert neg == cols * m;
      MulAtLeast(cols, m);
      assert ed - st <= cols;
    } else {
      assert neg == -(cols * offset);
      assert ed - st <= cols;
    }
    ClampedGap(st, ed, size, cols + 1);
    WalkAtMostOne(StartOf(Some(st), size, cols + 1), StopOf(Some(ed), size, cols + 1), cols + 1);
  }

  /** Every cell fill_diag writes lies on the `offset` diagonal (column - row == offset). */
  lemma FillDiagOnDiagonal(rows: nat, cols: nat, offset: int, i: int, j: int)
    requires 0 <= i < rows && 0 <= j < cols
    requires i * cols + j in FillPositions(rows, cols, offset)
    ensures j - i == offset
  {
    var size := rows * cols;
    var neg := -(cols as int) * offset;
    var st := Max(offset, neg);
    var w := FillPositions(rows, cols, offset);
    FillDiagAtMostOne(rows, cols, offset);
    assert w[0] == i * cols + j;
    assert w[0] == StartOf(Some(st), size, cols + 1);
    if offset >= 0 {
      assert neg == -(cols * offset);
      assert offset < cols - offset;
      FlatUnique(i, j, 0, offset, cols);
    } else {
      assert neg == (-offset) * cols;
      FlatUnique(i, j, -offset, 0, cols);
    }
  }

  /**
    The flat positions the evidently intended slice selects: with the stop
    bound `max(0, cols - offset) * cols` the stride walks the whole
    `offset` diagonal instead of stopping inside the first row.
   */
  function FillPositionsFixed(rows: nat, cols: nat, offset: int): (r: seq<int>)
    ensures forall k :: 0 <= k < |r| ==> 0 <= r[k] < rows * cols
  {
    SliceIndices(rows * cols, Some(Max(offset, -(cols as int) * offset)), Some(Max(0, cols - offset) * cols), cols + 1)
  }

  lemma MulMono(a: int, b: int, c: nat)
    requires a <= b
    ensures a * c <= b * c
  {
  }

  /** A cell lies in the first `h` rows of a row-major array of width `cols`. */
  lemma CellBelow(i: int, j: int, cols: nat, h: int)
    requires 0 <= i < h && 0 <= j < cols
    ensures i * cols + j < h * cols
  {
    MulMono(i + 1, h, cols);
  }

  /** The intended slice as a range: from `min(st, size)` to `min(ed, size)` in strides of `cols + 1`. */
  lemma FixedWalk(rows: nat, cols: nat, offset: int, st: int, ed: int)
    requires cols > 0
    requires st == Max(offset, -(cols as int) * offset) && ed == Max(0, cols - offset) * cols
    ensures st >= 0 && ed >= 0
    ensures FillPositionsFixed(rows, cols, offset) ==
      Walk(if st < rows * cols then st else rows * cols, if ed < rows * cols then ed else rows * cols, cols + 1)
  {
    if offset < 0 {
      MulMono(1, -offset, cols);
    }
  }

  /** For offset >= 0 the diagonal cell (i, i + offset) is the i-th position of the intended slice. */
  lemma FixedReachesAbove(rows: nat, cols: nat, offset: int, i: int)
    requires offset >= 0 && 0 <= i < rows && i + offset < cols
    ensures i * cols + (i + offset) in FillPositionsFixed(rows, cols, offset)
  {
    var st, ed := offset, (cols - offset) * cols;
    FixedWalk(rows, cols, offset, st, ed);
    CellBelow(i, i + offset, cols, rows);
    CellBelow(i, i + offset, cols, cols - offset);
    var p := i * cols + (i + offset);
    assert p == st + i * (cols + 1);
    WalkReaches(st, if ed < rows * cols then ed else rows * cols, cols + 1, i);
  }

  /** For offset < 0 the diagonal cell (j - offset, j) is the j-th position of the intended slice. */
  lemma FixedReachesBelow(rows: nat, cols: nat, offset: int, j: int)
    requires offset < 0 && 0 <= j < cols && j - offset < rows
    ensures (j - offset) * cols + j in FillPositionsFixed(rows, cols, offset)
  {
    var m := -offset;
    var st, ed := m * cols, (cols + m) * cols;
    FixedWalk(rows, cols, offset, st, ed);
    CellBelow(j + m, j, cols, rows);
    CellBelow(j + m, j, cols, cols + m);
    var p := (j + m) * cols + j;
    assert p == st + j * (cols + 1);
    WalkReaches(st, if ed < rows * cols then ed else rows * cols, cols + 1, j);
  }

  /** The k-th position of the intended slice, for offset >= 0, is cell (k, k + offset). */
  lemma FixedOnlyAbove(rows: nat, cols: nat, offset: int, k: nat)
    requires offset >= 0 && cols > 0 && k < |FillPositionsFixed(rows, cols, offset)|
    ensures k + offset < cols
    ensures FillPositionsFixed(rows, cols, offset)[k] == k * cols + (k + offset)
  {
    var st, ed := offset, Max(0, cols - offset) * cols;
    FixedWalk(rows, cols, offset, st, ed);
    var lo, hi := if st < rows * cols then st else rows * cols, if ed < rows * cols then ed else rows * cols;
    WalkAt(lo, hi, cols + 1);
    assert lo < hi && lo == offset;
    assert cols - offset > 0;
    var x := FillPositionsFixed(rows, cols, offset)[k];
    assert x == offset + k * (cols + 1) < hi <= ed;
    assert k * (cols + 1) == k * cols + k;
    if k >= cols - offset {
      MulMono(cols - offset, k, cols);
      assert false;
    }
  }

  /** The k-th position of the intended slice, for offset < 0, is cell (k - offset, k). */
  lemma FixedOnlyBelow(rows: nat, cols: nat, offset: int, k: nat)
    requires offset < 0 && cols > 0 && k < |FillPositionsFixed(rows, cols, offset)|
    ensures k < cols
    ensures FillPositionsFixed(rows, cols, offset)[k] == (k - offset) * cols + k
  {
    var m := -offset;
    var st, ed := m * cols, (cols + m) * cols;
    FixedWalk(rows, cols, offset, st, ed);
    var lo, hi := if st < rows * cols then st else rows * cols, if ed < rows * cols then ed else rows * cols;
    WalkAt(lo, hi, cols + 1);
    assert lo < hi && lo == st;
    var x := FillPositionsFixed(rows, cols, offset)[k];
    assert x == m * cols + k * (cols + 1) < hi <= ed;
    assert k * (cols + 1) == k * cols + k;
    assert m * cols + k * cols == (m + k) * cols;
    if k >= cols {
      MulMono(cols + m, m + k, cols);
      assert false;
    }
  }

  /** With the intended stop bound, cell (i, j) is written exactly when it is on the `offset` diagonal. */
  lemma FillDiagFixedCell(rows: nat, cols: nat, offset: int, i: int, j: int)
    requires 0 <= i < rows && 0 <= j < cols
    ensures i * cols + j in FillPositionsFixed(rows, cols, offset) <==> j - i == offset
  {
    var w := FillPositionsFixed(rows, cols, offset);
    if j - i == offset {
      if offset >= 0 {
        FixedReachesAbove(rows, cols, offset, i);
      } else {
        FixedReachesBelow(rows, cols, offset, j);
      }
    }
    if i * cols + j in w {
      var k :| 0 <= k < |w| && w[k] == i * cols + j;
      if offset >= 0 {
        FixedOnlyAbove(rows, cols, offset, k);
        FlatUnique(i, j, k, k + offset, cols);
      } else {
        FixedOnlyBelow(rows, cols, offset, k);
        FlatUnique(i, j, k - offset, k, cols);
      }
    }
  }

  /** On a 3 x 3 array with offset 1 the code writes flat position 1 only; the intended slice adds 5. */
  lemma FillDiagThreeByThree()
    ensures FillPositions(3, 3, 1) == [1]
    ensures FillPositionsFixed(3, 3, 1) == [1, 5]
  {
    assert Walk(9, 6, 4) == [];
    assert Walk(5, 6, 4) == [5] + Walk(9, 6, 4);
    assert Walk(1, 6, 4) == [1] + Walk(5, 6, 4);
    assert Walk(5, 2, 4) == [];
    assert Walk(1, 2, 4) == [1] + Walk(5, 2, 4);
  }

  /**
    Writes `fillValue` at the given flat positions of the array (row-major,
    as `ravel` sees it) and keeps every other cell. With `copy` the
    caller's array is left alone and a fresh one is returned; without it
    the argument itself is changed and returned.
   */
  method FillFlat(mat: array2<Cell>, positions: seq<int>, fillValue: Cell, copy: bool) returns (r: array2<Cell>)
    modifies mat
    ensures copy ==> fresh(r) && unchanged(mat)
    ensures !copy ==> r == mat
    ensures r.Length0 == mat.Length0 && r.Length1 == mat.Length1
    ensures forall i, j :: 0 <= i < r.Length0 && 0 <= j < r.Length1 ==>
              r[i, j] == if i * r.Length1 + j in positions then fillValue else old(mat[i, j])
  {
    if copy {
      r := new Cell[mat.Length0, mat.Length1]((i, j) reads mat
             requires 0 <= i < mat.Length0 && 0 <= j < mat.Length1 => mat[i, j]);
    } else {
      r := mat;
    }
    var length := r.Length1;
    forall i, j | 0 <= i < r.Length0 && 0 <= j < length && i * length + j in positions {
      r[i, j] := fillValue;
    }
  }

  /** fill_diag as written: the cells at FillPositions get `fillValue`. */
  method FillDiag(mat: array2<Cell>, offset: int, fillValue: Cell, copy: bool) returns (r: array2<Cell>)
    modifies mat
    ensures copy ==> fresh(r) && unchanged(mat)
    ensures !copy ==> r == mat
    ensures r.Length0 == mat.Length0 && r.Length1 == mat.Length1
    ensures forall i, j :: 0 <= i < r.Length0 && 0 <= j < r.Length1 ==>
              r[i, j] == if i * r.Length1 + j in FillPositions(r.Length0, r.Length1, offset)
                         then fillValue else old(mat[i, j])
  {
    r := FillFlat(mat, FillPositions(mat.Length0, mat.Length1, offset), fillValue, copy);
  }

  /** fill_diag as intended: exactly the cells with `j - i == offset` get `fillValue`. */
  method FillDiagFixed(mat: array2<Cell>, offset: int, fillValue: Cell, copy: bool) returns (r: array2<Cell>)
    modifies mat
    ensures copy ==> fresh(r) && unchanged(mat)
    ensures !copy ==> r == mat
    ensures r.Length0 == mat.Length0 && r.Length1 == mat.Length1
    ensures forall i, j :: 0 <= i < r.Length0 && 0 <= j < r.Length1 ==>
              r[i, j] == if j - i == offset then fillValue else old(mat[i, j])
  {
    r := FillFlat(mat, FillPositionsFixed(mat.Length0, mat.Length1, offset), fillValue, copy);
    forall i, j | 0 <= i < r.Length0 && 0 <= j < r.Length1
      ensures r[i, j] == if j - i == offset then fillValue else old(mat[i, j])
    {
      FillDiagFixedCell(r.Length0, r.Length1, offset, i, j);
    }
  }

  // ---------------------------------------------------------------------
  // mask_array / index_array

  /** An argument of mask_array: a 1-D array, a 2-D array, or a tuple/list of arguments. */
  datatype Arg = Vec(v: seq<Cell>) | Mat(cols: nat, rows: seq<seq<Cell>>) | Group(items: seq<Arg>)

  /** The index applied: a boolean mask (mask_array) or an integer index array (index_array). */
  datatype Selector = BoolMask(mask: seq<bool>) | IntIndex(index: seq<int>)

  ghost predicate WellFormed(a: Arg) {
    match a
    case Vec(_) => true
    case Mat(cols, rows) => IsMatrix(rows, cols)
    case Group(items) => forall k :: 0 <= k < |items| ==> WellFormed(items[k])
  }

  /** Whether numpy accepts the selector on an axis of length `len` (else IndexError). */
  predicate Accepts(sel: Selector, len: nat) {
    match sel
    case BoolMask(mask) => |mask| == len
    case IntIndex(index) => forall k :: 0 <= k < |index| ==> -(len as int) <= index[k] < len
  }

  /** The entries of `v` where `mask` is True, from position `k` on. */
  function FilterFrom<T>(mask: seq<bool>, v: seq<T>, k: nat): seq<T>
    requires |mask| == |v| && k <= |v|
    decreases |v| - k
  {
    if k == |v| then []
    else (if mask[k] then [v[k]] else []) + FilterFrom(mask, v, k + 1)
  }

  /** `v[idx]` along one axis, for a selector numpy accepts. */
  function Pick<T>(sel: Selector, v: seq<T>): seq<T>
    requires Accepts(sel, |v|)
  {
    match sel
    case BoolMask(mask) => FilterFrom(mask, v, 0)
    case IntIndex(index) =>
      seq(|index|, k requires 0 <= k < |index| =>
        if index[k] < 0 then v[|v| + index[k]] else v[index[k]])
  }

  /** How many entries the selector keeps. */
  function Kept(sel: Selector): nat {
    match sel
    case BoolMask(mask) => |TrueIndices(mask)|
    case IntIndex(index) => |index|
  }

  /** mask_array(mask, *args) on one argument: `mat[mask]` in 1-D, `mat[:, mask]` in 2-D. */
  function MaskOne(sel: Selector, a: Arg): (r: Result<Arg>)
    requires WellFormed(a)
    decreases a, 0
  {
    match a
    case Vec(v) =>
      if Accepts(sel, |v|) then Ok(Vec(Pick(sel, v))) else Err(IndexError)
    case Mat(cols, rows) =>
      if Accepts(sel, cols) then
        Ok(Mat(Kept(sel), seq(|rows|, i requires 0 <= i < |rows| => Pick(sel, rows[i]))))
      else Err(IndexError)
    case Group(items) =>
      match MaskArgs(sel, items)
      case Ok(xs) => Ok(Group(xs))
      case Err(e) => Err(e)
  }

  /** mask_array(mask, *args): every argument masked, tuples and lists recursively. */
  function MaskArgs(sel: Selector, args: seq<Arg>): (r: Result<seq<Arg>>)
    requires forall k :: 0 <= k < |args| ==> WellFormed(args[k])
    ensures r.Ok? ==> |r.value| == |args|
    ensures r.Ok? ==> forall k :: 0 <= k < |args| ==> MaskOne(sel, args[k]) == Ok(r.value[k])
    ensures r.Err? <==> exists k :: 0 <= k < |args| && MaskOne(sel, args[k]).Err?
    decreases args, 1
  {
    if args == [] then Ok([])
    else
      match MaskOne(sel, args[0])
      case Err(e) => Err(e)
      case Ok(x) =>
        match MaskArgs(sel, args[1..])
        case Err(e) => Err(e)
        case Ok(xs) => Ok([x] + xs)
  }

  /** index_array(index, *args) delegates to mask_array with an integer index. */
  function IndexArgs(index: seq<int>, args: seq<Arg>): (r: Result<seq<Arg>>)
    requires forall k :: 0 <= k < |args| ==> WellFormed(args[k])
    ensures r.Ok? ==> |r.value| == |args|
    ensures r.Ok? ==> forall k :: 0 <= k < |args| ==> MaskOne(IntIndex(index), args[k]) == Ok(r.value[k])
    ensures r.Err? <==> exists k :: 0 <= k < |args| && MaskOne(IntIndex(index), args[k]).Err?
  {
    MaskArgs(IntIndex(index), args)
  }

  /** A 1-D boolean mask keeps exactly the True entries, in their original order. */
  lemma {:induction false} FilterIsGather<T>(mask: seq<bool>, v: seq<T>, k: nat)
    requires |mask| == |v| && k <= |v|
    ensures var ix := TrueIndicesFrom(mask, k);
            |FilterFrom(mask, v, k)| == |ix| &&
            forall l :: 0 <= l < |ix| ==> FilterFrom(mask, v, k)[l] == v[ix[l]]
    decreases |v| - k
  {
    if k < |v| {
      FilterIsGather(mask, v, k + 1);
      var rest := FilterFrom(mask, v, k + 1);
      if mask[k] {
        assert FilterFrom(mask, v, k) == [v[k]] + rest;
      } else {
        assert FilterFrom(mask, v, k) == [] + rest == rest;
      }
    }
  }

  /** On a vector boolean masking is integer indexing by np.where(mask). */
  lemma MaskVecIsIndex(mask: seq<bool>, v: seq<Cell>)
    requires |mask| == |v|
    ensures Accepts(IntIndex(TrueIndices(mask)), |v|)
    ensures Pick(BoolMask(mask), v) == Pick(IntIndex(TrueIndices(mask)), v)
  {
    FilterIsGather(mask, v, 0);
  }

  /**
    mask_array with a boolean mask gives what index_array gives with the
    mask's True positions, for every nest of arguments the mask fits.
   */
  lemma {:induction false} MaskIsIndex(mask: seq<bool>, a: Arg)
    requires WellFormed(a)
    requires MaskOne(BoolMask(mask), a).Ok?
    ensures MaskOne(BoolMask(mask), a) == MaskOne(IntIndex(TrueIndices(mask)), a)
    decreases a, 0
  {
    match a
    case Vec(v) =>
      MaskVecIsIndex(mask, v);
    case Mat(cols, rows) =>
      var b := seq(|rows|, i requires 0 <= i < |rows| => Pick(BoolMask(mask), rows[i]));
      var n := seq(|rows|, i requires 0 <= i < |rows| => Pick(IntIndex(TrueIndices(mask)), rows[i]));
      forall i | 0 <= i < |rows| ensures b[i] == n[i] {
        MaskVecIsIndex(mask, rows[i]);
      }
      assert b == n;
      assert Accepts(IntIndex(TrueIndices(mask)), cols);
    case Group(items) =>
      MaskArgsIsIndex(mask, items);
  }

  lemma {:induction false} MaskArgsIsIndex(mask: seq<bool>, args: seq<Arg>)
    requires forall k :: 0 <= k < |args| ==> WellFormed(args[k])
    requires MaskArgs(BoolMask(mask), args).Ok?
    ensures MaskArgs(BoolMask(mask), args) == IndexArgs(TrueIndices(mask), args)
    decreases args, 1
  {
    if args != [] {
      MaskIsIndex(mask, args[0]);
      MaskArgsIsIndex(mask, args[1..]);
    }
  }

  // ---------------------------------------------------------------------
  // check_slice

  /** check_slice: an integer `s` becomes slice(0, s, 1); a slice is returned as it is. */
  function CheckSlice(s: Item): (r: Slice)
    ensures s.SliceItem? ==> r == s.slice
    ensures s.IntItem? ==> r == Slice(Some(0), Some(s.i), Some(1))
  {
    match s
    case IntItem(n) => Slice(Some(0), Some(n), Some(1))
    case SliceItem(sl) => sl
  }

  /** For a non-negative integer n, the normalised slice takes the first n elements. */
  lemma CheckSliceTakesPrefix<T>(a: seq<T>, n: nat)
    requires n <= |a|
    ensures var sl := CheckSlice(IntItem(n));
            SliceOf(a, sl.start, sl.stop, sl.step.value) == a[..n]
  {
    SliceRange(a, 0, n);
  }

  /** Normalising twice is normalising once. */
  lemma CheckSliceIdempotent(s: Item)
    ensures CheckSlice(SliceItem(CheckSlice(s))) == CheckSlice(s)
  {
  }

  // ---------------------------------------------------------------------
  // is_symmetric, dense branch

  /** The argument of is_symmetric: a dense array, or something that is neither ndarray nor sparse. */
  datatype MatrixArg = Dense(cells: seq<seq<Cell>>) | Unsupported

  /** np.isclose(a, b, rtol, atol, equal_nan=True) on one pair of cells. */
  predicate IsClose(a: Cell, b: Cell, rtol: real, atol: real): (r: bool)
    ensures a == b && rtol >= 0.0 && atol >= 0.0 ==> r
    ensures r && rtol == 0.0 && atol == 0.0 ==> a == b
    ensures r ==> (a.NaN? <==> b.NaN?)
  {
    (a.NaN? && b.NaN?) || (a.Num? && b.Num? && Abs(a.val - b.val) <= atol + rtol * Abs(b.val))
  }

  /** is_symmetric: np.allclose(mat, mat.T, rtol, atol, equal_nan=True) on a dense array. */
  function IsSymmetric(mat: MatrixArg, rtol: real, atol: real): (r: Result<bool>)
    requires mat.Dense? ==> IsMatrix(mat.cells, |mat.cells|)
    ensures r.Ok? <==> mat.Dense?
    ensures r.Err? ==> r.error == ValueError
  {
    match mat
    case Unsupported => Err(ValueError)
    case Dense(m) =>
      Ok(forall i, j | 0 <= i < |m| && 0 <= j < |m| :: IsClose(m[i][j], m[j][i], rtol, atol))
  }

  function Transpose(m: seq<seq<Cell>>): (t: seq<seq<Cell>>)
    requires IsMatrix(m, |m|)
  {
    seq(|m|, i requires 0 <= i < |m| => seq(|m|, j requires 0 <= j < |m| => m[j][i]))
  }

  /** Every exactly symmetric matrix (NaN mirrored by NaN) passes, at any non-negative tolerance. */
  lemma SymmetricPasses(m: seq<seq<Cell>>, rtol: real, atol: real)
    requires IsMatrix(m, |m|)
    requires rtol >= 0.0 && atol >= 0.0
    requires m == Transpose(m)
    ensures IsSymmetric(Dense(m), rtol, atol) == Ok(true)
  {
    forall i, j | 0 <= i < |m| && 0 <= j < |m| ensures IsClose(m[i][j], m[j][i], rtol, atol) {
      assert m[i][j] == Transpose(m)[i][j];
    }
  }

  /** With zero tolerances the test is exact: it holds iff the matrix equals its transpose. */
  lemma ZeroToleranceIsTranspose(m: seq<seq<Cell>>)
    requires IsMatrix(m, |m|)
    ensures IsSymmetric(Dense(m), 0.0, 0.0) == Ok(true) <==> m == Transpose(m)
  {
    if IsSymmetric(Dense(m), 0.0, 0.0) == Ok(true) {
      var t := Transpose(m);
      forall i | 0 <= i < |m| ensures m[i] == t[i] {
        forall j | 0 <= j < |m| ensures m[i][j] == t[i][j] {
          assert IsClose(m[i][j], m[j][i], 0.0, 0.0);
        }
      }
    } else if m == Transpose(m) {
      SymmetricPasses(m, 0.0, 0.0);
    }
  }
}
