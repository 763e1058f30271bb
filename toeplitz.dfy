/**
  The slice handling and block extraction of the Toeplitz and Expected
  views (hictools/compartment.py): a matrix that is constant along each
  diagonal, stored as its first column and first row, from which
  `__getitem__` builds only the requested block.
 */
module Slicing {
  import opened Base
  import opened PySeq

  /** The index expression handed to `__getitem__`. */
  datatype Key = SliceKey(slice: Slice) | TupleKey(items: seq<Item>) | IntKey(i: int)

  /** A slice whose three fields have all been filled in. */
  datatype Span = Span(start: int, stop: int, step: int)

  /** `_fill_slice`: an integer becomes a one-element slice; None fields get defaults. */
  function FillSlice(item: Item, length: int): (r: Span)
    ensures item.IntItem? ==> r.stop - r.start == 1 && r.step == 1
    ensures item.SliceItem? && item.slice.step.Some? ==> r.step == item.slice.step.value
    ensures item.SliceItem? && item.slice.step.None? ==> r.step == 1
  {
    match item
    case IntItem(i) => Span(i, i + 1, 1)
    case SliceItem(s) => Span(s.start.GetOr(0), s.stop.GetOr(length), s.step.GetOr(1))
  }

  /** Filling an integer index gives the slice that selects just that element. */
  lemma FillIntSelectsOne<T>(a: seq<T>, i: int)
    requires 0 <= i < |a|
    ensures var r := FillSlice(IntItem(i), |a|);
      SliceOf(a, Some(r.start), Some(r.stop), r.step) == [a[i]]
  {
    SliceRange(a, i, i + 1);
  }

  /** For a positive step, filling the None bounds does not change what the slice selects. */
  lemma FillKeepsForwardSelection<T>(a: seq<T>, s: Slice)
    requires s.step.GetOr(1) > 0
    ensures var r := FillSlice(SliceItem(s), |a|);
      SliceOf(a, Some(r.start), Some(r.stop), r.step) == SliceOf(a, s.start, s.stop, s.step.GetOr(1))
  {
  }

  /** `_is_slices`: a lone slice, or an iterable whose every item is a slice. */
  predicate IsSlices(key: Key) {
    match key
    case SliceKey(_) => true
    case IntKey(_) => false
    case TupleKey(items) => forall k :: 0 <= k < |items| ==> items[k].SliceItem?
  }

  /** The slices of a key that passed `IsSlices`; a lone slice stands for both axes. */
  function AxisSlices(key: Key): (r: seq<Item>)
    requires IsSlices(key)
    ensures forall k :: 0 <= k < |r| ==> r[k].SliceItem?
  {
    match key
    case SliceKey(s) => [SliceItem(s), SliceItem(s)]
    case TupleKey(items) => items
  }

  /**
    `tuple(_check_slices(key, (rows, cols), check_forward=True))` unpacked
    into a row and a column slice. The generator yields one filled slice
    per axis; fewer than two slices fail the unpacking, and extra slices of
    a longer tuple are never looked at.
   */
  function CheckSlices(key: Key, rows: int, cols: int): (r: Result<(Span, Span)>)
    ensures !IsSlices(key) ==> r == Err(TypeError)
    ensures key.IntKey? ==> r == Err(TypeError)
    ensures IsSlices(key) && |AxisSlices(key)| < 2 ==> r == Err(ValueError)
    ensures r.Ok? <==> (IsSlices(key) && |AxisSlices(key)| >= 2 &&
                        FillSlice(AxisSlices(key)[0], rows).start <= FillSlice(AxisSlices(key)[0], rows).stop &&
                        FillSlice(AxisSlices(key)[1], cols).start <= FillSlice(AxisSlices(key)[1], cols).stop)
    ensures r.Err? ==> r.error == TypeError || r.error == ValueError
    ensures r.Ok? ==> r.value == (FillSlice(AxisSlices(key)[0], rows), FillSlice(AxisSlices(key)[1], cols))
    ensures r.Ok? && key.SliceKey? ==> r.value == (FillSlice(SliceItem(key.slice), rows), FillSlice(SliceItem(key.slice), cols))
  {
    if !IsSlices(key) then Err(TypeError)
    else
      var items := AxisSlices(key);
      if |items| == 0 then Err(ValueError)
      else
        var first := FillSlice(items[0], rows);
        if first.stop < first.start then Err(ValueError)
        else if |items| == 1 then Err(ValueError)
        else
          var second := FillSlice(items[1], cols);
          if second.stop < second.start then Err(ValueError)
          else Ok((first, second))
  }

  // ---------------------------------------------------------------------
  // The Toeplitz view

  /** A Toeplitz view: `col` runs down the first column, `row` along the first row. */
  datatype Toeplitz<T> = Toeplitz(col: seq<T>, row: seq<T>)

  /** `Toeplitz(col, row=None)`: without a row the matrix is symmetric. */
  function MakeToeplitz<T>(col: seq<T>, row: Option<seq<T>>): (r: Toeplitz<T>)
    ensures r.col == col
    ensures row.None? ==> r.row == col
  {
    Toeplitz(col, row.GetOr(col))
  }

  /** `Expected(decay)`: the symmetric view whose every diagonal holds one decay value. */
  function Expected<T>(decay: seq<T>): (r: Toeplitz<T>)
    ensures r.col == decay && r.row == decay
  {
    MakeToeplitz(decay, None)
  }

  /** `scipy.linalg.toeplitz(c, r)`: `c` down the first column, `r` (after its first entry) along the first row. */
  function ToeplitzMatrix<T>(c: seq<T>, r: seq<T>): (m: seq<seq<T>>)
    ensures |m| == |c| && IsMatrix(m, |r|)
    ensures forall i, j :: 0 <= i < |c| && 0 <= j < |r| ==> m[i][j] == if i >= j then c[i - j] else r[j - i]
  {
    seq(|c|, i requires 0 <= i < |c| =>
      seq(|r|, j requires 0 <= j < |r| => if i >= j then c[i - j] else r[j - i]))
  }

  /** What `__getitem__` returns: a scalar, a flattened one-element block, or a 2-D block. */
  datatype Block<T> = Scalar(value: T) | Flat(items: seq<T>) | Dense(rows: seq<seq<T>>)

  /** `a[:n + 1][::-1][:-1]`: the run `a[n], a[n - 1], ..., a[1]`. */
  function BackRun<T>(a: seq<T>, n: int): seq<T> {
    SliceOf(SliceOf(SliceOf(a, None, Some(n + 1), 1), None, None, -1), None, Some(-1), 1)
  }

  /**
    The first column (or row) of a block whose corner lies `n >= 0`
    diagonals away on the other side of the main one: the run `a[n], ...,
    a[1]` back to the diagonal, continued by `b[:len - n]` or cut to `len`
    entries.
   */
  function Reflected<T>(a: seq<T>, b: seq<T>, n: int, len: int): seq<T> {
    if n < len then BackRun(a, n) + SliceOf(b, None, Some(len - n), 1)
    else SliceOf(BackRun(a, n), None, Some(len), 1)
  }

  /**
    `varray` as written: the first column of the block `rs` by `cs`, whose
    corner is `n = cs.start - rs.start` diagonals off the main one. Past
    the diagonal it goes on reading `row`.
   */
  function LeadColumn<T>(t: Toeplitz<T>, rs: Span, cs: Span): seq<T> {
    var n, height := cs.start - rs.start, rs.stop - rs.start;
    if n >= 0 then Reflected(t.row, t.row, n, height)
    else SliceOf(t.col, Some(-n), Some(-n + height), 1)
  }

  /** `harray` as written: the first row of that block; past the diagonal it goes on reading `col`. */
  function LeadRow<T>(t: Toeplitz<T>, rs: Span, cs: Span): seq<T> {
    var n, width := cs.start - rs.start, cs.stop - cs.start;
    if n >= 0 then SliceOf(t.row, Some(n), Some(n + width), 1)
    else Reflected(t.col, t.col, -n, width)
  }

  /** `varray` continued past the diagonal from `col`, which holds the entries there. */
  function LeadColumnFixed<T>(t: Toeplitz<T>, rs: Span, cs: Span): seq<T> {
    var n, height := cs.start - rs.start, rs.stop - rs.start;
    if n >= 0 then Reflected(t.row, t.col, n, height)
    else SliceOf(t.col, Some(-n), Some(-n + height), 1)
  }

  /** `harray` continued past the diagonal from `row`. */
  function LeadRowFixed<T>(t: Toeplitz<T>, rs: Span, cs: Span): seq<T> {
    var n, width := cs.start - rs.start, cs.stop - cs.start;
    if n >= 0 then SliceOf(t.row, Some(n), Some(n + width), 1)
    else Reflected(t.col, t.row, -n, width)
  }

  /** The block built from its first column and row, taken with the two steps. */
  function Assemble<T>(v: seq<T>, h: seq<T>, rowStep: int, colStep: int): (r: Result<Block<T>>)
    ensures r.Err? <==> rowStep == 0 || colStep == 0
    ensures r.Err? ==> r.error == ValueError
    ensures r.Ok? ==> !r.value.Scalar?
    ensures r.Ok? && r.value.Flat? ==> |r.value.items| == 1
  {
    if rowStep == 0 || colStep == 0 then Err(ValueError)
    else
      var m := ToeplitzMatrix(SliceOf(v, None, None, rowStep), SliceOf(h, None, None, colStep));
      if |m| == 1 && |m[0]| == 1 then Ok(Flat([m[0][0]])) else Ok(Dense(m))
  }

  /** The 1-by-1 path: one entry of `a`, read with Python's integer indexing. */
  function Corner<T>(a: seq<T>, i: int): (r: Result<Block<T>>)
    ensures r.Ok? <==> -|a| <= i < |a|
    ensures r.Ok? ==> r.value.Scalar? && r.value.value == (if i >= 0 then a[i] else a[|a| + i])
    ensures r.Err? ==> r.error == IndexError
  {
    match IndexOf(a, i)
    case Ok(x) => Ok(Scalar(x))
    case Err(e) => Err(e)
  }

  /**
    The block for two checked spans, as `__getitem__` is written: a 1-by-1
    request below the diagonal indexes `col` with a negative index, and a
    larger block continues its first column and row from the wrong array.
   */
  function ServeSpans<T>(t: Toeplitz<T>, rs: Span, cs: Span): (r: Result<Block<T>>)
    ensures r.Ok? && r.value.Scalar? <==> (rs.stop - rs.start == 1 && cs.stop - cs.start == 1 && r.Ok?)
    ensures !(rs.stop - rs.start == 1 && cs.stop - cs.start == 1) ==> (r.Err? <==> rs.step == 0 || cs.step == 0)
  {
    var n := cs.start - rs.start;
    var height, width := rs.stop - rs.start, cs.stop - cs.start;
    if height == 1 && width == 1 then Corner(if n >= 0 then t.row else t.col, n)
    else Assemble(LeadColumn(t, rs, cs), LeadRow(t, rs, cs), rs.step, cs.step)
  }

  /** The same with both paths corrected: `col[-n]` below the diagonal, and the runs continued from the other array. */
  function ServeSpansFixed<T>(t: Toeplitz<T>, rs: Span, cs: Span): (r: Result<Block<T>>)
    ensures r.Ok? && r.value.Scalar? <==> (rs.stop - rs.start == 1 && cs.stop - cs.start == 1 && r.Ok?)
    ensures !(rs.stop - rs.start == 1 && cs.stop - cs.start == 1) ==> (r.Err? <==> rs.step == 0 || cs.step == 0)
  {
    var n := cs.start - rs.start;
    var height, width := rs.stop - rs.start, cs.stop - cs.start;
    if height == 1 && width == 1 then Corner(if n >= 0 then t.row else t.col, if n >= 0 then n else -n)
    else Assemble(LeadColumnFixed(t, rs, cs), LeadRowFixed(t, rs, cs), rs.step, cs.step)
  }

  /** `__getitem__` as written. */
  function GetItem<T>(t: Toeplitz<T>, key: Key): (r: Result<Block<T>>)
    ensures CheckSlices(key, |t.col|, |t.row|).Err? ==> r == Err(CheckSlices(key, |t.col|, |t.row|).error)
  {
    match CheckSlices(key, |t.col|, |t.row|)
    case Err(e) => Err(e)
    case Ok(spans) => ServeSpans(t, spans.0, spans.1)
  }

  /** `__getitem__` corrected. */
  function GetItemFixed<T>(t: Toeplitz<T>, key: Key): (r: Result<Block<T>>)
    ensures CheckSlices(key, |t.col|, |t.row|).Err? ==> r == Err(CheckSlices(key, |t.col|, |t.row|).error)
  {
    match CheckSlices(key, |t.col|, |t.row|)
    case Err(e) => Err(e)
    case Ok(spans) => ServeSpansFixed(t, spans.0, spans.1)
  }

  // ---------------------------------------------------------------------
  // Blocks of the matrix a view stands for

  /** Diagonal `k` of the matrix: `col[k]` on and below the main diagonal, `row[-k]` above it. */
  function Diag<T>(t: Toeplitz<T>, k: int): T
    requires -|t.row| < k < |t.col|
  {
    if k >= 0 then t.col[k] else t.row[-k]
  }

  /** Entry `[i][j]` of `scipy.linalg.toeplitz(col, row)` lies on diagonal `i - j`. */
  lemma DiagIsEntry<T>(t: Toeplitz<T>, i: int, j: int)
    requires 0 <= i < |t.col| && 0 <= j < |t.row|
    ensures ToeplitzMatrix(t.col, t.row)[i][j] == Diag(t, i - j)
  {
  }

  function Dist(a: int, b: int): nat {
    if a >= b then a - b else b - a
  }

  /** On `Expected(d)`, diagonal `k` holds `d[|k|]`. */
  lemma ExpectedDiag<T>(d: seq<T>, k: int)
    requires -|d| < k < |d|
    ensures Diag(Expected(d), k) == d[Dist(k, 0)]
  {
  }

  /** The key `[r0:r1:s, c0:c1:s]`. */
  function BlockKey(r0: int, r1: int, c0: int, c1: int, s: int): Key {
    TupleKey([SliceItem(Slice(Some(r0), Some(r1), Some(s))), SliceItem(Slice(Some(c0), Some(c1), Some(s)))])
  }

  /** `m` is `[[M[R[i]][C[j]] for j] for i]` for the matrix `M` of `t`. */
  ghost predicate DiagonalMatrix<T>(m: seq<seq<T>>, t: Toeplitz<T>, R: seq<int>, C: seq<int>) {
    |m| == |R| &&
    forall i :: 0 <= i < |R| ==>
      (|m[i]| == |C| &&
       forall j :: 0 <= j < |C| ==> -|t.row| < R[i] - C[j] < |t.col| && m[i][j] == Diag(t, R[i] - C[j]))
  }

  /**
    `b` is the block `M[r0:r1:s, c0:c1:s]` of the matrix `M` of the view
    `t`, in the form `__getitem__` returns it: entry `[i][j]` is
    `M[rows[i]][cols[j]]` for `rows = range(r0, r1, s)` and
    `cols = range(c0, c1, s)`.
   */
  ghost predicate IsBlockOf<T>(b: Block<T>, t: Toeplitz<T>, r0: int, r1: int, c0: int, c1: int, s: int)
    requires 0 <= r0 < r1 <= |t.col| && 0 <= c0 < c1 <= |t.row| && s > 0
  {
    var height, width := |Walk(r0, r1, s)|, |Walk(c0, c1, s)|;
    match b
    case Scalar(x) => r1 - r0 == 1 && c1 - c0 == 1 && x == Diag(t, r0 - c0)
    case Flat(xs) => height == 1 && width == 1 && xs == [Diag(t, r0 - c0)]
    case Dense(m) => !(height == 1 && width == 1) && DiagonalMatrix(m, t, Walk(r0, r1, s), Walk(c0, c1, s))
  }

  /** For `0 <= n < |a|`, `BackRun(a, n)` is `a[n], a[n - 1], ..., a[1]`. */
  lemma BackRunAt<T>(a: seq<T>, n: int)
    requires 0 <= n < |a|
    ensures |BackRun(a, n)| == n && forall k {:trigger BackRun(a, n)[k]} :: 0 <= k < n ==> BackRun(a, n)[k] == a[n - k]
  {
    var p := SliceOf(a, None, Some(n + 1), 1);
    SlicePrefix(a, n + 1);
    var q := SliceOf(p, None, None, -1);
    SliceReverse(p);
    SliceDropLast(q);
  }

  /** Entry `k` of `Reflected(a, b, n, len)` is `a[n - k]` up to the diagonal at `k == n` and `b[k - n]` from there. */
  lemma ReflectedAt<T>(a: seq<T>, b: seq<T>, n: int, len: int)
    requires 0 <= n < |a| && 0 <= len && len - n <= |b|
    ensures var r := Reflected(a, b, n, len);
      |r| == len && forall k {:trigger r[k]} :: 0 <= k < len ==> r[k] == if k < n then a[n - k] else b[k - n]
  {
    BackRunAt(a, n);
    if n < len {
      ReflectedLong(a, b, n, len);
    } else {
      ReflectedShort(a, n, len);
    }
  }

  lemma ReflectedLong<T>(a: seq<T>, b: seq<T>, n: int, len: int)
    requires 0 <= n < |a| && n < len && len - n <= |b|
    requires |BackRun(a, n)| == n && forall k {:trigger BackRun(a, n)[k]} :: 0 <= k < n ==> BackRun(a, n)[k] == a[n - k]
    ensures var r := BackRun(a, n) + SliceOf(b, None, Some(len - n), 1);
      |r| == len && forall k {:trigger r[k]} :: 0 <= k < len ==> r[k] == if k < n then a[n - k] else b[k - n]
  {
    var back, front := BackRun(a, n), SliceOf(b, None, Some(len - n), 1);
    SlicePrefix(b, len - n);
    var r := back + front;
    forall k | 0 <= k < len ensures r[k] == if k < n then a[n - k] else b[k - n] {
      if k < n {
        assert r[k] == back[k];
      } else {
        assert r[k] == front[k - n];
      }
    }
  }

  lemma ReflectedShort<T>(a: seq<T>, n: int, len: int)
    requires 0 <= len <= n < |a|
    requires |BackRun(a, n)| == n && forall k {:trigger BackRun(a, n)[k]} :: 0 <= k < n ==> BackRun(a, n)[k] == a[n - k]
    ensures var r := SliceOf(BackRun(a, n), None, Some(len), 1);
      |r| == len && forall k {:trigger r[k]} :: 0 <= k < len ==> r[k] == a[n - k]
  {
    SlicePrefix(BackRun(a, n), len);
  }

  /** `v` is the column `M[r0 + k][c0]` of the matrix of `t`. */
  ghost predicate LeadColumnOf<T>(v: seq<T>, t: Toeplitz<T>, r0: int, c0: int) {
    0 <= r0 && r0 + |v| <= |t.col| && 0 <= c0 < |t.row| &&
    forall k {:trigger v[k]} :: 0 <= k < |v| ==> v[k] == Diag(t, r0 + k - c0)
  }

  /** `h` is the row `M[r0][c0 + k]` of the matrix of `t`. */
  ghost predicate LeadRowOf<T>(h: seq<T>, t: Toeplitz<T>, r0: int, c0: int) {
    0 <= c0 && c0 + |h| <= |t.row| && 0 <= r0 < |t.col| &&
    forall k {:trigger h[k]} :: 0 <= k < |h| ==> h[k] == Diag(t, r0 - (c0 + k))
  }

  /** The corrected first column of a block holds `M[r0 + i][c0]`. */
  lemma LeadColumnFixedOf<T>(t: Toeplitz<T>, rs: Span, cs: Span)
    requires 0 <= rs.start <= rs.stop <= |t.col| && 0 <= cs.start < |t.row|
    ensures var v := LeadColumnFixed(t, rs, cs);
      |v| == rs.stop - rs.start && LeadColumnOf(v, t, rs.start, cs.start)
  {
    if cs.start - rs.start >= 0 {
      ColumnAboveDiagonal(t, rs, cs);
    } else {
      ColumnBelowDiagonal(t, rs, cs);
    }
  }

  /** For a corner on or above the diagonal, the column runs back along `row` and on down `col`. */
  lemma ColumnAboveDiagonal<T>(t: Toeplitz<T>, rs: Span, cs: Span)
    requires 0 <= rs.start <= rs.stop <= |t.col| && 0 <= cs.start < |t.row| && cs.start - rs.start >= 0
    ensures var v := LeadColumnFixed(t, rs, cs);
      |v| == rs.stop - rs.start && LeadColumnOf(v, t, rs.start, cs.start)
  {
    // The corner offset and the height are passed exactly as `LeadColumnFixed` computes them.
    ReflectedColumn(t, rs.start, cs.start, cs.start - rs.start, rs.stop - rs.start);
  }

  /** Below the diagonal the column is a plain slice of `col`. */
  lemma ColumnBelowDiagonal<T>(t: Toeplitz<T>, rs: Span, cs: Span)
    requires 0 <= rs.start <= rs.stop <= |t.col| && 0 <= cs.start < |t.row| && cs.start - rs.start < 0
    ensures var v := LeadColumnFixed(t, rs, cs);
      |v| == rs.stop - rs.start && LeadColumnOf(v, t, rs.start, cs.start)
  {
    SliceColumn(t, rs.start, cs.start, -(cs.start - rs.start), rs.stop - rs.start);
  }

  lemma SliceColumn<T>(t: Toeplitz<T>, r0: int, c0: int, m: int, len: int)
    requires 0 <= c0 < |t.row| && m == r0 - c0 && 0 < m && 0 <= len && r0 + len <= |t.col|
    ensures var v := SliceOf(t.col, Some(m), Some(m + len), 1);
      |v| == len && LeadColumnOf(v, t, r0, c0)
  {
    SliceRange(t.col, m, m + len);
  }

  lemma ReflectedColumn<T>(t: Toeplitz<T>, r0: int, c0: int, n: int, len: int)
    requires 0 <= r0 && n == c0 - r0 && 0 <= n && c0 < |t.row| && 0 <= len && r0 + len <= |t.col|
    ensures var v := Reflected(t.row, t.col, n, len);
      |v| == len && LeadColumnOf(v, t, r0, c0)
  {
    ReflectedAt(t.row, t.col, n, len);
    var v := Reflected(t.row, t.col, n, len);
    forall i | 0 <= i < |v| ensures v[i] == Diag(t, r0 + i - c0) {
      assert r0 + i - c0 == i - n;
    }
  }

  /** The corrected first row of a block holds `M[r0][c0 + j]`. */
  lemma LeadRowFixedOf<T>(t: Toeplitz<T>, rs: Span, cs: Span)
    requires 0 <= cs.start <= cs.stop <= |t.row| && 0 <= rs.start < |t.col|
    requires 0 < |t.row| && t.col[0] == t.row[0]
    ensures var h := LeadRowFixed(t, rs, cs);
      |h| == cs.stop - cs.start && LeadRowOf(h, t, rs.start, cs.start)
  {
    if cs.start - rs.start >= 0 {
      RowAboveDiagonal(t, rs, cs);
    } else {
      RowBelowDiagonal(t, rs, cs);
    }
  }

  /** For a corner below the diagonal, the row runs back up `col` and on along `row`. */
  lemma RowBelowDiagonal<T>(t: Toeplitz<T>, rs: Span, cs: Span)
    requires 0 <= cs.start <= cs.stop <= |t.row| && 0 <= rs.start < |t.col|
    requires 0 < |t.row| && t.col[0] == t.row[0]
    requires cs.start - rs.start < 0
    ensures var h := LeadRowFixed(t, rs, cs);
      |h| == cs.stop - cs.start && LeadRowOf(h, t, rs.start, cs.start)
  {
    ReflectedRow(t, rs.start, cs.start, -(cs.start - rs.start), cs.stop - cs.start);
  }

  /** On or above the diagonal the row is a plain slice of `row`. */
  lemma RowAboveDiagonal<T>(t: Toeplitz<T>, rs: Span, cs: Span)
    requires 0 <= cs.start <= cs.stop <= |t.row| && 0 <= rs.start < |t.col|
    requires 0 < |t.row| && t.col[0] == t.row[0]
    requires cs.start - rs.start >= 0
    ensures var h := LeadRowFixed(t, rs, cs);
      |h| == cs.stop - cs.start && LeadRowOf(h, t, rs.start, cs.start)
  {
    SliceRow(t, rs.start, cs.start, cs.start - rs.start, cs.stop - cs.start);
  }

  lemma SliceRow<T>(t: Toeplitz<T>, r0: int, c0: int, n: int, len: int)
    requires 0 <= r0 < |t.col| && n == c0 - r0 && 0 <= n && 0 <= len && c0 + len <= |t.row|
    requires 0 < |t.row| && t.col[0] == t.row[0]
    ensures var h := SliceOf(t.row, Some(n), Some(n + len), 1);
      |h| == len && LeadRowOf(h, t, r0, c0)
  {
    SliceRange(t.row, n, n + len);
    var h := SliceOf(t.row, Some(n), Some(n + len), 1);
    forall j | 0 <= j < |h| ensures h[j] == Diag(t, r0 - (c0 + j)) {
      assert r0 - (c0 + j) == -(n + j);
    }
  }

  lemma ReflectedRow<T>(t: Toeplitz<T>, r0: int, c0: int, m: int, len: int)
    requires 0 <= c0 && m == r0 - c0 && 0 < m && r0 < |t.col| && 0 <= len && c0 + len <= |t.row|
    requires 0 < |t.row| && t.col[0] == t.row[0]
    ensures var h := Reflected(t.col, t.row, m, len);
      |h| == len && LeadRowOf(h, t, r0, c0)
  {
    ReflectedAt(t.col, t.row, m, len);
    var h := Reflected(t.col, t.row, m, len);
    forall j | 0 <= j < |h| ensures h[j] == Diag(t, r0 - (c0 + j)) {
      assert r0 - (c0 + j) == m - j;
    }
  }

  /**
    One entry of the Toeplitz matrix of two runs `vs`, `hs` picked from `v`
    and `h` at the positions `P` and `Q`, where position differences are
    positions again (as for two ranges with the same step).
   */
  lemma StridedEntry<T>(t: Toeplitz<T>, v: seq<T>, h: seq<T>, vs: seq<T>, hs: seq<T>, P: seq<int>, Q: seq<int>,
                        r0: int, c0: int, i: int, j: int)
    requires LeadColumnOf(v, t, r0, c0) && LeadRowOf(h, t, r0, c0)
    requires |vs| == |P| && forall k :: 0 <= k < |P| ==> 0 <= P[k] < |v| && vs[k] == v[P[k]]
    requires |hs| == |Q| && forall k :: 0 <= k < |Q| ==> 0 <= Q[k] < |h| && hs[k] == h[Q[k]]
    requires 0 <= i < |P| && 0 <= j < |Q|
    requires i >= j ==> P[i] - Q[j] == P[i - j]
    requires i < j ==> Q[j] - P[i] == Q[j - i]
    ensures -|t.row| < (r0 + P[i]) - (c0 + Q[j]) < |t.col|
    ensures ToeplitzMatrix(vs, hs)[i][j] == Diag(t, (r0 + P[i]) - (c0 + Q[j]))
  {
    if i >= j {
      var x := P[i - j];
      assert v[x] == Diag(t, r0 + x - c0);
    } else {
      var y := Q[j - i];
      assert h[y] == Diag(t, r0 - (c0 + y));
    }
  }

  /** Differences of positions of two ranges from 0 with the same step. */
  ghost predicate SameStride(P: seq<int>, Q: seq<int>) {
    (forall i, j :: 0 <= j <= i < |P| && j < |Q| ==> P[i] - Q[j] == P[i - j]) &&
    (forall i, j :: 0 <= i < j < |Q| && i < |P| ==> Q[j] - P[i] == Q[j - i])
  }

  lemma WalksSameStride(n1: int, n2: int, s: int)
    requires s > 0
    ensures SameStride(Walk(0, n1, s), Walk(0, n2, s))
  {
    var P, Q := Walk(0, n1, s), Walk(0, n2, s);
    forall i, j | 0 <= j <= i < |P| && j < |Q| ensures P[i] - Q[j] == P[i - j] {
      WalkDiff(n1, n2, s, i, j);
    }
    forall i, j | 0 <= i < j < |Q| && i < |P| ensures Q[j] - P[i] == Q[j - i] {
      WalkDiff(n2, n1, s, j, i);
    }
  }

  lemma StridedMatrix<T>(t: Toeplitz<T>, v: seq<T>, h: seq<T>, vs: seq<T>, hs: seq<T>, P: seq<int>, Q: seq<int>,
                         R: seq<int>, C: seq<int>, r0: int, c0: int)
    requires LeadColumnOf(v, t, r0, c0) && LeadRowOf(h, t, r0, c0)
    requires |vs| == |P| && forall k :: 0 <= k < |P| ==> 0 <= P[k] < |v| && vs[k] == v[P[k]]
    requires |hs| == |Q| && forall k :: 0 <= k < |Q| ==> 0 <= Q[k] < |h| && hs[k] == h[Q[k]]
    requires SameStride(P, Q)
    requires |R| == |P| && forall k :: 0 <= k < |R| ==> R[k] == r0 + P[k]
    requires |C| == |Q| && forall k :: 0 <= k < |C| ==> C[k] == c0 + Q[k]
    ensures DiagonalMatrix(ToeplitzMatrix(vs, hs), t, R, C)
  {
    var m := ToeplitzMatrix(vs, hs);
    forall i, j | 0 <= i < |R| && 0 <= j < |C|
      ensures -|t.row| < R[i] - C[j] < |t.col| && m[i][j] == Diag(t, R[i] - C[j])
    {
      StridedEntry(t, v, h, vs, hs, P, Q, r0, c0, i, j);
    }
  }

  /** The Toeplitz matrix of the two strided runs is the strided block. */
  lemma StridedBlock<T>(t: Toeplitz<T>, v: seq<T>, h: seq<T>, r0: int, r1: int, c0: int, c1: int, s: int)
    requires 0 <= r0 < r1 <= |t.col| && 0 <= c0 < c1 <= |t.row| && s > 0
    requires |v| == r1 - r0 && |h| == c1 - c0
    requires LeadColumnOf(v, t, r0, c0) && LeadRowOf(h, t, r0, c0)
    requires !(r1 - r0 == 1 && c1 - c0 == 1)
    ensures var b := Assemble(v, h, s, s);
      b.Ok? && IsBlockOf(b.value, t, r0, r1, c0, c1, s)
  {
    var vs, hs := SliceOf(v, None, None, s), SliceOf(h, None, None, s);
    var P, Q := Walk(0, |v|, s), Walk(0, |h|, s);
    var R, C := Walk(r0, r1, s), Walk(c0, c1, s);
    SliceStrideAt(v, s);
    SliceStrideAt(h, s);
    WalkShiftAt(r0, r1, s);
    WalkShiftAt(c0, c1, s);
    WalksSameStride(|v|, |h|, s);
    StridedMatrix(t, v, h, vs, hs, P, Q, R, C, r0, c0);
    BlockFromDiagonals(t, ToeplitzMatrix(vs, hs), r0, r1, c0, c1, s);
  }

  /** A matrix of diagonal entries over the two ranges, in the form `Assemble` returns it, is the block. */
  lemma BlockFromDiagonals<T>(t: Toeplitz<T>, m: seq<seq<T>>, r0: int, r1: int, c0: int, c1: int, s: int)
    requires 0 <= r0 < r1 <= |t.col| && 0 <= c0 < c1 <= |t.row| && s > 0
    requires DiagonalMatrix(m, t, Walk(r0, r1, s), Walk(c0, c1, s))
    ensures var b := if |m| == 1 && |m[0]| == 1 then Flat([m[0][0]]) else Dense(m);
      IsBlockOf(b, t, r0, r1, c0, c1, s)
  {
    var R, C := Walk(r0, r1, s), Walk(c0, c1, s);
    if |m| == 1 && |m[0]| == 1 {
      assert R[0] == r0 && C[0] == c0;
    }
  }

  /** A block that is not 1-by-1, built from the corrected runs, is the block of the matrix. */
  lemma AssembleFixed<T>(t: Toeplitz<T>, rs: Span, cs: Span)
    requires 0 <= rs.start < rs.stop <= |t.col| && 0 <= cs.start < cs.stop <= |t.row|
    requires rs.step > 0 && cs.step == rs.step && t.col[0] == t.row[0]
    requires !(rs.stop - rs.start == 1 && cs.stop - cs.start == 1)
    ensures var b := Assemble(LeadColumnFixed(t, rs, cs), LeadRowFixed(t, rs, cs), rs.step, cs.step);
      b.Ok? && IsBlockOf(b.value, t, rs.start, rs.stop, cs.start, cs.stop, rs.step)
  {
    LeadColumnFixedOf(t, rs, cs);
    LeadRowFixedOf(t, rs, cs);
    StridedBlock(t, LeadColumnFixed(t, rs, cs), LeadRowFixed(t, rs, cs), rs.start, rs.stop, cs.start, cs.stop, rs.step);
  }

  lemma BlockKeyChecks(r0: int, r1: int, c0: int, c1: int, s: int, rows: int, cols: int)
    requires r0 <= r1 && c0 <= c1
    ensures CheckSlices(BlockKey(r0, r1, c0, c1, s), rows, cols) == Ok((Span(r0, r1, s), Span(c0, c1, s)))
  {
    var key := BlockKey(r0, r1, c0, c1, s);
    assert IsSlices(key);
    assert AxisSlices(key) == key.items;
  }

  /** A block key that passes the check is served from its two spans. */
  lemma BlockKeyReads<T>(t: Toeplitz<T>, r0: int, r1: int, c0: int, c1: int, s: int)
    requires r0 <= r1 && c0 <= c1
    ensures GetItem(t, BlockKey(r0, r1, c0, c1, s)) == ServeSpans(t, Span(r0, r1, s), Span(c0, c1, s))
    ensures GetItemFixed(t, BlockKey(r0, r1, c0, c1, s)) == ServeSpansFixed(t, Span(r0, r1, s), Span(c0, c1, s))
  {
    BlockKeyChecks(r0, r1, c0, c1, s, |t.col|, |t.row|);
  }

  /** Serving the spans of a non-empty block gives the block of the matrix. */
  lemma ServeFixed<T>(t: Toeplitz<T>, r0: int, r1: int, c0: int, c1: int, s: int)
    requires 0 <= r0 < r1 <= |t.col| && 0 <= c0 < c1 <= |t.row| && s > 0 && t.col[0] == t.row[0]
    ensures var r := ServeSpansFixed(t, Span(r0, r1, s), Span(c0, c1, s));
      r.Ok? && IsBlockOf(r.value, t, r0, r1, c0, c1, s)
  {
    if !(r1 - r0 == 1 && c1 - c0 == 1) {
      AssembleFixed(t, Span(r0, r1, s), Span(c0, c1, s));
    }
  }

  /**
    Every non-empty block with equal positive steps read from a view whose
    `col` and `row` share their first entry is the corresponding block of
    `scipy.linalg.toeplitz(col, row)`.
   */
  lemma BlockRead<T>(t: Toeplitz<T>, r0: int, r1: int, c0: int, c1: int, s: int)
    requires 0 <= r0 < r1 <= |t.col| && 0 <= c0 < c1 <= |t.row| && s > 0 && t.col[0] == t.row[0]
    ensures var r := GetItemFixed(t, BlockKey(r0, r1, c0, c1, s));
      r.Ok? && IsBlockOf(r.value, t, r0, r1, c0, c1, s)
  {
    BlockKeyReads(t, r0, r1, c0, c1, s);
    ServeFixed(t, r0, r1, c0, c1, s);
  }

  /** The same for `Expected(d)`, whose diagonals hold `d[|k|]` (`ExpectedDiag`). */
  lemma ExpectedBlock<T>(d: seq<T>, r0: int, r1: int, c0: int, c1: int, s: int)
    requires 0 <= r0 < r1 <= |d| && 0 <= c0 < c1 <= |d| && s > 0
    ensures var r := GetItemFixed(Expected(d), BlockKey(r0, r1, c0, c1, s));
      r.Ok? && IsBlockOf(r.value, Expected(d), r0, r1, c0, c1, s)
  {
    BlockRead(Expected(d), r0, r1, c0, c1, s);
  }

  /**
    On a symmetric view the code as written agrees with the corrected one
    except on 1-by-1 requests below the diagonal.
   */
  lemma GetItemAgreesWhenSymmetric<T>(t: Toeplitz<T>, key: Key)
    requires t.row == t.col
    requires CheckSlices(key, |t.col|, |t.row|).Ok?
    requires var (rs, cs) := CheckSlices(key, |t.col|, |t.row|).value;
      !(rs.stop - rs.start == 1 && cs.stop - cs.start == 1 && cs.start < rs.start)
    ensures GetItem(t, key) == GetItemFixed(t, key)
  {
  }

  /**
    `Expected([1, 2, 3])[1:2, 0:1]` asks for `M[1][0] = d[1] = 2`; the code
    reads `_col[-1]` and returns 3.
   */
  lemma ScalarBelowDiagonalWraps()
    ensures GetItem(Expected([1, 2, 3]), BlockKey(1, 2, 0, 1, 1)) == Ok(Scalar(3))
    ensures GetItemFixed(Expected([1, 2, 3]), BlockKey(1, 2, 0, 1, 1)) == Ok(Scalar(2))
  {
    BlockKeyChecks(1, 2, 0, 1, 1, 3, 3);
  }

  /**
    `Toeplitz([1, 2, 3], [1, 5, 6])[0:3, 1:2]` asks for the column
    `M[0][1], M[1][1], M[2][1] = 5, 1, 2`; the code continues past the
    diagonal with `_row[:2]` and returns 5, 1, 5.
   */
  lemma ColumnContinuesFromRow()
    ensures GetItem(Toeplitz([1, 2, 3], [1, 5, 6]), BlockKey(0, 3, 1, 2, 1)) == Ok(Dense([[5], [1], [5]]))
    ensures GetItemFixed(Toeplitz([1, 2, 3], [1, 5, 6]), BlockKey(0, 3, 1, 2, 1)) == Ok(Dense([[5], [1], [2]]))
  {
    var t := Toeplitz([1, 2, 3], [1, 5, 6]);
    var rs, cs := Span(0, 3, 1), Span(1, 2, 1);
    BlockKeyReads(t, 0, 3, 1, 2, 1);
    var v, w := LeadColumn(t, rs, cs), LeadColumnFixed(t, rs, cs);
    assert v == Reflected(t.row, t.row, 1, 3) && w == Reflected(t.row, t.col, 1, 3);
    ReflectedThree(t.row, t.row);
    ReflectedThree(t.row, t.col);
    assert v == [5, 1, 5] && w == [5, 1, 2];
    SliceRange(t.row, 1, 2);
    var h := LeadRow(t, rs, cs);
    assert h == [5] == LeadRowFixed(t, rs, cs);
    UnitStride(v);
    UnitStride(w);
    UnitStride(h);
    OneColumn(v, 5);
    OneColumn(w, 5);
  }

  /**
    Below the diagonal the lead row continues with `col[:width - n]` where
    the row belongs: the second row of `Toeplitz([1, 2, 3], [1, 5, 6])`,
    which is `[2, 1, 5]`, is read as `[2, 1, 2]`.
   */
  lemma RowContinuesFromCol()
    ensures GetItem(Toeplitz([1, 2, 3], [1, 5, 6]), BlockKey(1, 2, 0, 3, 1)) == Ok(Dense([[2, 1, 2]]))
    ensures GetItemFixed(Toeplitz([1, 2, 3], [1, 5, 6]), BlockKey(1, 2, 0, 3, 1)) == Ok(Dense([[2, 1, 5]]))
  {
    var t := Toeplitz([1, 2, 3], [1, 5, 6]);
    var rs, cs := Span(1, 2, 1), Span(0, 3, 1);
    BlockKeyReads(t, 1, 2, 0, 3, 1);
    var h, w := LeadRow(t, rs, cs), LeadRowFixed(t, rs, cs);
    assert h == Reflected(t.col, t.col, 1, 3) && w == Reflected(t.col, t.row, 1, 3);
    ReflectedThree(t.col, t.col);
    ReflectedThree(t.col, t.row);
    assert h == [2, 1, 2] && w == [2, 1, 5];
    SliceRange(t.col, 1, 2);
    var v := LeadColumn(t, rs, cs);
    assert v == [2] == LeadColumnFixed(t, rs, cs);
    UnitStride(v);
    UnitStride(h);
    UnitStride(w);
    OneRow(2, h);
    OneRow(2, w);
  }

  /**
    A stop past the end is not clamped before the lead runs are built:
    `Expected([1, 2, 3])[1:5, 0:5]` asks for the last two rows of the 3 x 3
    matrix, `[[2, 1, 2], [3, 2, 1]]`, and both readings return a 2 x 4 block
    whose row is continued past the last column.
   */
  lemma BlockPastTheEnd()
    ensures var m := ToeplitzMatrix([1, 2, 3], [1, 2, 3]); [m[1], m[2]] == [[2, 1, 2], [3, 2, 1]]
    ensures GetItem(Expected([1, 2, 3]), BlockKey(1, 5, 0, 5, 1)) == Ok(Dense([[2, 1, 2, 3], [3, 2, 1, 2]]))
    ensures GetItemFixed(Expected([1, 2, 3]), BlockKey(1, 5, 0, 5, 1)) == Ok(Dense([[2, 1, 2, 3], [3, 2, 1, 2]]))
  {
    var t := Expected([1, 2, 3]);
    var rs, cs := Span(1, 5, 1), Span(0, 5, 1);
    BlockKeyReads(t, 1, 5, 0, 5, 1);
    PastTheEndRuns();
    PastTheEndAssembles();
    assert ServeSpans(t, rs, cs) == Assemble(LeadColumn(t, rs, cs), LeadRow(t, rs, cs), 1, 1);
    assert ServeSpansFixed(t, rs, cs) == Assemble(LeadColumnFixed(t, rs, cs), LeadRowFixed(t, rs, cs), 1, 1);
    var e := ToeplitzMatrix([1, 2, 3], [1, 2, 3]);
    assert e[1] == [2, 1, 2] && e[2] == [3, 2, 1];
  }

  lemma PastTheEndAssembles()
    ensures Assemble([2, 3], [2, 1, 2, 3], 1, 1) == Ok(Dense([[2, 1, 2, 3], [3, 2, 1, 2]]))
  {
    var v, h := [2, 3], [2, 1, 2, 3];
    UnitStride(v);
    UnitStride(h);
    TwoRows(2, 3, h);
    var m := ToeplitzMatrix(v, h);
    assert m == [[2, 1, 2, 3], [3, 2, 1, 2]];
  }

  /** The lead runs of `Expected([1, 2, 3])[1:5, 0:5]`, as written and corrected. */
  lemma PastTheEndRuns()
    ensures var t, rs, cs := Expected([1, 2, 3]), Span(1, 5, 1), Span(0, 5, 1);
      LeadColumn(t, rs, cs) == [2, 3] == LeadColumnFixed(t, rs, cs) &&
      LeadRow(t, rs, cs) == [2, 1, 2, 3] == LeadRowFixed(t, rs, cs)
  {
    var t := Expected([1, 2, 3]);
    SliceRange(t.col, 1, 3);
    assert SliceOf(t.col, Some(1), Some(5), 1) == SliceOf(t.col, Some(1), Some(3), 1);
    BackRunAt(t.col, 1);
    SlicePrefix(t.col, 4);
    assert BackRun(t.col, 1) == [2];
  }

  lemma TwoRows<T>(a: T, b: T, h: seq<T>)
    requires |h| == 4
    ensures ToeplitzMatrix([a, b], h) == [[a, h[1], h[2], h[3]], [b, a, h[1], h[2]]]
  {
    var m := ToeplitzMatrix([a, b], h);
    assert m[0] == [a, h[1], h[2], h[3]] && m[1] == [b, a, h[1], h[2]];
  }

  lemma ReflectedThree<T>(a: seq<T>, b: seq<T>)
    requires |a| >= 2 && |b| >= 2
    ensures Reflected(a, b, 1, 3) == [a[1], b[0], b[1]]
  {
    ReflectedAt(a, b, 1, 3);
  }

  lemma OneColumn<T>(v: seq<T>, x: T)
    requires |v| == 3
    ensures ToeplitzMatrix(v, [x]) == [[v[0]], [v[1]], [v[2]]]
  {
    var m := ToeplitzMatrix(v, [x]);
    assert m[0] == [v[0]] && m[1] == [v[1]] && m[2] == [v[2]];
  }

  lemma OneRow<T>(x: T, h: seq<T>)
    requires |h| == 3
    ensures ToeplitzMatrix([x], h) == [[x, h[1], h[2]]]
  {
    var m := ToeplitzMatrix([x], h);
    assert m[0] == [x, h[1], h[2]];
  }

  /** A step of 1 selects the whole sequence. */
  lemma UnitStride<T>(a: seq<T>)
    ensures SliceOf(a, None, None, 1) == a
  {
    SliceStrideAt(a, 1);
    WalkAt(0, |a|, 1);
    WalkUnitLength(0, |a|);
  }
}
