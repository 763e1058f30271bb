/**
  Python's indexing and slicing of one-dimensional sequences, as the core
  uses them on numpy vectors: `a[i]` with negative indices counted from the
  end, and `a[start:stop:step]` with CPython's clamping of the bounds.
 */
module PySeq {
  import opened Base

  /** A Python `slice` object; each field may be None. */
  datatype Slice = Slice(start: Option<int>, stop: Option<int>, step: Option<int>)

  /** One selector of an index expression: a slice, or a plain integer. */
  datatype Item = SliceItem(slice: Slice) | IntItem(i: int)

  /** `range(start, stop, step)` as a sequence of integers. */
  function Walk(start: int, stop: int, step: int): (r: seq<int>)
    requires step != 0
    ensures step > 0 ==> forall k :: 0 <= k < |r| ==> start <= r[k] < stop
    ensures step < 0 ==> forall k :: 0 <= k < |r| ==> stop < r[k] <= start
    decreases if step > 0 then stop - start else start - stop
  {
    if (step > 0 && start < stop) || (step < 0 && stop < start) then
      [start] + Walk(start + step, stop, step)
    else
      []
  }

  lemma {:induction false} WalkAt(start: int, stop: int, step: int)
    requires step != 0
    ensures forall k :: 0 <= k < |Walk(start, stop, step)| ==> Walk(start, stop, step)[k] == start + k * step
    decreases if step > 0 then stop - start else start - stop
  {
    if (step > 0 && start < stop) || (step < 0 && stop < start) {
      WalkAt(start + step, stop, step);
      var w := Walk(start, stop, step);
      forall k | 0 <= k < |w| ensures w[k] == start + k * step {
        if k > 0 {
          assert w[k] == Walk(start + step, stop, step)[k - 1];
          assert (k - 1) * step + step == k * step;
        }
      }
    }
  }

  /** `range(a, b)` has `b - a` elements when `a <= b`. */
  lemma {:induction false} WalkUnitLength(start: int, stop: int)
    requires start <= stop
    ensures |Walk(start, stop, 1)| == stop - start
    decreases stop - start
  {
    if start < stop {
      WalkUnitLength(start + 1, stop);
    }
  }

  /** A forward range reaches `start + k * step` exactly when that value is below `stop`. */
  lemma {:induction false} WalkReaches(start: int, stop: int, step: int, k: nat)
    requires step > 0 && start + k * step < stop
    ensures k < |Walk(start, stop, step)| && Walk(start, stop, step)[k] == start + k * step
    decreases k
  {
    WalkAt(start, stop, step);
    if k > 0 {
      assert start + step + (k - 1) * step == start + k * step;
      WalkReaches(start + step, stop, step, k - 1);
    }
  }

  /** Shifting both ends of a range does not change its length. */
  lemma {:induction false} WalkShiftLength(start: int, stop: int, step: int, t: int)
    requires step != 0
    ensures |Walk(start + t, stop + t, step)| == |Walk(start, stop, step)|
    decreases if step > 0 then stop - start else start - stop
  {
    if (step > 0 && start < stop) || (step < 0 && stop < start) {
      WalkShiftLength(start + step, stop, step, t);
      assert start + t + step == start + step + t;
    }
  }

  /** CPython's adjustment of an explicit slice bound to a sequence of length `len`. */
  function AdjustBound(b: int, len: nat, step: int): int {
    if b < 0 then
      (if b + len < 0 then (if step < 0 then -1 else 0) else b + len)
    else if b >= len then
      (if step < 0 then len - 1 else len)
    else
      b
  }

  function StartOf(b: Option<int>, len: nat, step: int): (r: int)
    ensures step > 0 ==> 0 <= r <= len
    ensures step < 0 ==> -1 <= r <= len - 1
  {
    match b
    case None => if step < 0 then len - 1 else 0
    case Some(x) => AdjustBound(x, len, step)
  }

  function StopOf(b: Option<int>, len: nat, step: int): (r: int)
    ensures step > 0 ==> 0 <= r <= len
    ensures step < 0 ==> -1 <= r <= len - 1
  {
    match b
    case None => if step < 0 then -1 else len
    case Some(x) => AdjustBound(x, len, step)
  }

  /** The positions `a[start:stop:step]` selects, in order. */
  function SliceIndices(len: nat, start: Option<int>, stop: Option<int>, step: int): (r: seq<int>)
    requires step != 0
    ensures forall k :: 0 <= k < |r| ==> 0 <= r[k] < len
  {
    Walk(StartOf(start, len, step), StopOf(stop, len, step), step)
  }

  /** `a[start:stop:step]`, for a non-zero step (a zero step raises ValueError). */
  function SliceOf<T>(a: seq<T>, start: Option<int>, stop: Option<int>, step: int): (r: seq<T>)
    requires step != 0
  {
    var idx := SliceIndices(|a|, start, stop, step);
    seq(|idx|, k requires 0 <= k < |idx| => a[idx[k]])
  }

  /** `a[i]` for an integer `i`: negative indices count from the end. */
  function IndexOf<T>(a: seq<T>, i: int): (r: Result<T>)
    ensures r.Ok? <==> -|a| <= i < |a|
    ensures r.Err? ==> r.error == IndexError
  {
    if 0 <= i < |a| then Ok(a[i])
    else if -|a| <= i < 0 then Ok(a[|a| + i])
    else Err(IndexError)
  }

  // Facts about the handful of slice shapes the core uses.

  /** `a[i:j]` with in-range bounds is Dafny's `a[i..j]`. */
  lemma SliceRange<T>(a: seq<T>, i: int, j: int)
    requires 0 <= i <= j <= |a|
    ensures SliceOf(a, Some(i), Some(j), 1) == a[i..j]
  {
    WalkUnitLength(i, j);
    WalkAt(i, j, 1);
  }

  /** `a[:j]` for `j >= 0` keeps the first `min(j, |a|)` elements. */
  lemma SlicePrefix<T>(a: seq<T>, j: int)
    requires 0 <= j
    ensures SliceOf(a, None, Some(j), 1) == a[..if j < |a| then j else |a|]
  {
    var e := if j < |a| then j else |a|;
    WalkUnitLength(0, e);
    WalkAt(0, e, 1);
  }

  /** `a[:-1]` drops the last element. */
  lemma SliceDropLast<T>(a: seq<T>)
    requires |a| > 0
    ensures SliceOf(a, None, Some(-1), 1) == a[..|a| - 1]
  {
    WalkUnitLength(0, |a| - 1);
    WalkAt(0, |a| - 1, 1);
  }

  /** `a[::-1]` reverses. */
  lemma SliceReverse<T>(a: seq<T>)
    ensures |SliceOf(a, None, None, -1)| == |a|
    ensures forall k :: 0 <= k < |a| ==> SliceOf(a, None, None, -1)[k] == a[|a| - 1 - k]
  {
    WalkAt(|a| - 1, -1, -1);
    WalkDownLength(|a| - 1);
  }

  lemma {:induction false} WalkDownLength(start: int)
    requires -1 <= start
    ensures |Walk(start, -1, -1)| == start + 1
    decreases start + 1
  {
    if start > -1 {
      WalkDownLength(start - 1);
    }
  }

  /** `a[::s]` for a positive step `s` takes every `s`-th element from the first. */
  lemma SliceStride<T>(a: seq<T>, s: int)
    requires s > 0
    ensures |SliceOf(a, None, None, s)| == |Walk(0, |a|, s)|
    ensures forall k :: 0 <= k < |SliceOf(a, None, None, s)| ==>
              k * s < |a| && SliceOf(a, None, None, s)[k] == a[k * s]
  {
    WalkAt(0, |a|, s);
    var w := Walk(0, |a|, s);
    forall k | 0 <= k < |w| ensures k * s < |a| {
      assert w[k] == k * s;
    }
  }

  /** `a[::s]` picks, in order, the positions of `range(0, len(a), s)`. */
  lemma SliceStrideAt<T>(a: seq<T>, s: int)
    requires s > 0
    ensures |SliceOf(a, None, None, s)| == |Walk(0, |a|, s)|
    ensures forall k :: 0 <= k < |Walk(0, |a|, s)| ==> SliceOf(a, None, None, s)[k] == a[Walk(0, |a|, s)[k]]
  {
  }

  /** Positions of two ranges from 0 with the same step differ by a position of the first. */
  lemma WalkDiff(n1: int, n2: int, s: int, i: int, j: int)
    requires s > 0 && 0 <= j <= i < |Walk(0, n1, s)| && j < |Walk(0, n2, s)|
    ensures Walk(0, n1, s)[i] - Walk(0, n2, s)[j] == Walk(0, n1, s)[i - j]
  {
    WalkAt(0, n1, s);
    WalkAt(0, n2, s);
    assert (i - j) * s == i * s - j * s;
  }

  /** `range(lo, hi, s)` is `lo` plus `range(0, hi - lo, s)`. */
  lemma WalkShiftAt(lo: int, hi: int, s: int)
    requires s != 0
    ensures |Walk(lo, hi, s)| == |Walk(0, hi - lo, s)|
    ensures forall k :: 0 <= k < |Walk(lo, hi, s)| ==> Walk(lo, hi, s)[k] == lo + Walk(0, hi - lo, s)[k]
  {
    WalkShiftLength(0, hi - lo, s, lo);
    assert 0 + lo == lo && hi - lo + lo == hi;
    WalkAt(lo, hi, s);
    WalkAt(0, hi - lo, s);
  }
}
