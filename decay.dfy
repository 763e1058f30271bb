/**
  The diagonal decay profile of a contact matrix (get_decay in
  hictools/compartment.py): offsets are grouped by consecutive pairs of a
  boundary sequence, and every slot of a group receives the mean of the
  kept cells on the group's upper diagonals.
 */
module Decay {
  import opened Base
  import opened PySeq

  /** `linear_bins(lo, hi)`: a leading 0 followed by `lo, lo + 1, ..., hi - 1`. */
  function LinearBins(lo: int, hi: int): (r: seq<int>)
    ensures lo <= hi ==> |r| == hi - lo + 1
    ensures lo <= hi ==> r[0] == 0 && forall m :: 1 <= m < |r| ==> r[m] == lo + m - 1
  {
    if lo <= hi then WalkUnitLength(lo, hi); WalkAt(lo, hi, 1); [0] + Walk(lo, hi, 1)
    else [0] + Walk(lo, hi, 1)
  }

  /** The boundaries that give every offset `lo .. hi - 1` a group of its own. */
  function LinearBinsFixed(lo: int, hi: int): (r: seq<int>)
    ensures lo <= hi ==> |r| == hi - lo + 1
    ensures lo <= hi ==> forall m :: 0 <= m < |r| ==> r[m] == lo + m
  {
    if lo <= hi then WalkUnitLength(lo, hi + 1); WalkAt(lo, hi + 1, 1); Walk(lo, hi + 1, 1)
    else Walk(lo, hi + 1, 1)
  }

  /** The two flags ignore_nan and ignore_zero. */
  datatype Policy = Policy(ignoreNan: bool, ignoreZero: bool)

  /** What get_decay returns: the profile, or (with record) the profile and the kept-cell counts. */
  datatype DecayResult = Plain(decay: seq<Cell>) | Recorded(average: seq<Cell>, number: seq<int>)

  /** `mat.diagonal(k)` for `k >= 0`: the cells `mat[i][i + k]`. */
  function Diagonal(mat: seq<seq<Cell>>, cols: nat, k: nat): (r: seq<Cell>)
    requires IsMatrix(mat, cols)
    ensures |r| == (if k >= cols then 0 else if |mat| < cols - k then |mat| else cols - k)
    ensures forall i :: 0 <= i < |r| ==> r[i] == mat[i][i + k]
  {
    var len := if k >= cols then 0 else if |mat| < cols - k then |mat| else cols - k;
    seq(len, i requires 0 <= i < len => mat[i][i + k])
  }

  /** Whether the mask the code builds for the policy keeps a cell (`NaN != 0` holds). */
  predicate Keep(c: Cell, p: Policy): (r: bool)
    ensures r <==> (!p.ignoreNan || !c.NaN?) && (!p.ignoreZero || c != Num(0.0))
  {
    if p.ignoreNan && p.ignoreZero then c != Num(0.0) && !c.NaN?
    else if p.ignoreNan then !c.NaN?
    else if p.ignoreZero then c != Num(0.0)
    else true
  }

  /** `sub_data`: the kept cells of a diagonal, in order. */
  function Filter(diag: seq<Cell>, p: Policy): (r: seq<Cell>)
    ensures |r| <= |diag|
    ensures forall i :: 0 <= i < |r| ==> Keep(r[i], p)
  {
    if |diag| == 0 then []
    else if Keep(diag[0], p) then [diag[0]] + Filter(diag[1..], p)
    else Filter(diag[1..], p)
  }

  /** A cell is in the filtered diagonal exactly when it is on the diagonal and kept. */
  lemma {:induction false} FilterMembers(diag: seq<Cell>, p: Policy, c: Cell)
    ensures c in Filter(diag, p) <==> c in diag && Keep(c, p)
  {
    if |diag| > 0 {
      FilterMembers(diag[1..], p, c);
      assert diag == [diag[0]] + diag[1..];
    }
  }

  /** Addition of cells; NaN absorbs everything. */
  function Plus(a: Cell, b: Cell): Cell {
    if a.NaN? || b.NaN? then NaN else Num(a.val + b.val)
  }

  /** `np.sum`. */
  function Sum(s: seq<Cell>): Cell {
    if |s| == 0 then Num(0.0) else Plus(s[0], Sum(s[1..]))
  }

  /** `np.nansum`: NaN entries count as 0. */
  function NanSum(s: seq<Cell>): (r: Cell)
    ensures r.Num?
  {
    if |s| == 0 then Num(0.0)
    else Plus(if s[0].NaN? then Num(0.0) else s[0], NanSum(s[1..]))
  }

  /** What one diagonal adds to `sum_counts`: nansum only in the ignore_zero-only branch. */
  function SubSum(sub: seq<Cell>, p: Policy): Cell {
    if !p.ignoreNan && p.ignoreZero then NanSum(sub) else Sum(sub)
  }

  /** `sum_counts` after the offsets `lo .. hi - 1` of a group. */
  function GroupSum(mat: seq<seq<Cell>>, cols: nat, p: Policy, lo: nat, hi: int): Cell
    requires IsMatrix(mat, cols)
    decreases hi - lo
  {
    if hi <= lo then Num(0.0)
    else Plus(GroupSum(mat, cols, p, lo, hi - 1), SubSum(Filter(Diagonal(mat, cols, hi - 1), p), p))
  }

  /** `num_pixels` after the offsets `lo .. hi - 1` of a group. */
  function GroupCount(mat: seq<seq<Cell>>, cols: nat, p: Policy, lo: nat, hi: int): nat
    requires IsMatrix(mat, cols)
    decreases hi - lo
  {
    if hi <= lo then 0
    else GroupCount(mat, cols, p, lo, hi - 1) + |Filter(Diagonal(mat, cols, hi - 1), p)|
  }

  /** `(sum_counts / num_pixels) if num_pixels else 0`. */
  function Mean(sum: Cell, count: nat): (r: Cell)
    ensures count == 0 ==> r == Num(0.0)
    ensures count > 0 ==> (r.NaN? <==> sum.NaN?)
    ensures count > 0 && sum.Num? ==> r.val * count as real == sum.val
  {
    if count == 0 then Num(0.0)
    else match sum
      case NaN => NaN
      case Num(x) => Num(x / count as real)
  }

  /** The slice assignment `d[a:b] = v` for bounds inside `d`. */
  function Fill<T>(d: seq<T>, a: int, b: int, v: T): (r: seq<T>)
    ensures |r| == |d|
    ensures forall t :: 0 <= t < |d| ==> r[t] == if a <= t < b then v else d[t]
  {
    seq(|d|, t requires 0 <= t < |d| => if a <= t < b then v else d[t])
  }

  /** Boundaries lie inside `[0, n]`: the offsets and slots they name exist. */
  ghost predicate InRange(bins: seq<int>, n: nat) {
    forall m :: 0 <= m < |bins| ==> 0 <= bins[m] <= n
  }

  /** `decay` after the first `m` boundary pairs have been processed. */
  function DecayUpTo(mat: seq<seq<Cell>>, cols: nat, bins: seq<int>, nd: int, p: Policy, m: nat): (r: seq<Cell>)
    requires IsMatrix(mat, cols) && InRange(bins, |mat|)
    requires m == 0 || m < |bins|
    ensures |r| == |mat|
  {
    if m == 0 then seq(|mat|, _ => Num(0.0))
    else
      var prev := DecayUpTo(mat, cols, bins, nd, p, m - 1);
      var start, end := bins[m - 1], bins[m];
      if start >= nd then prev
      else Fill(prev, start, end, Mean(GroupSum(mat, cols, p, start, end), GroupCount(mat, cols, p, start, end)))
  }

  /** `nums_array` after the first `m` boundary pairs have been processed. */
  function NumberUpTo(mat: seq<seq<Cell>>, cols: nat, bins: seq<int>, nd: int, p: Policy, m: nat): (r: seq<int>)
    requires IsMatrix(mat, cols) && InRange(bins, |mat|)
    requires m == 0 || m < |bins|
    ensures |r| == |mat|
  {
    if m == 0 then seq(|mat|, _ => 0)
    else
      var prev := NumberUpTo(mat, cols, bins, nd, p, m - 1);
      var start, end := bins[m - 1], bins[m];
      if start >= nd then prev
      else Fill(prev, start, end, GroupCount(mat, cols, p, start, end))
  }

  /** The number of consecutive boundary pairs. */
  function Pairs(bins: seq<int>): nat {
    if |bins| == 0 then 0 else |bins| - 1
  }

  /**
    get_decay. `bins` is what `span_fn(0, n)` returned, for `n` the number
    of rows; `ndiags` defaults to `n`.
   */
  method GetDecay(mat: seq<seq<Cell>>, cols: nat, bins: seq<int>, ndiags: Option<int>, p: Policy, record: bool)
    returns (res: DecayResult)
    requires IsMatrix(mat, cols) && InRange(bins, |mat|)
    ensures var nd := ndiags.GetOr(|mat|);
      res == if record then Recorded(DecayUpTo(mat, cols, bins, nd, p, Pairs(bins)), NumberUpTo(mat, cols, bins, nd, p, Pairs(bins)))
             else Plain(DecayUpTo(mat, cols, bins, nd, p, Pairs(bins)))
  {
    var length := |mat|;
    var nd := ndiags.GetOr(length);
    var decay := new Cell[length](_ => Num(0.0));
    var nums := new int[length](_ => 0);
    var m := 0;
    while m + 1 < |bins|
      invariant m == 0 || m < |bins|
      invariant decay[..] == DecayUpTo(mat, cols, bins, nd, p, m)
      invariant record ==> nums[..] == NumberUpTo(mat, cols, bins, nd, p, m)
    {
      m := ProcessPair(mat, cols, bins, nd, p, record, m, decay, nums);
    }
    if record {
      res := Recorded(decay[..], nums[..]);
    } else {
      res := Plain(decay[..]);
    }
  }

  /**
    One pass of get_decay's loop over boundary pairs: the group
    `[bins[m], bins[m + 1])` is summed and its slots filled, unless it
    starts at or past `nd`. Returns the index of the next pair.
   */
  method ProcessPair(mat: seq<seq<Cell>>, cols: nat, bins: seq<int>, nd: int, p: Policy, record: bool,
                     m: nat, decay: array<Cell>, nums: array<int>) returns (next: nat)
    requires IsMatrix(mat, cols) && InRange(bins, |mat|) && m + 1 < |bins|
    requires decay[..] == DecayUpTo(mat, cols, bins, nd, p, m)
    requires record ==> nums[..] == NumberUpTo(mat, cols, bins, nd, p, m)
    modifies decay, nums
    ensures next == m + 1
    ensures decay[..] == DecayUpTo(mat, cols, bins, nd, p, next)
    ensures record ==> nums[..] == NumberUpTo(mat, cols, bins, nd, p, next)
  {
    next := m + 1;
    var start, end := bins[m], bins[m + 1];
    Step(mat, cols, bins, nd, p, m);
    if start >= nd {
      return;
    }
    var sumCounts, numPixels := GroupTotals(mat, cols, p, start, end);
    var average := Mean(sumCounts, numPixels);
    FillRange(decay, start, end, average);
    if record {
      FillRange(nums, start, end, numPixels);
    }
  }

  /** One boundary pair more: the group `[bins[m], bins[m + 1])` is filled in unless it starts at or past `nd`. */
  lemma Step(mat: seq<seq<Cell>>, cols: nat, bins: seq<int>, nd: int, p: Policy, m: nat)
    requires IsMatrix(mat, cols) && InRange(bins, |mat|) && m + 1 < |bins|
    ensures var start, end := bins[m], bins[m + 1];
      DecayUpTo(mat, cols, bins, nd, p, m + 1) ==
        if start >= nd then DecayUpTo(mat, cols, bins, nd, p, m)
        else Fill(DecayUpTo(mat, cols, bins, nd, p, m), start, end,
                  Mean(GroupSum(mat, cols, p, start, end), GroupCount(mat, cols, p, start, end)))
    ensures var start, end := bins[m], bins[m + 1];
      NumberUpTo(mat, cols, bins, nd, p, m + 1) ==
        if start >= nd then NumberUpTo(mat, cols, bins, nd, p, m)
        else Fill(NumberUpTo(mat, cols, bins, nd, p, m), start, end, GroupCount(mat, cols, p, start, end))
  {
  }

  /** The inner loop of get_decay: `sum_counts` and `num_pixels` over the offsets `start .. end - 1`. */
  method GroupTotals(mat: seq<seq<Cell>>, cols: nat, p: Policy, start: nat, end: int)
    returns (sumCounts: Cell, numPixels: nat)
    requires IsMatrix(mat, cols)
    ensures sumCounts == GroupSum(mat, cols, p, start, end)
    ensures numPixels == GroupCount(mat, cols, p, start, end)
  {
    sumCounts, numPixels := Num(0.0), 0;
    var offset := start;
    while offset < end
      invariant start <= offset && (offset <= end || offset == start)
      invariant sumCounts == GroupSum(mat, cols, p, start, offset)
      invariant numPixels == GroupCount(mat, cols, p, start, offset)
    {
      var diag := Diagonal(mat, cols, offset);
      var sub := Filter(diag, p);
      sumCounts := Plus(sumCounts, SubSum(sub, p));
      numPixels := numPixels + |sub|;
      offset := offset + 1;
    }
  }

  /** The slice assignment `a[start:end] = v`. */
  method FillRange<T>(a: array<T>, start: int, end: int, v: T)
    modifies a
    ensures a[..] == Fill(old(a[..]), start, end, v)
  {
    forall t | 0 <= t < a.Length && start <= t < end {
      a[t] := v;
    }
  }

  // ---------------------------------------------------------------------
  // What the profile means

  /** Boundaries that never decrease. */
  ghost predicate Sorted(bins: seq<int>) {
    forall a, b :: 0 <= a < b < |bins| ==> bins[a] <= bins[b]
  }

  /** Slot `t` after pair `k - 1`: the group's mean if the pair covers `t` and starts before `nd`, else unchanged. */
  lemma StepAt(mat: seq<seq<Cell>>, cols: nat, bins: seq<int>, nd: int, p: Policy, k: nat, t: nat)
    requires IsMatrix(mat, cols) && InRange(bins, |mat|)
    requires 0 < k < |bins| && t < |mat|
    ensures var start, end := bins[k - 1], bins[k];
      DecayUpTo(mat, cols, bins, nd, p, k)[t] ==
        if start < nd && start <= t < end
        then Mean(GroupSum(mat, cols, p, start, end), GroupCount(mat, cols, p, start, end))
        else DecayUpTo(mat, cols, bins, nd, p, k - 1)[t]
    ensures var start, end := bins[k - 1], bins[k];
      NumberUpTo(mat, cols, bins, nd, p, k)[t] ==
        if start < nd && start <= t < end then GroupCount(mat, cols, p, start, end)
        else NumberUpTo(mat, cols, bins, nd, p, k - 1)[t]
  {
  }

  /** A slot that no processed group with `start < nd` covers is still 0. */
  lemma {:induction false} Uncovered(mat: seq<seq<Cell>>, cols: nat, bins: seq<int>, nd: int, p: Policy, k: nat, t: nat)
    requires IsMatrix(mat, cols) && InRange(bins, |mat|)
    requires (k == 0 || k < |bins|) && t < |mat|
    requires forall q :: 0 <= q < k ==> bins[q] >= nd || !(bins[q] <= t < bins[q + 1])
    ensures DecayUpTo(mat, cols, bins, nd, p, k)[t] == Num(0.0)
    ensures NumberUpTo(mat, cols, bins, nd, p, k)[t] == 0
  {
    if k > 0 {
      StepAt(mat, cols, bins, nd, p, k, t);
      Uncovered(mat, cols, bins, nd, p, k - 1, t);
    }
  }

  /**
    For sorted boundaries, every slot of the group `[bins[q], bins[q + 1])`
    holds the group's mean and kept-cell count once that group has been
    processed, or stays 0 when `bins[q] >= nd`.
   */
  lemma {:induction false} InGroup(mat: seq<seq<Cell>>, cols: nat, bins: seq<int>, nd: int, p: Policy, k: nat, q: nat, t: nat)
    requires IsMatrix(mat, cols) && InRange(bins, |mat|) && Sorted(bins)
    requires q < k < |bins| && bins[q] <= t < bins[q + 1]
    ensures DecayUpTo(mat, cols, bins, nd, p, k)[t] ==
      if bins[q] < nd then Mean(GroupSum(mat, cols, p, bins[q], bins[q + 1]), GroupCount(mat, cols, p, bins[q], bins[q + 1]))
      else Num(0.0)
    ensures NumberUpTo(mat, cols, bins, nd, p, k)[t] ==
      if bins[q] < nd then GroupCount(mat, cols, p, bins[q], bins[q + 1]) else 0
  {
    assert t < |mat|;
    StepAt(mat, cols, bins, nd, p, k, t);
    if k == q + 1 {
      if bins[q] >= nd {
        forall q' | 0 <= q' < q ensures bins[q'] >= nd || !(bins[q'] <= t < bins[q' + 1]) {
          assert bins[q' + 1] <= bins[q];
        }
        Uncovered(mat, cols, bins, nd, p, q, t);
      }
    } else {
      assert bins[q + 1] <= bins[k - 1];
      InGroup(mat, cols, bins, nd, p, k - 1, q, t);
    }
  }

  /** `linear_bins(0, n)` is sorted and inside `[0, n]`. */
  lemma LinearBinsShape(n: nat)
    ensures Sorted(LinearBins(0, n)) && InRange(LinearBins(0, n), n)
    ensures Pairs(LinearBins(0, n)) == n
  {
  }

  /** With the default boundaries the last offset, `n - 1`, belongs to no group and stays 0. */
  lemma LastOffsetUnwritten(mat: seq<seq<Cell>>, cols: nat, nd: int, p: Policy)
    requires IsMatrix(mat, cols) && 1 <= |mat|
    ensures InRange(LinearBins(0, |mat|), |mat|)
    ensures DecayUpTo(mat, cols, LinearBins(0, |mat|), nd, p, |mat|)[|mat| - 1] == Num(0.0)
    ensures NumberUpTo(mat, cols, LinearBins(0, |mat|), nd, p, |mat|)[|mat| - 1] == 0
  {
    var n := |mat|;
    var bins := LinearBins(0, n);
    forall q | 0 <= q < n ensures bins[q] >= nd || !(bins[q] <= n - 1 < bins[q + 1]) {
      assert bins[q + 1] == q;
    }
    Uncovered(mat, cols, bins, nd, p, n, n - 1);
  }

  /** Every cell is kept by every policy. */
  lemma FilterKeepsAll(s: seq<Cell>, p: Policy)
    requires forall i :: 0 <= i < |s| ==> Keep(s[i], p)
    ensures Filter(s, p) == s
  {
    if |s| > 0 {
      FilterKeepsAll(s[1..], p);
    }
  }

  /** `n` ones add up to `n`, with or without NaN skipping. */
  lemma {:induction false} SumOfOnes(s: seq<Cell>)
    requires forall i :: 0 <= i < |s| ==> s[i] == Num(1.0)
    ensures Sum(s) == Num(|s| as real) && NanSum(s) == Num(|s| as real)
  {
    if |s| > 0 {
      SumOfOnes(s[1..]);
    }
  }

  lemma DivSelf(c: real)
    requires c > 0.0
    ensures c / c == 1.0
  {
  }

  /** An `n` by `n` matrix of ones. */
  ghost predicate AllOnes(mat: seq<seq<Cell>>, n: nat) {
    |mat| == n && IsMatrix(mat, n) && forall i, j :: 0 <= i < n && 0 <= j < n ==> mat[i][j] == Num(1.0)
  }

  /** The one-offset group `[k, k + 1)` of a matrix of ones has mean 1 over `n - k` cells. */
  lemma OnesGroup(mat: seq<seq<Cell>>, n: nat, p: Policy, k: nat)
    requires AllOnes(mat, n) && k < n
    ensures GroupCount(mat, n, p, k, k + 1) == n - k
    ensures Mean(GroupSum(mat, n, p, k, k + 1), GroupCount(mat, n, p, k, k + 1)) == Num(1.0)
  {
    var d := Diagonal(mat, n, k);
    assert |d| == n - k;
    forall i | 0 <= i < |d| ensures d[i] == Num(1.0) {
      assert d[i] == mat[i][i + k];
    }
    FilterKeepsAll(d, p);
    SumOfOnes(d);
    var c := (n - k) as real;
    assert SubSum(d, p) == Num(c);
    assert GroupSum(mat, n, p, k, k + 1) == Plus(Num(0.0), Num(c));
    DivSelf(c);
  }

  /**
    On an `n` by `n` matrix of ones with the default boundaries and
    `ndiags = n`: the mean is 1 and the count is `n - k` for every offset
    `k < n - 1`, and offset `n - 1` holds 0 for both.
   */
  lemma OnesProfile(mat: seq<seq<Cell>>, n: nat, p: Policy)
    requires AllOnes(mat, n) && 1 <= n
    ensures InRange(LinearBins(0, n), n)
    ensures forall k :: 0 <= k < n - 1 ==>
      DecayUpTo(mat, n, LinearBins(0, n), n, p, n)[k] == Num(1.0) &&
      NumberUpTo(mat, n, LinearBins(0, n), n, p, n)[k] == n - k
    ensures DecayUpTo(mat, n, LinearBins(0, n), n, p, n)[n - 1] == Num(0.0)
    ensures NumberUpTo(mat, n, LinearBins(0, n), n, p, n)[n - 1] == 0
  {
    var bins := LinearBins(0, n);
    LinearBinsShape(n);
    forall k | 0 <= k < n - 1
      ensures DecayUpTo(mat, n, bins, n, p, n)[k] == Num(1.0)
      ensures NumberUpTo(mat, n, bins, n, p, n)[k] == n - k
    {
      assert bins[k + 1] == k && bins[k + 2] == k + 1;
      InGroup(mat, n, bins, n, p, n, k + 1, k);
      OnesGroup(mat, n, p, k);
    }
    LastOffsetUnwritten(mat, n, n, p);
  }

  /** With boundaries `0, 1, ..., n` every offset of a matrix of ones gets mean 1 and count `n - k`. */
  lemma OnesProfileFixed(mat: seq<seq<Cell>>, n: nat, p: Policy)
    requires AllOnes(mat, n)
    ensures InRange(LinearBinsFixed(0, n), n) && Pairs(LinearBinsFixed(0, n)) == n
    ensures forall k :: 0 <= k < n ==>
      DecayUpTo(mat, n, LinearBinsFixed(0, n), n, p, n)[k] == Num(1.0) &&
      NumberUpTo(mat, n, LinearBinsFixed(0, n), n, p, n)[k] == n - k
  {
    var bins := LinearBinsFixed(0, n);
    forall k | 0 <= k < n
      ensures DecayUpTo(mat, n, bins, n, p, n)[k] == Num(1.0)
      ensures NumberUpTo(mat, n, bins, n, p, n)[k] == n - k
    {
      assert bins[k] == k && bins[k + 1] == k + 1;
      InGroup(mat, n, bins, n, p, n, k, k);
      OnesGroup(mat, n, p, k);
    }
  }

  // ---------------------------------------------------------------------
  // The masking policies

  /** A sum of cells none of which is NaN is a number. */
  lemma {:induction false} SumOfNumbers(s: seq<Cell>)
    requires forall i :: 0 <= i < |s| ==> s[i].Num?
    ensures Sum(s).Num?
  {
    if |s| > 0 {
      SumOfNumbers(s[1..]);
    }
  }

  /** A sum with a NaN term is NaN. */
  lemma {:induction false} SumWithNaN(s: seq<Cell>, i: nat)
    requires i < |s| && s[i].NaN?
    ensures Sum(s).NaN?
  {
    if i > 0 {
      SumWithNaN(s[1..], i - 1);
    }
  }

  /**
    Whenever NaN cells are dropped (ignore_nan) or summed as 0 (ignore_zero
    alone), a group's mean is a number.
   */
  lemma {:induction false} MeanIsNumber(mat: seq<seq<Cell>>, cols: nat, p: Policy, lo: nat, hi: int)
    requires IsMatrix(mat, cols) && (p.ignoreNan || p.ignoreZero)
    ensures GroupSum(mat, cols, p, lo, hi).Num?
    ensures Mean(GroupSum(mat, cols, p, lo, hi), GroupCount(mat, cols, p, lo, hi)).Num?
    decreases hi - lo
  {
    if hi > lo {
      MeanIsNumber(mat, cols, p, lo, hi - 1);
      var sub := Filter(Diagonal(mat, cols, hi - 1), p);
      if p.ignoreNan {
        SumOfNumbers(sub);
      }
    }
  }

  /** `NaN + x` and `x + NaN` are NaN. */
  lemma {:induction false} GroupSumKeepsNaN(mat: seq<seq<Cell>>, cols: nat, p: Policy, lo: nat, k: nat, hi: int)
    requires IsMatrix(mat, cols) && lo <= k < hi
    requires SubSum(Filter(Diagonal(mat, cols, k), p), p).NaN?
    ensures GroupSum(mat, cols, p, lo, hi).NaN?
    decreases hi - lo
  {
    if hi - 1 > k {
      GroupSumKeepsNaN(mat, cols, p, lo, k, hi - 1);
    }
  }

  /** With neither flag, one NaN cell on any diagonal of a group makes the group's mean NaN. */
  lemma NaNPoisonsGroup(mat: seq<seq<Cell>>, cols: nat, lo: nat, hi: int, k: nat, i: nat)
    requires IsMatrix(mat, cols) && lo <= k < hi
    requires i < |Diagonal(mat, cols, k)| && Diagonal(mat, cols, k)[i].NaN?
    ensures Mean(GroupSum(mat, cols, Policy(false, false), lo, hi), GroupCount(mat, cols, Policy(false, false), lo, hi)) == NaN
  {
    var p := Policy(false, false);
    var d := Diagonal(mat, cols, k);
    FilterKeepsAll(d, p);
    SumWithNaN(d, i);
    GroupSumKeepsNaN(mat, cols, p, lo, k, hi);
    CountAtLeast(mat, cols, p, lo, k, hi);
  }

  /** A group's count includes the kept cells of each of its diagonals. */
  lemma {:induction false} CountAtLeast(mat: seq<seq<Cell>>, cols: nat, p: Policy, lo: nat, k: nat, hi: int)
    requires IsMatrix(mat, cols) && lo <= k < hi
    ensures GroupCount(mat, cols, p, lo, hi) >= |Filter(Diagonal(mat, cols, k), p)|
    decreases hi - lo
  {
    if hi - 1 > k {
      CountAtLeast(mat, cols, p, lo, k, hi - 1);
    }
  }

  /**
    With ignore_zero alone, a NaN cell is kept: it adds one to the count
    and nothing to the sum.
   */
  lemma NaNCountedAsZero(s: seq<Cell>)
    ensures |Filter([NaN] + s, Policy(false, true))| == |Filter(s, Policy(false, true))| + 1
    ensures SubSum(Filter([NaN] + s, Policy(false, true)), Policy(false, true)) ==
            SubSum(Filter(s, Policy(false, true)), Policy(false, true))
  {
    var p := Policy(false, true);
    assert ([NaN] + s)[1..] == s;
    assert Filter([NaN] + s, p) == [NaN] + Filter(s, p);
    assert ([NaN] + Filter(s, p))[1..] == Filter(s, p);
  }
}
