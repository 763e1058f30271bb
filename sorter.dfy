/**
  Choosing the eigenvector that separates the A and B compartments
  (corr_sorter and plain_sorter in hictools/compartment.py). Every
  component is tested for plausibility, oriented so that its positive side
  correlates more strongly within itself, scored by how much stronger the
  within-side correlation is than the cross-side one, and the components
  are returned in a stable order: plausible first, then by falling score.
 */
module Sorter {
  import opened Base
  import opened Utils

  /** A component after scoring: the oriented vector, its separation score and plausibility. */
  datatype Scored = Scored(vector: seq<real>, score: real, possible: bool)

  function MinOf(v: seq<real>): (r: real)
    requires |v| > 0
    ensures r in v && forall i :: 0 <= i < |v| ==> r <= v[i]
  {
    if |v| == 1 then v[0]
    else var m := MinOf(v[1..]); if v[0] <= m then v[0] else m
  }

  function MaxOf(v: seq<real>): (r: real)
    requires |v| > 0
    ensures r in v && forall i :: 0 <= i < |v| ==> v[i] <= r
  {
    if |v| == 1 then v[0]
    else var m := MaxOf(v[1..]); if v[0] >= m then v[0] else m
  }

  /** `component > 0`. */
  function PosMask(v: seq<real>): (r: seq<bool>)
    ensures |r| == |v| && forall i :: 0 <= i < |v| ==> r[i] == (v[i] > 0.0)
  {
    seq(|v|, i requires 0 <= i < |v| => v[i] > 0.0)
  }

  /** `component < 0`. */
  function NegMask(v: seq<real>): (r: seq<bool>)
    ensures |r| == |v| && forall i :: 0 <= i < |v| ==> r[i] == (v[i] < 0.0)
  {
    seq(|v|, i requires 0 <= i < |v| => v[i] < 0.0)
  }

  /** `~(component > 0)`. */
  function NonPosMask(v: seq<real>): (r: seq<bool>)
    ensures |r| == |v| && forall i :: 0 <= i < |v| ==> r[i] == (v[i] <= 0.0)
  {
    seq(|v|, i requires 0 <= i < |v| => v[i] <= 0.0)
  }

  /** The code's inputs make sense only when a component has both signs. */
  ghost predicate HasBothSigns(v: seq<real>) {
    (exists i :: 0 <= i < |v| && v[i] > 0.0) && (exists i :: 0 <= i < |v| && v[i] < 0.0)
  }

  /** A component of `n` entries, each side nonempty. */
  ghost predicate Component(v: seq<real>) {
    |v| > 0 && HasBothSigns(v)
  }

  lemma SidesNonEmpty(v: seq<real>)
    requires Component(v)
    ensures MaxOf(v) > 0.0
    ensures |TrueIndices(PosMask(v))| > 0 && |TrueIndices(NonPosMask(v))| > 0
    ensures |TrueIndices(NegMask(v))| > 0
  {
    var i :| 0 <= i < |v| && v[i] > 0.0;
    var j :| 0 <= j < |v| && v[j] < 0.0;
    assert i in TrueIndices(PosMask(v));
    assert j in TrueIndices(NonPosMask(v));
    assert j in TrueIndices(NegMask(v));
  }

  /** `|min| / max`. */
  function Diverse(v: seq<real>): (r: real)
    requires Component(v)
    ensures r >= 0.0
  {
    SidesNonEmpty(v);
    NonNegativeQuotient(Abs(MinOf(v)), MaxOf(v));
    Abs(MinOf(v)) / MaxOf(v)
  }

  /** A quotient of positive reals is positive. */
  lemma Quotient(a: real, b: real)
    requires a > 0.0 && b > 0.0
    ensures a / b > 0.0
  {
  }

  lemma NonNegativeQuotient(a: real, b: real)
    requires a >= 0.0 && b > 0.0
    ensures a / b >= 0.0
  {
  }

  /** `#(> 0) / #(<= 0)`. */
  function Ratio(v: seq<real>): (r: real)
    requires Component(v)
    ensures r > 0.0
  {
    SidesNonEmpty(v);
    var above, rest := |TrueIndices(PosMask(v))| as real, |TrueIndices(NonPosMask(v))| as real;
    Quotient(above, rest);
    above / rest
  }

  /** The plausibility test: neither ratio may leave its band. */
  predicate Plausible(v: seq<real>)
    requires Component(v)
  {
    !(Diverse(v) > 10.0 || Diverse(v) < 0.1 || Ratio(v) > 15.0 || Ratio(v) < 1.0 / 15.0)
  }

  /** A component is plausible exactly when both ratios lie in their closed bands. */
  lemma PlausibleBand(v: seq<real>)
    requires Component(v)
    ensures Plausible(v) <==> (0.1 <= Diverse(v) <= 10.0 && 1.0 / 15.0 <= Ratio(v) <= 15.0)
  {
  }

  /** A square matrix of order `n`. */
  ghost predicate Square(m: seq<seq<real>>, n: nat) {
    |m| == n && forall i :: 0 <= i < n ==> |m[i]| == n
  }

  /** The sum of `corr[r][c]` for `c` in `cs`. */
  function RowSum(corr: seq<seq<real>>, r: nat, cs: seq<nat>): real
    requires Square(corr, |corr|) && r < |corr|
    requires forall b :: 0 <= b < |cs| ==> cs[b] < |corr|
  {
    if |cs| == 0 then 0.0 else corr[r][cs[0]] + RowSum(corr, r, cs[1..])
  }

  /** The sum over the block `corr[np.ix_(rs, cs)]`. */
  function BlockSum(corr: seq<seq<real>>, rs: seq<nat>, cs: seq<nat>): real
    requires Square(corr, |corr|)
    requires forall a :: 0 <= a < |rs| ==> rs[a] < |corr|
    requires forall b :: 0 <= b < |cs| ==> cs[b] < |corr|
  {
    if |rs| == 0 then 0.0 else RowSum(corr, rs[0], cs) + BlockSum(corr, rs[1..], cs)
  }

  /** `np.mean(corr[np.ix_(rs, cs)])` for a nonempty block. */
  function BlockMean(corr: seq<seq<real>>, rs: seq<nat>, cs: seq<nat>): real
    requires Square(corr, |corr|) && |rs| > 0 && |cs| > 0
    requires forall a :: 0 <= a < |rs| ==> rs[a] < |corr|
    requires forall b :: 0 <= b < |cs| ==> cs[b] < |corr|
  {
    MulPositive(|rs|, |cs|);
    BlockSum(corr, rs, cs) / (|rs| * |cs|) as real
  }

  lemma MulPositive(a: nat, b: nat)
    requires a > 0 && b > 0
    ensures a * b > 0
  {
  }

  /** The A and B sides of a component, as index lists. */
  function Pos(v: seq<real>): seq<nat> { TrueIndices(PosMask(v)) }
  function Neg(v: seq<real>): seq<nat> { TrueIndices(NegMask(v)) }

  /** `mean_corr`: within A, within B and across. */
  function MeanAA(corr: seq<seq<real>>, v: seq<real>): real
    requires Square(corr, |v|) && Component(v)
  {
    SidesNonEmpty(v);
    BlockMean(corr, Pos(v), Pos(v))
  }

  function MeanBB(corr: seq<seq<real>>, v: seq<real>): real
    requires Square(corr, |v|) && Component(v)
  {
    SidesNonEmpty(v);
    BlockMean(corr, Neg(v), Neg(v))
  }

  function MeanAB(corr: seq<seq<real>>, v: seq<real>): real
    requires Square(corr, |v|) && Component(v)
  {
    SidesNonEmpty(v);
    BlockMean(corr, Pos(v), Neg(v))
  }

  /** `component * c`. */
  function Scale(v: seq<real>, c: real): (r: seq<real>)
    ensures |r| == |v| && forall i :: 0 <= i < |v| ==> r[i] == v[i] * c
  {
    seq(|v|, i requires 0 <= i < |v| => v[i] * c)
  }

  /** The tuple the loop appends for one component. */
  function ScoreComponent(corr: seq<seq<real>>, v: seq<real>): Scored
    requires Square(corr, |v|) && Component(v)
  {
    Scored(Scale(v, Sign(MeanAA(corr, v) - MeanBB(corr, v))),
           MeanAA(corr, v) + MeanBB(corr, v) - 2.0 * MeanAB(corr, v),
           Plausible(v))
  }

  /** Every component fits `corr` and has both signs. */
  ghost predicate ValidInput(corr: seq<seq<real>>, eigvecs: seq<seq<real>>) {
    forall k :: 0 <= k < |eigvecs| ==> Square(corr, |eigvecs[k]|) && Component(eigvecs[k])
  }

  // ---------------------------------------------------------------------
  // sorted(coms, key=lambda x: (x[2], x[1]), reverse=True)

  /** `x` has the larger key `(possible, score)`. */
  predicate KeyAbove(x: Scored, y: Scored) {
    (x.possible && !y.possible) || (x.possible == y.possible && x.score > y.score)
  }

  predicate SameKey(x: Scored, y: Scored) {
    x.possible == y.possible && x.score == y.score
  }

  /** Index `a` comes before index `b` in the stable descending sort. */
  predicate Prec(coms: seq<Scored>, a: nat, b: nat)
    requires a < |coms| && b < |coms|
  {
    KeyAbove(coms[a], coms[b]) || (SameKey(coms[a], coms[b]) && a < b)
  }

  lemma PrecTransitive(coms: seq<Scored>, a: nat, b: nat, c: nat)
    requires a < |coms| && b < |coms| && c < |coms|
    requires Prec(coms, a, b) && Prec(coms, b, c)
    ensures Prec(coms, a, c)
  {
  }

  /** `Prec` is a strict total order on indices. */
  lemma PrecTotal(coms: seq<Scored>, a: nat, b: nat)
    requires a < |coms| && b < |coms| && a != b
    ensures Prec(coms, a, b) != Prec(coms, b, a)
  {
  }

  ghost predicate SortedBy(coms: seq<Scored>, s: seq<nat>)
    requires forall k :: 0 <= k < |s| ==> s[k] < |coms|
  {
    forall k, l :: 0 <= k < l < |s| ==> Prec(coms, s[k], s[l])
  }

  /** Inserts index `x` in front of the first entry it precedes. */
  function Insert(coms: seq<Scored>, x: nat, s: seq<nat>): (r: seq<nat>)
    requires x < |coms| && forall k :: 0 <= k < |s| ==> s[k] < |coms|
    ensures multiset(r) == multiset(s) + multiset{x}
    ensures forall k :: 0 <= k < |r| ==> r[k] < |coms|
  {
    if |s| == 0 then [x]
    else if Prec(coms, x, s[0]) then [x] + s
    else
      var t := Insert(coms, x, s[1..]);
      assert s == [s[0]] + s[1..];
      assert forall k :: 0 <= k < |t| ==> t[k] in multiset(t);
      [s[0]] + t
  }

  /** Insertion keeps a `Prec`-sorted index list sorted. */
  lemma {:induction false} InsertSorted(coms: seq<Scored>, x: nat, s: seq<nat>)
    requires x < |coms| && forall k :: 0 <= k < |s| ==> s[k] < |coms|
    requires x !in s && SortedBy(coms, s)
    ensures SortedBy(coms, Insert(coms, x, s))
  {
    if |s| == 0 {
    } else if Prec(coms, x, s[0]) {
      forall l | 0 <= l < |s| ensures Prec(coms, x, s[l]) {
        if l > 0 { PrecTransitive(coms, x, s[0], s[l]); }
      }
      assert SortedBy(coms, [x] + s);
    } else {
      PrecTotal(coms, x, s[0]);
      assert SortedBy(coms, s[1..]);
      InsertSorted(coms, x, s[1..]);
      var t := Insert(coms, x, s[1..]);
      assert s == [s[0]] + s[1..];
      forall l | 0 <= l < |t| ensures Prec(coms, s[0], t[l]) {
        assert t[l] in multiset(t);
        if t[l] != x {
          assert t[l] in multiset(s[1..]);
          var m :| 0 <= m < |s[1..]| && s[1..][m] == t[l];
          assert s[m + 1] == t[l];
        }
      }
      assert Insert(coms, x, s) == [s[0]] + t;
    }
  }

  /** Inserting an index below `b` into a list of indices below `b` keeps them below `b`. */
  lemma {:induction false} InsertBounded(coms: seq<Scored>, x: nat, s: seq<nat>, b: nat)
    requires x < |coms| && forall k :: 0 <= k < |s| ==> s[k] < |coms|
    requires x < b && forall k :: 0 <= k < |s| ==> s[k] < b
    ensures forall k :: 0 <= k < |Insert(coms, x, s)| ==> Insert(coms, x, s)[k] < b
  {
    if |s| > 0 && !Prec(coms, x, s[0]) {
      InsertBounded(coms, x, s[1..], b);
    }
  }

  /** The indices `0 .. k - 1` in sorted order. */
  function SortFrom(coms: seq<Scored>, k: nat): (r: seq<nat>)
    requires k <= |coms|
    decreases k, 1
    ensures multiset(r) == multiset(Range(k))
    ensures forall j :: 0 <= j < |r| ==> r[j] < k
    ensures SortedBy(coms, r)
  {
    if k == 0 then []
    else
      SortStep(coms, k);
      Insert(coms, k - 1, SortFrom(coms, k - 1))
  }

  /** Inserting `k - 1` into the sorted `0 .. k - 2` sorts `0 .. k - 1`. */
  lemma SortStep(coms: seq<Scored>, k: nat)
    requires 0 < k <= |coms|
    decreases k, 0
    ensures var r := Insert(coms, k - 1, SortFrom(coms, k - 1));
      multiset(r) == multiset(Range(k)) && (forall j :: 0 <= j < |r| ==> r[j] < k) && SortedBy(coms, r)
  {
    var s := SortFrom(coms, k - 1);
    var x: nat := k - 1;
    assert x !in s;
    InsertSorted(coms, x, s);
    InsertBounded(coms, x, s, k);
    assert Range(k) == Range(x) + [x];
    calc {
      multiset(Insert(coms, x, s));
      multiset(s) + multiset{x};
      multiset(Range(x)) + multiset{x};
      multiset(Range(x) + [x]);
    }
  }

  /** `range(k)` as a sequence. */
  function Range(k: nat): (r: seq<nat>)
    ensures |r| == k && forall j :: 0 <= j < k ==> r[j] == j
  {
    if k == 0 then [] else Range(k - 1) + [k - 1]
  }

  /** The order in which `sorted` places the scored components. */
  function SortOrder(coms: seq<Scored>): (r: seq<nat>)
    ensures multiset(r) == multiset(Range(|coms|)) && |r| == |coms|
    ensures forall j :: 0 <= j < |r| ==> r[j] < |coms|
    ensures SortedBy(coms, r)
  {
    var r := SortFrom(coms, |coms|);
    assert |r| == |multiset(r)| == |multiset(Range(|coms|))| == |coms|;
    r
  }

  /**
    The sort puts plausible components first, orders each plausibility
    class by non-increasing score, and keeps equal keys in input order.
   */
  lemma SortOrderMeaning(coms: seq<Scored>, k: nat, l: nat)
    requires k < l < |coms|
    ensures coms[SortOrder(coms)[k]].possible || !coms[SortOrder(coms)[l]].possible
    ensures coms[SortOrder(coms)[k]].possible == coms[SortOrder(coms)[l]].possible ==>
              coms[SortOrder(coms)[k]].score >= coms[SortOrder(coms)[l]].score
    ensures SameKey(coms[SortOrder(coms)[k]], coms[SortOrder(coms)[l]]) ==> SortOrder(coms)[k] < SortOrder(coms)[l]
  {
    var r := SortOrder(coms);
    assert Prec(coms, r[k], r[l]);
  }

  /** Every index appears in the sort order exactly once. */
  lemma SortOrderIsPermutation(coms: seq<Scored>, j: nat)
    requires j < |coms|
    ensures multiset(SortOrder(coms))[j] == 1
  {
    var rg := Range(|coms|);
    assert rg == rg[..j] + [j] + rg[j + 1..];
    assert multiset(rg) == multiset(rg[..j]) + multiset{j} + multiset(rg[j + 1..]);
    assert j !in multiset(rg[..j]);
    assert j !in multiset(rg[j + 1..]);
  }

  /** `[f(s[0]), ..., f(s[i - 1])]`, built by appending, as the loop builds it. */
  function MapPrefix<A, B>(f: A --> B, s: seq<A>, i: nat): (r: seq<B>)
    requires i <= |s| && forall k :: 0 <= k < i ==> f.requires(s[k])
    ensures |r| == i
  {
    if i == 0 then [] else MapPrefix(f, s, i - 1) + [f(s[i - 1])]
  }

  lemma {:induction false} MapPrefixAt<A, B>(f: A --> B, s: seq<A>, i: nat, k: nat)
    requires i <= |s| && forall k :: 0 <= k < i ==> f.requires(s[k])
    requires k < i
    ensures MapPrefix(f, s, i)[k] == f(s[k])
  {
    if k < i - 1 {
      MapPrefixAt(f, s, i - 1, k);
    }
  }

  /** The list `coms` after the loop has scored the first `i` components. */
  function ScoreAll(corr: seq<seq<real>>, eigvecs: seq<seq<real>>, i: nat): (r: seq<Scored>)
    requires ValidInput(corr, eigvecs) && i <= |eigvecs|
    ensures |r| == i
  {
    MapPrefix(Scorer(corr), eigvecs, i)
  }

  /** `ScoreComponent` against a fixed `corr`, as a function value. */
  function Scorer(corr: seq<seq<real>>): seq<real> --> Scored {
    v requires Square(corr, |v|) && Component(v) => ScoreComponent(corr, v)
  }

  /** Entry `k` of the list is component `k`, scored. */
  lemma ScoreAllAt(corr: seq<seq<real>>, eigvecs: seq<seq<real>>, i: nat, k: nat)
    requires ValidInput(corr, eigvecs) && k < i <= |eigvecs|
    ensures ScoreAll(corr, eigvecs, i)[k] == ScoreComponent(corr, eigvecs[k])
  {
    MapPrefixAt(Scorer(corr), eigvecs, i, k);
  }

  /** One more turn of the loop appends the next component, scored. */
  lemma ScoreAllStep(corr: seq<seq<real>>, eigvecs: seq<seq<real>>, i: nat)
    requires ValidInput(corr, eigvecs) && i < |eigvecs|
    ensures ScoreAll(corr, eigvecs, i + 1) == ScoreAll(corr, eigvecs, i) + [ScoreComponent(corr, eigvecs[i])]
  {
    assert Scorer(corr)(eigvecs[i]) == ScoreComponent(corr, eigvecs[i]);
  }

  /** The body of the loop: one component's tuple. */
  method ScoreOne(corr: seq<seq<real>>, component: seq<real>) returns (scored: Scored)
    requires Square(corr, |component|) && Component(component)
    ensures scored == ScoreComponent(corr, component)
  {
    var possible := Plausible(component);
    var meanAA, meanBB, meanAB := MeanAA(corr, component), MeanBB(corr, component), MeanAB(corr, component);
    scored := Scored(Scale(component, Sign(meanAA - meanBB)), meanAA + meanBB - 2.0 * meanAB, possible);
  }

  /** corr_sorter, with the correlation matrix given. */
  method CorrSorter(corr: seq<seq<real>>, eigvecs: seq<seq<real>>) returns (r: seq<seq<real>>)
    requires ValidInput(corr, eigvecs)
    ensures var coms := ScoreAll(corr, eigvecs, |eigvecs|);
      |r| == |eigvecs| && forall k :: 0 <= k < |r| ==> r[k] == coms[SortOrder(coms)[k]].vector
  {
    var coms: seq<Scored> := [];
    var i := 0;
    while i < |eigvecs|
      invariant 0 <= i <= |eigvecs|
      invariant coms == ScoreAll(corr, eigvecs, i)
    {
      var scored := ScoreOne(corr, eigvecs[i]);
      ScoreAllStep(corr, eigvecs, i);
      coms := coms + [scored];
      i := i + 1;
    }
    var order := SortOrder(coms);
    r := seq(|order|, k requires 0 <= k < |order| => coms[order[k]].vector);
  }

  /** plain_sorter: the eigenvectors as given. */
  function PlainSorter(eigvecs: seq<seq<real>>): (r: seq<seq<real>>)
    ensures r == eigvecs
  {
    eigvecs
  }

  // ---------------------------------------------------------------------
  // Orientation and plausibility

  /** Multiplying by a sign either keeps a component or swaps its two sides. */
  lemma FlipSwapsSides(v: seq<real>)
    ensures PosMask(Scale(v, -1.0)) == NegMask(v) && NegMask(Scale(v, -1.0)) == PosMask(v)
    ensures Scale(v, 1.0) == v
  {
  }

  /**
    After orientation the positive side is the one with the stronger
    within-side correlation: unless the two within-side means are equal,
    the oriented vector still has both signs and its A mean exceeds its B mean.
   */
  lemma OrientedSideIsStronger(corr: seq<seq<real>>, v: seq<real>)
    requires Square(corr, |v|) && Component(v)
    requires MeanAA(corr, v) != MeanBB(corr, v)
    ensures Component(ScoreComponent(corr, v).vector)
    ensures MeanAA(corr, ScoreComponent(corr, v).vector) > MeanBB(corr, ScoreComponent(corr, v).vector)
  {
    var w := ScoreComponent(corr, v).vector;
    FlipSwapsSides(v);
    if MeanAA(corr, v) < MeanBB(corr, v) {
      assert w == Scale(v, -1.0);
      var i :| 0 <= i < |v| && v[i] > 0.0;
      var j :| 0 <= j < |v| && v[j] < 0.0;
      assert w[j] > 0.0 && w[i] < 0.0;
      assert Pos(w) == Neg(v) && Neg(w) == Pos(v);
    }
  }

  /** When the two within-side means tie, `np.sign` is 0 and the vector is zeroed. */
  lemma TieZeroesVector(corr: seq<seq<real>>, v: seq<real>)
    requires Square(corr, |v|) && Component(v)
    requires MeanAA(corr, v) == MeanBB(corr, v)
    ensures forall i :: 0 <= i < |v| ==> ScoreComponent(corr, v).vector[i] == 0.0
  {
  }

  /** Negating a component swaps its sides and its two within-side means. */
  lemma FlipMeans(corr: seq<seq<real>>, v: seq<real>)
    requires Square(corr, |v|) && Component(v)
    ensures Component(Scale(v, -1.0))
    ensures Pos(Scale(v, -1.0)) == Neg(v) && Neg(Scale(v, -1.0)) == Pos(v)
    ensures MeanAA(corr, Scale(v, -1.0)) == MeanBB(corr, v) && MeanBB(corr, Scale(v, -1.0)) == MeanAA(corr, v)
  {
    var w := Scale(v, -1.0);
    FlipSwapsSides(v);
    var i :| 0 <= i < |v| && v[i] > 0.0;
    var j :| 0 <= j < |v| && v[j] < 0.0;
    assert w[j] > 0.0 && w[i] < 0.0;
  }

  /** Negating and then multiplying by `-s` is multiplying by `s`, for a sign `s`. */
  lemma NegateTwice(v: seq<real>, s: real)
    requires s == 1.0 || s == 0.0 || s == -1.0
    ensures Scale(Scale(v, -1.0), -s) == Scale(v, s)
  {
    var w := Scale(v, -1.0);
    forall k | 0 <= k < |v| ensures Scale(w, -s)[k] == Scale(v, s)[k] {
      assert w[k] == -v[k];
      if s == 1.0 {
        assert Scale(w, -s)[k] == -v[k] * -1.0;
      } else if s == -1.0 {
        assert Scale(w, -s)[k] == -v[k];
      }
    }
  }

  /**
    The orientation is canonical: whichever sign the eigen-solver gave a
    component, corr_sorter outputs the same vector.
   */
  lemma OrientationCanonical(corr: seq<seq<real>>, v: seq<real>)
    requires Square(corr, |v|) && Component(v)
    ensures Component(Scale(v, -1.0))
    ensures ScoreComponent(corr, Scale(v, -1.0)).vector == ScoreComponent(corr, v).vector
  {
    FlipMeans(corr, v);
    var d := MeanAA(corr, v) - MeanBB(corr, v);
    assert Sign(MeanAA(corr, Scale(v, -1.0)) - MeanBB(corr, Scale(v, -1.0))) == Sign(-d) == -Sign(d);
    NegateTwice(v, Sign(d));
  }

  /** `corr` equals its transpose. */
  ghost predicate Symmetric(corr: seq<seq<real>>) {
    Square(corr, |corr|) && forall i, j :: 0 <= i < |corr| && 0 <= j < |corr| ==> corr[i][j] == corr[j][i]
  }

  /** Splitting off the first column of a block. */
  lemma {:induction false} BlockSumFirstColumn(corr: seq<seq<real>>, rs: seq<nat>, cs: seq<nat>)
    requires Square(corr, |corr|) && |cs| > 0
    requires forall a :: 0 <= a < |rs| ==> rs[a] < |corr|
    requires forall b :: 0 <= b < |cs| ==> cs[b] < |corr|
    ensures BlockSum(corr, rs, cs) == BlockSum(corr, rs, cs[..1]) + BlockSum(corr, rs, cs[1..])
  {
    if |rs| > 0 {
      BlockSumFirstColumn(corr, rs[1..], cs);
      assert cs[..1][1..] == [];
      assert RowSum(corr, rs[0], cs) == corr[rs[0]][cs[0]] + RowSum(corr, rs[0], cs[1..]);
      assert RowSum(corr, rs[0], cs[..1]) == corr[rs[0]][cs[0]] + RowSum(corr, rs[0], []);
    }
  }

  /** A one-column block of a symmetric matrix is a row sum. */
  lemma {:induction false} ColumnIsRow(corr: seq<seq<real>>, rs: seq<nat>, c: nat)
    requires Symmetric(corr) && c < |corr|
    requires forall a :: 0 <= a < |rs| ==> rs[a] < |corr|
    ensures BlockSum(corr, rs, [c]) == RowSum(corr, c, rs)
  {
    if |rs| > 0 {
      ColumnIsRow(corr, rs[1..], c);
      assert [c][1..] == [];
      assert RowSum(corr, rs[0], [c]) == corr[rs[0]][c] + RowSum(corr, rs[0], []);
      assert corr[rs[0]][c] == corr[c][rs[0]];
    }
  }

  /** The block sum of a symmetric matrix is unchanged by transposing the block. */
  lemma {:induction false} BlockSumTranspose(corr: seq<seq<real>>, rs: seq<nat>, cs: seq<nat>)
    requires Symmetric(corr)
    requires forall a :: 0 <= a < |rs| ==> rs[a] < |corr|
    requires forall b :: 0 <= b < |cs| ==> cs[b] < |corr|
    ensures BlockSum(corr, rs, cs) == BlockSum(corr, cs, rs)
    decreases |cs|
  {
    if |cs| == 0 {
      EmptyColumns(corr, rs);
    } else {
      BlockSumFirstColumn(corr, rs, cs);
      assert cs[..1] == [cs[0]];
      ColumnIsRow(corr, rs, cs[0]);
      BlockSumTranspose(corr, rs, cs[1..]);
    }
  }

  lemma {:induction false} EmptyColumns(corr: seq<seq<real>>, rs: seq<nat>)
    requires Square(corr, |corr|)
    requires forall a :: 0 <= a < |rs| ==> rs[a] < |corr|
    ensures BlockSum(corr, rs, []) == 0.0
  {
    if |rs| > 0 {
      EmptyColumns(corr, rs[1..]);
    }
  }

  /** For a symmetric correlation matrix the separation score does not depend on the sign of a component. */
  lemma ScoreSignFree(corr: seq<seq<real>>, v: seq<real>)
    requires Symmetric(corr) && |corr| == |v| && Component(v)
    ensures Component(Scale(v, -1.0))
    ensures ScoreComponent(corr, Scale(v, -1.0)).score == ScoreComponent(corr, v).score
  {
    var w := Scale(v, -1.0);
    FlipMeans(corr, v);
    SidesNonEmpty(v);
    BlockSumTranspose(corr, Neg(v), Pos(v));
    assert |Neg(v)| * |Pos(v)| == |Pos(v)| * |Neg(v)|;
    assert MeanAB(corr, w) == MeanAB(corr, v);
  }
}
