/**
  Principal component analysis around a given singular value decomposition
  (the Pca class of hictools/compartment.py): column centring, the sign
  canonicalisation of the factors, the argument guards of the projection
  methods, and the variance of each component. The decomposition itself
  is an input: `U`, `S` and `Vh` are the factors of the centred matrix.
 */
module Decomposition {
  import opened Base

  /**
    An entry multiplied by a sign. The product is named so that the flip's
    loop invariants and lemmas speak of one term per cell, which keeps the
    solver's nonlinear arithmetic out of the frame reasoning.
   */
  function Times(x: real, s: real): real {
    x * s
  }

  function Min(a: int, b: int): int {
    if a < b then a else b
  }

  /** The contents of a 2-D array, row by row. */
  function Rows(a: array2<real>): (r: seq<seq<real>>)
    reads a
    ensures |r| == a.Length0 && IsMatrix(r, a.Length1)
    ensures forall i, j :: 0 <= i < a.Length0 && 0 <= j < a.Length1 ==> r[i][j] == a[i, j]
  {
    seq(a.Length0, i requires 0 <= i < a.Length0 reads a =>
      seq(a.Length1, j requires 0 <= j < a.Length1 reads a => a[i, j]))
  }

  function Column(m: seq<seq<real>>, cols: nat, j: nat): (r: seq<real>)
    requires IsMatrix(m, cols) && j < cols
    ensures |r| == |m| && forall i :: 0 <= i < |m| ==> r[i] == m[i][j]
  {
    seq(|m|, i requires 0 <= i < |m| => m[i][j])
  }

  /** The inner product, summed from the last term back. */
  function Dot(x: seq<real>, y: seq<real>): real
    requires |x| == |y|
  {
    if |x| == 0 then 0.0 else Dot(x[..|x| - 1], y[..|y| - 1]) + x[|x| - 1] * y[|y| - 1]
  }

  /** `Dot` of concatenations is the sum of the two parts. */
  lemma {:induction false} DotConcat(a: seq<real>, b: seq<real>, c: seq<real>, d: seq<real>)
    requires |a| == |c| && |b| == |d|
    ensures Dot(a + b, c + d) == Dot(a, c) + Dot(b, d)
  {
    if |b| > 0 {
      assert (a + b)[..|a + b| - 1] == a + b[..|b| - 1];
      assert (c + d)[..|c + d| - 1] == c + d[..|d| - 1];
      DotConcat(a, b[..|b| - 1], c, d[..|d| - 1]);
    } else {
      assert a + b == a && c + d == c;
    }
  }

  /** `X @ B.T`: entry `[i][c]` is the inner product of row `i` of `X` and row `c` of `B`. */
  function Project(X: seq<seq<real>>, cols: nat, B: seq<seq<real>>): (r: seq<seq<real>>)
    requires IsMatrix(X, cols) && IsMatrix(B, cols)
    ensures |r| == |X| && IsMatrix(r, |B|)
  {
    seq(|X|, i requires 0 <= i < |X| => seq(|B|, c requires 0 <= c < |B| => Dot(X[i], B[c])))
  }

  /** `A @ B` for an `|A|`-by-`inner` matrix `A` and an `inner`-by-`cols` matrix `B`. */
  function MatMul(A: seq<seq<real>>, inner: nat, B: seq<seq<real>>, cols: nat): (r: seq<seq<real>>)
    requires IsMatrix(A, inner) && |B| == inner && IsMatrix(B, cols)
    ensures |r| == |A| && IsMatrix(r, cols)
  {
    seq(|A|, i requires 0 <= i < |A| => seq(cols, k requires 0 <= k < cols => Dot(A[i], Column(B, cols, k))))
  }

  /** The first `n` columns of `m`, as rows: `m.T[:n, :]`. */
  function Columns(m: seq<seq<real>>, cols: nat, n: nat): (r: seq<seq<real>>)
    requires IsMatrix(m, cols) && n <= cols
    ensures |r| == n && IsMatrix(r, |m|)
  {
    seq(n, c requires 0 <= c < n => Column(m, cols, c))
  }

  // ---------------------------------------------------------------------
  // _flip_svd

  /** `np.argmax(np.abs(v))`: the first position of largest absolute value. */
  function ArgMaxAbs(v: seq<real>): (r: nat)
    requires |v| > 0
    ensures r < |v|
    ensures forall i :: 0 <= i < |v| ==> Abs(v[i]) <= Abs(v[r])
    ensures forall i :: 0 <= i < r ==> Abs(v[i]) < Abs(v[r])
  {
    if |v| == 1 then 0
    else
      var k := ArgMaxAbs(v[..|v| - 1]);
      if Abs(v[|v| - 1]) > Abs(v[k]) then |v| - 1 else k
  }

  /** The sign of the entry of largest absolute value in each column of `U`. */
  function SignsU(U: seq<seq<real>>, cols: nat): (r: seq<real>)
    requires IsMatrix(U, cols) && |U| > 0
    ensures |r| == cols
  {
    seq(cols, j requires 0 <= j < cols => Sign(U[ArgMaxAbs(Column(U, cols, j))][j]))
  }

  /** The sign of the entry of largest absolute value in each row of `Vh`. */
  function SignsVh(Vh: seq<seq<real>>, cols: nat): (r: seq<real>)
    requires IsMatrix(Vh, cols) && cols > 0
    ensures |r| == |Vh|
  {
    seq(|Vh|, i requires 0 <= i < |Vh| => Sign(Vh[i][ArgMaxAbs(Vh[i])]))
  }

  /** The signs `_flip_svd` multiplies by: taken from `U` or from `Vh`. */
  function Signs(U: seq<seq<real>>, ucols: nat, Vh: seq<seq<real>>, vcols: nat, uBased: bool): seq<real>
    requires IsMatrix(U, ucols) && IsMatrix(Vh, vcols)
    requires if uBased then |U| > 0 else vcols > 0
  {
    if uBased then SignsU(U, ucols) else SignsVh(Vh, vcols)
  }

  /** Column `j` of `U` multiplied by `signs[j]`, for every `j` that has a sign. */
  function FlippedU(U: seq<seq<real>>, cols: nat, signs: seq<real>): (r: seq<seq<real>>)
    requires IsMatrix(U, cols)
    ensures |r| == |U| && IsMatrix(r, cols)
    ensures forall i, j :: 0 <= i < |U| && 0 <= j < cols ==>
              r[i][j] == if j < |signs| then Times(U[i][j], signs[j]) else U[i][j]
  {
    seq(|U|, i requires 0 <= i < |U| =>
      seq(cols, j requires 0 <= j < cols => if j < |signs| then Times(U[i][j], signs[j]) else U[i][j]))
  }

  /** Row `i` of `Vh` multiplied by `signs[i]`, for every `i` that has a sign. */
  function FlippedVh(Vh: seq<seq<real>>, cols: nat, signs: seq<real>): (r: seq<seq<real>>)
    requires IsMatrix(Vh, cols)
    ensures |r| == |Vh| && IsMatrix(r, cols)
    ensures forall i, j :: 0 <= i < |Vh| && 0 <= j < cols ==>
              r[i][j] == if i < |signs| then Times(Vh[i][j], signs[i]) else Vh[i][j]
  {
    seq(|Vh|, i requires 0 <= i < |Vh| =>
      seq(cols, j requires 0 <= j < cols => if i < |signs| then Times(Vh[i][j], signs[i]) else Vh[i][j]))
  }

  /** Matrices with the same shape and entries are equal. */
  lemma MatrixEq(a: seq<seq<real>>, b: seq<seq<real>>, cols: nat)
    requires |a| == |b| && IsMatrix(a, cols) && IsMatrix(b, cols)
    requires forall i, j :: 0 <= i < |a| && 0 <= j < cols ==> a[i][j] == b[i][j]
    ensures a == b
  {
    forall i | 0 <= i < |a| ensures a[i] == b[i] {
      assert forall j :: 0 <= j < cols ==> a[i][j] == b[i][j];
    }
  }

  /** `U[:, :len(signs)] *= signs`, or `U *= signs[:len_u]` when there are more signs than rows. */
  method FlipColumns(U: array2<real>, signs: seq<real>)
    requires U.Length0 == U.Length1
    modifies U
    ensures Rows(U) == FlippedU(old(Rows(U)), U.Length1, signs)
  {
    ghost var u0 := Rows(U);
    var lenSigns, lenU := |signs|, U.Length0;
    if lenSigns > lenU {
      forall i, j | 0 <= i < U.Length0 && 0 <= j < U.Length1 {
        U[i, j] := Times(U[i, j], signs[j]);
      }
    } else {
      forall i, j | 0 <= i < U.Length0 && 0 <= j < U.Length1 && j < lenSigns {
        U[i, j] := Times(U[i, j], signs[j]);
      }
    }
    var u1 := Rows(U);
    assert forall i, j :: 0 <= i < |u1| && 0 <= j < U.Length1 ==>
      u1[i][j] == if j < |signs| then Times(u0[i][j], signs[j]) else u0[i][j];
    MatrixEq(u1, FlippedU(u0, U.Length1, signs), U.Length1);
  }

  /** `Vh[:len(signs), :] *= signs[:, np.newaxis]`, or all rows when there are more signs than rows. */
  method FlipRows(Vh: array2<real>, signs: seq<real>)
    modifies Vh
    ensures Rows(Vh) == FlippedVh(old(Rows(Vh)), Vh.Length1, signs)
  {
    ghost var vh0 := Rows(Vh);
    var lenSigns, lenVh := |signs|, Vh.Length0;
    if lenSigns > lenVh {
      forall i, j | 0 <= i < Vh.Length0 && 0 <= j < Vh.Length1 {
        Vh[i, j] := Times(Vh[i, j], signs[i]);
      }
    } else {
      forall i, j | 0 <= i < Vh.Length0 && 0 <= j < Vh.Length1 && i < lenSigns {
        Vh[i, j] := Times(Vh[i, j], signs[i]);
      }
    }
    var vh1 := Rows(Vh);
    assert forall i, j :: 0 <= i < |vh1| && 0 <= j < Vh.Length1 ==>
      vh1[i][j] == if i < |signs| then Times(vh0[i][j], signs[i]) else vh0[i][j];
    MatrixEq(vh1, FlippedVh(vh0, Vh.Length1, signs), Vh.Length1);
  }

  /** `_flip_svd`, in place on the square `U` of a full SVD and on `Vh`. */
  method FlipSvd(U: array2<real>, Vh: array2<real>, uBased: bool)
    requires U.Length0 == U.Length1 && U != Vh
    requires if uBased then U.Length0 > 0 else Vh.Length1 > 0
    modifies U, Vh
    ensures var signs := Signs(old(Rows(U)), U.Length1, old(Rows(Vh)), Vh.Length1, uBased);
      Rows(U) == FlippedU(old(Rows(U)), U.Length1, signs) &&
      Rows(Vh) == FlippedVh(old(Rows(Vh)), Vh.Length1, signs)
  {
    var signs := Signs(Rows(U), U.Length1, Rows(Vh), Vh.Length1, uBased);
    FlipColumns(U, signs);
    FlipRows(Vh, signs);
  }

  // ---------------------------------------------------------------------
  // What the U-based sign flip guarantees

  /** The sign taken from column `j` is 0 only when the whole column is 0. */
  lemma ZeroSignZeroColumn(U: seq<seq<real>>, cols: nat, j: nat, i: nat)
    requires IsMatrix(U, cols) && |U| > 0 && j < cols && i < |U|
    requires SignsU(U, cols)[j] == 0.0
    ensures U[i][j] == 0.0
  {
    var c := Column(U, cols, j);
    var a := ArgMaxAbs(c);
    assert Abs(c[i]) <= Abs(c[a]);
  }

  /** Flipping keeps the absolute value of every entry of `U`. */
  lemma FlipKeepsAbs(U: seq<seq<real>>, cols: nat)
    requires IsMatrix(U, cols) && |U| > 0
    ensures forall i, j :: 0 <= i < |U| && 0 <= j < cols ==>
              Abs(FlippedU(U, cols, SignsU(U, cols))[i][j]) == Abs(U[i][j])
  {
    var signs := SignsU(U, cols);
    forall i, j | 0 <= i < |U| && 0 <= j < cols
      ensures Abs(FlippedU(U, cols, signs)[i][j]) == Abs(U[i][j])
    {
      if signs[j] == 0.0 {
        ZeroSignZeroColumn(U, cols, j, i);
      }
    }
  }

  /** The first position of largest absolute value depends only on the absolute values. */
  lemma {:induction false} ArgMaxAbsOfAbs(v: seq<real>, w: seq<real>)
    requires |v| == |w| > 0
    requires forall i :: 0 <= i < |v| ==> Abs(v[i]) == Abs(w[i])
    ensures ArgMaxAbs(v) == ArgMaxAbs(w)
  {
    if |v| > 1 {
      ArgMaxAbsOfAbs(v[..|v| - 1], w[..|w| - 1]);
    }
  }

  /**
    After the flip, the first entry of largest absolute value in each column
    of `U` is at the same place as before, and it is not negative.
   */
  lemma FlipCanonical(U: seq<seq<real>>, cols: nat, j: nat)
    requires IsMatrix(U, cols) && |U| > 0 && j < cols
    ensures var f := FlippedU(U, cols, SignsU(U, cols));
      ArgMaxAbs(Column(f, cols, j)) == ArgMaxAbs(Column(U, cols, j)) &&
      f[ArgMaxAbs(Column(U, cols, j))][j] >= 0.0
  {
    var f := FlippedU(U, cols, SignsU(U, cols));
    FlipKeepsAbs(U, cols);
    ArgMaxAbsOfAbs(Column(f, cols, j), Column(U, cols, j));
    var a := ArgMaxAbs(Column(U, cols, j));
    assert f[a][j] == Times(U[a][j], Sign(U[a][j]));
  }

  /** The signs of a flipped `U` are 1, or 0 where the column is 0. */
  lemma SignsAfterFlip(U: seq<seq<real>>, cols: nat, j: nat)
    requires IsMatrix(U, cols) && |U| > 0 && j < cols
    ensures var f := FlippedU(U, cols, SignsU(U, cols));
      SignsU(f, cols)[j] == if SignsU(U, cols)[j] == 0.0 then 0.0 else 1.0
  {
    var f := FlippedU(U, cols, SignsU(U, cols));
    FlipCanonical(U, cols, j);
    var a := ArgMaxAbs(Column(U, cols, j));
    assert f[a][j] == Times(U[a][j], Sign(U[a][j])) == Abs(U[a][j]);
  }

  /** Flipping twice with U-based signs is flipping once, for both factors. */
  lemma FlipIdempotent(U: seq<seq<real>>, cols: nat, Vh: seq<seq<real>>, vcols: nat)
    requires IsMatrix(U, cols) && |U| > 0 && IsMatrix(Vh, vcols)
    ensures var f := FlippedU(U, cols, SignsU(U, cols));
      FlippedU(f, cols, SignsU(f, cols)) == f &&
      FlippedVh(FlippedVh(Vh, vcols, SignsU(U, cols)), vcols, SignsU(f, cols)) == FlippedVh(Vh, vcols, SignsU(U, cols))
  {
    var signs := SignsU(U, cols);
    var f := FlippedU(U, cols, signs);
    var g := FlippedVh(Vh, vcols, signs);
    var again := SignsU(f, cols);
    forall i, j | 0 <= i < |U| && 0 <= j < cols ensures FlippedU(f, cols, again)[i][j] == f[i][j] {
      SignsAfterFlip(U, cols, j);
      if signs[j] == 0.0 {
        ZeroSignZeroColumn(U, cols, j, i);
      }
    }
    MatrixEq(FlippedU(f, cols, again), f, cols);
    forall i, k | 0 <= i < |Vh| && 0 <= k < vcols ensures FlippedVh(g, vcols, again)[i][k] == g[i][k] {
      if i < cols {
        SignsAfterFlip(U, cols, i);
      }
    }
    MatrixEq(FlippedVh(g, vcols, again), g, vcols);
  }

  /** Negating column `j` of `U` negates the sign taken from it. */
  lemma SignFreeColumn(U: seq<seq<real>>, cols: nat, d: seq<real>, j: nat)
    requires IsMatrix(U, cols) && |U| > 0 && |d| == cols && j < cols
    requires d[j] == 1.0 || d[j] == -1.0
    ensures SignsU(FlippedU(U, cols, d), cols)[j] == Times(SignsU(U, cols)[j], d[j])
  {
    var U2 := FlippedU(U, cols, d);
    var c, c2 := Column(U, cols, j), Column(U2, cols, j);
    assert forall i :: 0 <= i < |c| ==> c2[i] == Times(c[i], d[j]);
    ArgMaxAbsOfAbs(c2, c);
  }

  /**
    The flipped factors do not depend on the signs the solver chose: negating
    any columns of `U`, and the matching rows of `Vh`, before the flip gives
    the same flipped `U` and `Vh`.
   */
  lemma FlipSignFree(U: seq<seq<real>>, cols: nat, Vh: seq<seq<real>>, vcols: nat, d: seq<real>)
    requires IsMatrix(U, cols) && |U| > 0 && IsMatrix(Vh, vcols) && |d| == cols
    requires forall j :: 0 <= j < cols ==> d[j] == 1.0 || d[j] == -1.0
    ensures var U2 := FlippedU(U, cols, d);
      FlippedU(U2, cols, SignsU(U2, cols)) == FlippedU(U, cols, SignsU(U, cols)) &&
      FlippedVh(FlippedVh(Vh, vcols, d), vcols, SignsU(U2, cols)) == FlippedVh(Vh, vcols, SignsU(U, cols))
  {
    var U2 := FlippedU(U, cols, d);
    var Vh2 := FlippedVh(Vh, vcols, d);
    var s, s2 := SignsU(U, cols), SignsU(U2, cols);
    forall i, j | 0 <= i < |U| && 0 <= j < cols
      ensures FlippedU(U2, cols, s2)[i][j] == FlippedU(U, cols, s)[i][j]
    {
      SignFreeColumn(U, cols, d, j);
      UnitSquare(U[i][j], s[j], d[j]);
    }
    MatrixEq(FlippedU(U2, cols, s2), FlippedU(U, cols, s), cols);
    forall i, k | 0 <= i < |Vh| && 0 <= k < vcols
      ensures FlippedVh(Vh2, vcols, s2)[i][k] == FlippedVh(Vh, vcols, s)[i][k]
    {
      if i < cols {
        SignFreeColumn(U, cols, d, i);
        UnitSquare(Vh[i][k], s[i], d[i]);
      }
    }
    MatrixEq(FlippedVh(Vh2, vcols, s2), FlippedVh(Vh, vcols, s), vcols);
  }

  /** Multiplying by a unit twice cancels it. */
  lemma UnitSquare(x: real, s: real, d: real)
    requires d == 1.0 || d == -1.0
    ensures Times(Times(x, d), Times(s, d)) == Times(x, s)
  {
    if d == -1.0 {
      assert Times(x, d) == -x && Times(s, d) == -s;
      assert -x * -s == x * s;
    }
  }

  /**
    Column `j` of `U` and row `j` of `Vh` are multiplied by the same sign,
    so every product `U[i][j] * Vh[j][k]` and with it `U S Vh` is unchanged.
   */
  lemma FlipKeepsProducts(U: seq<seq<real>>, cols: nat, Vh: seq<seq<real>>, vcols: nat, i: nat, j: nat, k: nat)
    requires IsMatrix(U, cols) && |U| > 0 && IsMatrix(Vh, vcols)
    requires i < |U| && j < cols && j < |Vh| && k < vcols
    ensures var signs := SignsU(U, cols);
      FlippedU(U, cols, signs)[i][j] * FlippedVh(Vh, vcols, signs)[j][k] == U[i][j] * Vh[j][k]
  {
    var signs := SignsU(U, cols);
    var x, y := U[i][j], Vh[j][k];
    if signs[j] == 0.0 {
      ZeroSignZeroColumn(U, cols, j, i);
    } else if signs[j] == 1.0 {
      assert Times(x, 1.0) == x && Times(y, 1.0) == y;
    } else {
      assert Times(x, -1.0) == -x && Times(y, -1.0) == -y;
      assert -x * -y == x * y;
    }
  }

  /** One term `U[i][j] * Vh[j][k] * S[j]` of the product. */
  function Term(u: real, v: real, s: real): real {
    Times(u * v, s)
  }

  /** Sum of `U[i][j] * Vh[j][k] * S[j]` over the first `n` components. */
  function TermSum(U: seq<seq<real>>, ucols: nat, S: seq<real>, Vh: seq<seq<real>>, vcols: nat, i: nat, k: nat, n: nat): real
    requires IsMatrix(U, ucols) && IsMatrix(Vh, vcols)
    requires n <= |S| && n <= ucols && n <= |Vh| && i < |U| && k < vcols
  {
    if n == 0 then 0.0 else TermSum(U, ucols, S, Vh, vcols, i, k, n - 1) + Term(U[i][n - 1], Vh[n - 1][k], S[n - 1])
  }

  /** `U @ diag(S) @ Vh`, restricted to the `|S|` components that have a singular value. */
  function SvdProduct(U: seq<seq<real>>, ucols: nat, S: seq<real>, Vh: seq<seq<real>>, vcols: nat): (r: seq<seq<real>>)
    requires IsMatrix(U, ucols) && IsMatrix(Vh, vcols) && |S| <= ucols && |S| <= |Vh|
    ensures |r| == |U| && IsMatrix(r, vcols)
  {
    seq(|U|, i requires 0 <= i < |U| =>
      seq(vcols, k requires 0 <= k < vcols => TermSum(U, ucols, S, Vh, vcols, i, k, |S|)))
  }

  /** Term sums agree when the products `U[i][j] * Vh[j][k]` agree term by term. */
  lemma {:induction false} TermSumOfEqualProducts(U: seq<seq<real>>, F: seq<seq<real>>, ucols: nat, S: seq<real>,
                                                  Vh: seq<seq<real>>, G: seq<seq<real>>, vcols: nat, i: nat, k: nat, n: nat)
    requires IsMatrix(U, ucols) && IsMatrix(F, ucols) && IsMatrix(Vh, vcols) && IsMatrix(G, vcols)
    requires |F| == |U| && |G| == |Vh|
    requires n <= |S| && n <= ucols && n <= |Vh| && i < |U| && k < vcols
    requires forall j :: 0 <= j < n ==> F[i][j] * G[j][k] == U[i][j] * Vh[j][k]
    ensures TermSum(F, ucols, S, G, vcols, i, k, n) == TermSum(U, ucols, S, Vh, vcols, i, k, n)
  {
    if n > 0 {
      TermSumOfEqualProducts(U, F, ucols, S, Vh, G, vcols, i, k, n - 1);
      assert F[i][n - 1] * G[n - 1][k] == U[i][n - 1] * Vh[n - 1][k];
    }
  }

  lemma FlipKeepsSvdEntry(U: seq<seq<real>>, cols: nat, S: seq<real>, Vh: seq<seq<real>>, vcols: nat, i: nat, k: nat)
    requires IsMatrix(U, cols) && |U| > 0 && IsMatrix(Vh, vcols) && |S| <= cols && |S| <= |Vh|
    requires i < |U| && k < vcols
    ensures var signs := SignsU(U, cols);
      TermSum(FlippedU(U, cols, signs), cols, S, FlippedVh(Vh, vcols, signs), vcols, i, k, |S|) ==
      TermSum(U, cols, S, Vh, vcols, i, k, |S|)
  {
    var signs := SignsU(U, cols);
    var f, g := FlippedU(U, cols, signs), FlippedVh(Vh, vcols, signs);
    forall j | 0 <= j < |S| ensures f[i][j] * g[j][k] == U[i][j] * Vh[j][k] {
      FlipKeepsProducts(U, cols, Vh, vcols, i, j, k);
    }
    TermSumOfEqualProducts(U, f, cols, S, Vh, g, vcols, i, k, |S|);
  }

  /** The U-based flip leaves the product `U S Vh` unchanged. */
  lemma FlipKeepsSvd(U: seq<seq<real>>, cols: nat, S: seq<real>, Vh: seq<seq<real>>, vcols: nat)
    requires IsMatrix(U, cols) && |U| > 0 && IsMatrix(Vh, vcols) && |S| <= cols && |S| <= |Vh|
    ensures var signs := SignsU(U, cols);
      SvdProduct(FlippedU(U, cols, signs), cols, S, FlippedVh(Vh, vcols, signs), vcols) == SvdProduct(U, cols, S, Vh, vcols)
  {
    var signs := SignsU(U, cols);
    var a := SvdProduct(FlippedU(U, cols, signs), cols, S, FlippedVh(Vh, vcols, signs), vcols);
    var b := SvdProduct(U, cols, S, Vh, vcols);
    forall i, k | 0 <= i < |U| && 0 <= k < vcols ensures a[i][k] == b[i][k] {
      FlipKeepsSvdEntry(U, cols, S, Vh, vcols, i, k);
    }
    MatrixEq(a, b, vcols);
  }

  // ---------------------------------------------------------------------
  // Centring: `np.mean(mat, axis=0)` and `mat - mean`

  function Sum(v: seq<real>): real {
    if |v| == 0 then 0.0 else v[0] + Sum(v[1..])
  }

  /** `np.mean(mat, axis=0)`. */
  function ColumnMeans(mat: seq<seq<real>>, cols: nat): (r: seq<real>)
    requires IsMatrix(mat, cols) && |mat| > 0
    ensures |r| == cols
  {
    seq(cols, j requires 0 <= j < cols => Sum(Column(mat, cols, j)) / (|mat| as real))
  }

  /** `mat - mean`, the mean row subtracted from every row. */
  function Centered(mat: seq<seq<real>>, cols: nat, mean: seq<real>): (r: seq<seq<real>>)
    requires IsMatrix(mat, cols) && |mean| == cols
    ensures |r| == |mat| && IsMatrix(r, cols)
    ensures forall i, j :: 0 <= i < |mat| && 0 <= j < cols ==> r[i][j] == mat[i][j] - mean[j]
  {
    seq(|mat|, i requires 0 <= i < |mat| => seq(cols, j requires 0 <= j < cols => mat[i][j] - mean[j]))
  }

  /** `center + mean`, the mean row added back to every row. */
  function AddRow(center: seq<seq<real>>, cols: nat, mean: seq<real>): (r: seq<seq<real>>)
    requires IsMatrix(center, cols) && |mean| == cols
    ensures |r| == |center| && IsMatrix(r, cols)
    ensures forall i, j :: 0 <= i < |center| && 0 <= j < cols ==> r[i][j] == center[i][j] + mean[j]
  {
    seq(|center|, i requires 0 <= i < |center| => seq(cols, j requires 0 <= j < cols => center[i][j] + mean[j]))
  }

  /** Adding the mean back to the centred matrix gives the original matrix. */
  lemma CenterRoundTrip(mat: seq<seq<real>>, cols: nat, mean: seq<real>)
    requires IsMatrix(mat, cols) && |mean| == cols
    ensures AddRow(Centered(mat, cols, mean), cols, mean) == mat
  {
    MatrixEq(AddRow(Centered(mat, cols, mean), cols, mean), mat, cols);
  }

  lemma {:induction false} SumShift(v: seq<real>, c: real)
    ensures Sum(seq(|v|, i requires 0 <= i < |v| => v[i] - c)) == Sum(v) - (|v| as real) * c
  {
    var w := seq(|v|, i requires 0 <= i < |v| => v[i] - c);
    if |v| > 0 {
      var rest := seq(|v| - 1, i requires 0 <= i < |v| - 1 => v[1..][i] - c);
      assert w[1..] == rest;
      SumShift(v[1..], c);
      assert (|v| as real) * c == (|v[1..]| as real) * c + c;
    }
  }

  lemma MulDiv(s: real, n: real)
    requires n > 0.0
    ensures n * (s / n) == s
  {
  }

  /** Every column of the centred matrix sums to zero. */
  lemma CenteredColumnsSumToZero(mat: seq<seq<real>>, cols: nat, j: nat)
    requires IsMatrix(mat, cols) && |mat| > 0 && j < cols
    ensures Sum(Column(Centered(mat, cols, ColumnMeans(mat, cols)), cols, j)) == 0.0
  {
    var mean := ColumnMeans(mat, cols);
    var c := Column(mat, cols, j);
    var d := Column(Centered(mat, cols, mean), cols, j);
    assert d == seq(|c|, i requires 0 <= i < |c| => c[i] - mean[j]);
    SumShift(c, mean[j]);
    MulDiv(Sum(c), |mat| as real);
  }

  // ---------------------------------------------------------------------
  // Explained variance

  /** `S ** 2 / (nrow - 1)`. */
  function VarianceOf(S: seq<real>, nrow: nat): (r: seq<real>)
    requires nrow >= 2
    ensures |r| == |S| && forall j :: 0 <= j < |S| ==> r[j] >= 0.0
  {
    seq(|S|, j requires 0 <= j < |S| => S[j] * S[j] / ((nrow - 1) as real))
  }

  /**
    `v / total` elementwise. A zero total gives NaN in every entry, which is
    numpy's `0 / 0`. numpy would give an infinity for a non-zero entry, but
    every caller divides the variances by their own sum, and by
    SumNonNegative a zero sum of non-negative variances means every entry is 0.
   */
  function Divide(v: seq<real>, total: real): (r: seq<Cell>)
    ensures |r| == |v|
    ensures forall j :: 0 <= j < |v| ==> (r[j].NaN? <==> total == 0.0)
  {
    seq(|v|, j requires 0 <= j < |v| => if total == 0.0 then NaN else Num(v[j] / total))
  }

  /** The share of the total variance each component carries. */
  function RatioOf(v: seq<real>): seq<Cell> {
    Divide(v, Sum(v))
  }

  /**
    One read of the `variance_ratio` property as written: the result and the
    `_variance` cache afterwards. The expression divides the `_variance`
    cache, read before the `variance` property that fills it, so a first
    read with the cache empty divides None and raises TypeError, after
    having filled the cache.
   */
  function RatioRead(variance: Option<seq<real>>, ratio: Option<seq<Cell>>, S: seq<real>, nrow: nat): (r: (Result<seq<Cell>>, Option<seq<real>>))
    requires nrow >= 2
    ensures r.0.Ok? <==> ratio.Some? || variance.Some?
    ensures r.0.Err? ==> r.0.error == TypeError
    ensures ratio.None? ==> r.1.Some?
    ensures ratio.None? && variance.None? ==> r.1 == Some(VarianceOf(S, nrow))
    ensures ratio.Some? ==> r == (Ok(ratio.value), variance)
  {
    if ratio.Some? then (Ok(ratio.value), variance)
    else
      var cached := variance;
      var v := variance.GetOr(VarianceOf(S, nrow));
      if cached.None? then (Err(TypeError), Some(v))
      else (Ok(Divide(cached.value, Sum(v))), Some(v))
  }

  /** A read that failed leaves the cache filled, so the next read succeeds. */
  lemma RetryAfterTypeError(S: seq<real>, nrow: nat)
    requires nrow >= 2
    ensures var first := RatioRead(None, None, S, nrow);
      first.0 == Err(TypeError) &&
      RatioRead(first.1, None, S, nrow).0 == Ok(RatioOf(VarianceOf(S, nrow)))
  {
  }

  function Squares(S: seq<real>): (r: seq<real>)
    ensures |r| == |S| && forall j :: 0 <= j < |S| ==> r[j] == S[j] * S[j]
  {
    seq(|S|, j requires 0 <= j < |S| => S[j] * S[j])
  }

  lemma {:induction false} SumOfQuotients(v: seq<real>, t: real)
    requires t != 0.0
    ensures Sum(seq(|v|, j requires 0 <= j < |v| => v[j] / t)) == Sum(v) / t
  {
    var w := seq(|v|, j requires 0 <= j < |v| => v[j] / t);
    if |v| > 0 {
      assert w[1..] == seq(|v[1..]|, j requires 0 <= j < |v[1..]| => v[1..][j] / t);
      SumOfQuotients(v[1..], t);
      AddDiv(v[0], Sum(v[1..]), t);
    }
  }

  lemma AddDiv(a: real, b: real, t: real)
    requires t != 0.0
    ensures a / t + b / t == (a + b) / t
  {
  }

  lemma PositiveQuotient(a: real, b: real)
    requires a > 0.0 && b > 0.0
    ensures a / b > 0.0
  {
  }

  lemma SelfQuotient(t: real)
    requires t != 0.0
    ensures t / t == 1.0
  {
  }

  lemma DivCancel(a: real, b: real, c: real)
    requires b != 0.0 && c != 0.0
    ensures (a / c) / (b / c) == a / b
  {
  }

  lemma {:induction false} SumNonNegative(v: seq<real>)
    requires forall j :: 0 <= j < |v| ==> v[j] >= 0.0
    ensures Sum(v) >= 0.0
    ensures Sum(v) == 0.0 <==> forall j :: 0 <= j < |v| ==> v[j] == 0.0
  {
    if |v| > 0 {
      SumNonNegative(v[1..]);
      assert forall j :: 1 <= j < |v| ==> v[j] == v[1..][j - 1];
    }
  }

  /**
    The variance ratio of each component is its squared singular value over
    the sum of all squared singular values; when every singular value is 0
    each ratio is NaN.
   */
  lemma RatioIsShareOfSquares(S: seq<real>, nrow: nat)
    requires nrow >= 2
    ensures var r := RatioOf(VarianceOf(S, nrow)); var total := Sum(Squares(S));
      |r| == |S| &&
      ((forall j :: 0 <= j < |S| ==> S[j] == 0.0) ==> total == 0.0) &&
      forall j :: 0 <= j < |S| ==> r[j] == if total == 0.0 then NaN else Num(S[j] * S[j] / total)
  {
    var c := (nrow - 1) as real;
    var sq := Squares(S);
    var v := VarianceOf(S, nrow);
    assert v == seq(|sq|, j requires 0 <= j < |sq| => sq[j] / c);
    SumOfQuotients(sq, c);
    SumNonNegative(sq);
    forall j | 0 <= j < |S| && Sum(sq) != 0.0 ensures v[j] / Sum(v) == sq[j] / Sum(sq) {
      DivCancel(sq[j], Sum(sq), c);
    }
  }

  /** Shares of a positive total are non-negative numbers that sum to 1. */
  lemma SharesSumToOne(v: seq<real>)
    requires forall j :: 0 <= j < |v| ==> v[j] >= 0.0
    requires Sum(v) > 0.0
    ensures var r := RatioOf(v);
      (forall j :: 0 <= j < |r| ==> r[j].Num? && 0.0 <= r[j].val) &&
      Sum(seq(|r|, j requires 0 <= j < |r| => r[j].val)) == 1.0
  {
    var r := RatioOf(v);
    var t := Sum(v);
    forall j | 0 <= j < |r| ensures r[j].Num? && 0.0 <= r[j].val {
      if v[j] > 0.0 {
        PositiveQuotient(v[j], t);
      }
    }
    assert seq(|r|, j requires 0 <= j < |r| => r[j].val) == seq(|v|, j requires 0 <= j < |v| => v[j] / t);
    SumOfQuotients(v, t);
    SelfQuotient(t);
  }

  /** When the squared singular values have a positive sum the ratios are numbers that sum to 1. */
  lemma RatiosSumToOne(S: seq<real>, nrow: nat)
    requires nrow >= 2
    requires Sum(Squares(S)) > 0.0
    ensures var r := RatioOf(VarianceOf(S, nrow));
      (forall j :: 0 <= j < |r| ==> r[j].Num? && 0.0 <= r[j].val) &&
      Sum(seq(|r|, j requires 0 <= j < |r| => r[j].val)) == 1.0
  {
    var c: real := (nrow - 1) as real;
    var sq := Squares(S);
    var v := VarianceOf(S, nrow);
    assert v == seq(|sq|, j requires 0 <= j < |sq| => sq[j] / c);
    SumOfQuotients(sq, c);
    PositiveQuotient(Sum(sq), c);
    SharesSumToOne(v);
  }

  // ---------------------------------------------------------------------
  // Splitting a projection over a block of components

  lemma ProjectConcat(X: seq<seq<real>>, cols: nat, B1: seq<seq<real>>, B2: seq<seq<real>>, i: nat)
    requires IsMatrix(X, cols) && IsMatrix(B1, cols) && IsMatrix(B2, cols) && i < |X|
    ensures Project(X, cols, B1 + B2)[i] == Project(X, cols, B1)[i] + Project(X, cols, B2)[i]
  {
  }

  lemma ColumnConcat(B1: seq<seq<real>>, B2: seq<seq<real>>, cols: nat, k: nat)
    requires IsMatrix(B1, cols) && IsMatrix(B2, cols) && k < cols
    ensures Column(B1 + B2, cols, k) == Column(B1, cols, k) + Column(B2, cols, k)
  {
  }

  /**
    Projecting on a block of rows of `B` and back is the sum of doing so on
    the two halves of the block.
   */
  lemma ProjectBackSplit(X: seq<seq<real>>, cols: nat, B1: seq<seq<real>>, B2: seq<seq<real>>, i: nat, k: nat)
    requires IsMatrix(X, cols) && IsMatrix(B1, cols) && IsMatrix(B2, cols) && i < |X| && k < cols
    ensures MatMul(Project(X, cols, B1 + B2), |B1| + |B2|, B1 + B2, cols)[i][k] ==
            MatMul(Project(X, cols, B1), |B1|, B1, cols)[i][k] + MatMul(Project(X, cols, B2), |B2|, B2, cols)[i][k]
  {
    ProjectConcat(X, cols, B1, B2, i);
    ColumnConcat(B1, B2, cols, k);
    DotConcat(Project(X, cols, B1)[i], Project(X, cols, B2)[i], Column(B1, cols, k), Column(B2, cols, k));
  }

  // ---------------------------------------------------------------------
  // The Pca object

  /**
    A PCA of an `nrow`-by-`ncol` matrix: the column means, the centred
    matrix, and the sign-canonical SVD factors of the centred matrix. Only
    the two caches of the variance properties change after construction.
   */
  class Pca {
    const nrow: nat
    const ncol: nat
    const mean: seq<real>
    const center: seq<seq<real>>
    const U: seq<seq<real>>
    const S: seq<real>
    const Vh: seq<seq<real>>
    var variance: Option<seq<real>>
    var varianceRatio: Option<seq<Cell>>

    /** The shapes a full SVD of the centred matrix gives. */
    ghost predicate Shaped() {
      nrow > 0 && |center| == nrow && IsMatrix(center, ncol) && |mean| == ncol &&
      |U| == nrow && IsMatrix(U, nrow) && |Vh| == ncol && IsMatrix(Vh, ncol) &&
      |S| == Min(nrow, ncol)
    }

    /** The shapes, and caches that hold what the properties compute. */
    ghost predicate Valid()
      reads this
    {
      Shaped() &&
      (variance.Some? ==> nrow >= 2 && variance.value == VarianceOf(S, nrow)) &&
      (varianceRatio.Some? ==> variance.Some? && varianceRatio.value == RatioOf(VarianceOf(S, nrow)))
    }

    /**
      `Pca(mat)` with `u, s, vh` the full SVD of the centred matrix, which
      the constructor flips in place to the U-based sign convention.
     */
    constructor (mat: seq<seq<real>>, cols: nat, u: array2<real>, s: seq<real>, vh: array2<real>)
      requires IsMatrix(mat, cols) && |mat| > 0
      requires u.Length0 == |mat| && u.Length1 == |mat| && vh.Length0 == cols && vh.Length1 == cols && u != vh
      requires |s| == Min(|mat|, cols)
      modifies u, vh
      ensures Valid() && variance == None && varianceRatio == None
      ensures nrow == |mat| && ncol == cols
      ensures mean == ColumnMeans(mat, cols) && center == Centered(mat, cols, mean)
      ensures Mat() == mat
      ensures U == Rows(u) && S == s && Vh == Rows(vh)
      ensures U == FlippedU(old(Rows(u)), |mat|, SignsU(old(Rows(u)), |mat|))
      ensures Vh == FlippedVh(old(Rows(vh)), cols, SignsU(old(Rows(u)), |mat|))
      ensures SvdProduct(U, nrow, S, Vh, ncol) == SvdProduct(old(Rows(u)), |mat|, s, old(Rows(vh)), cols)
    {
      ghost var u0, vh0 := Rows(u), Rows(vh);
      var m := ColumnMeans(mat, cols);
      nrow, ncol := |mat|, cols;
      mean := m;
      center := Centered(mat, cols, m);
      FlipSvd(u, vh, true);
      U, S, Vh := Rows(u), s, Rows(vh);
      variance, varianceRatio := None, None;
      FlipKeepsSvd(u0, |mat|, s, vh0, cols);
      CenterRoundTrip(mat, cols, m);
    }

    /** The `mat` property: the centred matrix plus the column means. */
    function Mat(): (r: seq<seq<real>>)
      requires Shaped()
      ensures |r| == nrow && IsMatrix(r, ncol)
    {
      AddRow(center, ncol, mean)
    }

    /** `shrink_c(n)`: the centred matrix projected on the first `n` rows of `Vh`. */
    function ShrinkC(n: Option<int>): (r: Result<seq<seq<real>>>)
      requires Shaped()
      ensures r.Ok? <==> 1 <= n.GetOr(ncol) <= ncol
      ensures r.Err? ==> r.error == ValueError
      ensures r.Ok? ==> |r.value| == nrow && IsMatrix(r.value, n.GetOr(ncol))
    {
      var k := n.GetOr(ncol);
      if !(1 <= k <= ncol) then Err(ValueError)
      else Ok(Project(center, ncol, Vh[..k]))
    }

    /** `shrink_r(n)`: the first `n` columns of `U`, transposed, times the centred matrix. */
    function ShrinkR(n: Option<int>): (r: Result<seq<seq<real>>>)
      requires Shaped()
      ensures r.Ok? <==> 1 <= n.GetOr(nrow) <= nrow
      ensures r.Err? ==> r.error == ValueError
      ensures r.Ok? ==> |r.value| == n.GetOr(nrow) && IsMatrix(r.value, ncol)
    {
      var k := n.GetOr(nrow);
      if !(1 <= k <= nrow) then Err(ValueError)
      else Ok(MatMul(Columns(U, nrow, k), nrow, center, ncol))
    }

    /** `transform()`: `shrink_c` on as many components as there are singular values. */
    function Transform(): (r: Result<seq<seq<real>>>)
      requires Shaped()
      ensures r.Ok? <==> ncol > 0
      ensures r.Ok? ==> |r.value| == nrow && IsMatrix(r.value, |S|)
    {
      ShrinkC(Some(|S|))
    }

    /** `inverse_transform(A)`: back from component space, plus the means. */
    function InverseTransform(A: seq<seq<real>>, acols: nat): (r: Result<seq<seq<real>>>)
      requires Shaped() && IsMatrix(A, acols)
      ensures r.Ok? <==> acols == |S|
      ensures r.Err? ==> r.error == ValueError
      ensures r.Ok? ==> |r.value| == |A| && IsMatrix(r.value, ncol)
    {
      if acols != |S| then Err(ValueError)
      else Ok(AddRow(MatMul(A, acols, Vh[..|S|], ncol), ncol, mean))
    }

    /** The component range `reconstruct(start, end)` uses: `end` None means `0..start`. */
    static function Bounds(start: int, end: Option<int>): (int, int) {
      if end.None? then (0, start) else (start, end.value)
    }

    /** `reconstruct(start, end)`: the matrix rebuilt from components `start..end` only. */
    function Reconstruct(start: int, end: Option<int>): (r: Result<seq<seq<real>>>)
      requires Shaped()
      ensures var (s, e) := Bounds(start, end);
        r.Ok? <==> 0 <= s < e <= ncol
      ensures r.Err? ==> r.error == IndexError
      ensures r.Ok? ==> |r.value| == nrow && IsMatrix(r.value, ncol)
    {
      var (s, e) := Bounds(start, end);
      if !(0 <= s < e) || e > ncol then Err(IndexError)
      else
        var w := Vh[s..e];
        Ok(AddRow(MatMul(Project(center, ncol, w), e - s, w, ncol), ncol, mean))
    }

    /** `shrink_c(a)` is the first `a` columns of `shrink_c(b)`. */
    lemma ShrinkCPrefix(a: int, b: int)
      requires Shaped() && 1 <= a <= b <= ncol
      ensures forall i :: 0 <= i < nrow ==> ShrinkC(Some(a)).value[i] == ShrinkC(Some(b)).value[i][..a]
    {
      assert Vh[..b][..a] == Vh[..a];
    }

    /** `shrink_r(a)` is the first `a` rows of `shrink_r(b)`. */
    lemma ShrinkRPrefix(a: int, b: int)
      requires Shaped() && 1 <= a <= b <= nrow
      ensures ShrinkR(Some(a)).value == ShrinkR(Some(b)).value[..a]
    {
      assert Columns(U, nrow, b)[..a] == Columns(U, nrow, a);
    }

    /** `inverse_transform(transform())` is `reconstruct` from every component that has a singular value. */
    lemma TransformRoundTrip()
      requires Shaped() && ncol > 0
      ensures InverseTransform(Transform().value, |S|) == Reconstruct(|S|, None)
    {
      assert Vh[0..|S|] == Vh[..|S|];
    }

    /**
      Components contribute independently: rebuilding from `s..e` adds up
      the rebuilds from `s..m` and from `m..e`, with the mean counted once.
     */
    lemma ReconstructSplit(s: int, m: int, e: int)
      requires Shaped() && 0 <= s < m < e <= ncol
      ensures forall i, k :: 0 <= i < nrow && 0 <= k < ncol ==>
        Reconstruct(s, Some(e)).value[i][k] ==
        Reconstruct(s, Some(m)).value[i][k] + Reconstruct(m, Some(e)).value[i][k] - mean[k]
    {
      var w1, w2 := Vh[s..m], Vh[m..e];
      assert Vh[s..e] == w1 + w2;
      forall i, k | 0 <= i < nrow && 0 <= k < ncol
        ensures Reconstruct(s, Some(e)).value[i][k] ==
          Reconstruct(s, Some(m)).value[i][k] + Reconstruct(m, Some(e)).value[i][k] - mean[k]
      {
        ProjectBackSplit(center, ncol, w1, w2, i, k);
      }
    }

    /** The `variance` property, cached after the first read. */
    method Variance() returns (v: seq<real>)
      requires Valid() && nrow >= 2
      modifies this
      ensures v == VarianceOf(S, nrow)
      ensures variance == Some(v) && varianceRatio == old(varianceRatio)
      ensures Valid()
    {
      if variance.None? {
        variance := Some(VarianceOf(S, nrow));
      }
      v := variance.value;
    }

    /** The `variance_ratio` property as written: the cache is read before it is filled. */
    method VarianceRatioAsWritten() returns (r: Result<seq<Cell>>)
      requires Valid() && nrow >= 2
      modifies this
      ensures (r, variance) == RatioRead(old(variance), old(varianceRatio), S, nrow)
      ensures varianceRatio == if r.Ok? then Some(r.value) else old(varianceRatio)
      ensures Valid()
    {
      if varianceRatio.Some? {
        return Ok(varianceRatio.value);
      }
      var cached := variance;
      var v := Variance();
      if cached.None? {
        return Err(TypeError);
      }
      var ratio := Divide(cached.value, Sum(v));
      varianceRatio := Some(ratio);
      r := Ok(ratio);
    }

    /** The `variance_ratio` property with both operands read through `variance`. */
    method VarianceRatio() returns (r: seq<Cell>)
      requires Valid() && nrow >= 2
      modifies this
      ensures r == RatioOf(VarianceOf(S, nrow))
      ensures variance == Some(VarianceOf(S, nrow)) && varianceRatio == Some(r)
      ensures Valid()
    {
      if varianceRatio.Some? {
        return varianceRatio.value;
      }
      var v := Variance();
      r := Divide(v, Sum(v));
      varianceRatio := Some(r);
    }
  }
}
