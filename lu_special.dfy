/** LU on special inputs: diagonal matrices (factors, determinant and solve in closed
    form), the identity, and a non-finite entry in the first column. */
module LuSpecial {
  import opened Scalars
  import opened Storage
  import opened RealSums
  import opened LaErrors
  import opened Permutations
  import opened Vectors
  import opened Substitution
  import opened LuEngine
  import opened LuProofs

  /** A finite diagonal matrix whose diagonal entries all exceed tol >= 0 in absolute
      value. */
  predicate IsRegularDiagonal(a: seq<seq<Scalar>>, tol: real)
    requires IsSquare(a)
  {
    IsDiagonal(a) && AllFinite(a) && tol >= 0.0 && forall k | 0 <= k < |a| :: Abs(a[k][k]).v > tol
  }

  /** In a diagonal matrix the pivot search keeps the diagonal entry: every entry below it
      is zero, hence not strictly larger. */
  lemma {:induction false} DiagonalScan(w: seq<seq<Scalar>>, k: nat, tol: real)
    requires IsSquare(w) && k < |w| && IsRegularDiagonal(w, tol)
    ensures Scan(w, k) == Ok((k, Abs(w[k][k]).v))
  {
    ScanFacts(w, k);
  }

  /** A zero multiplier leaves a finite row as it is, if its column-k entry is zero. */
  lemma {:induction false} ZeroMultiplierRow(rowR: seq<Scalar>, rowK: seq<Scalar>, k: nat)
    requires |rowK| == |rowR| && k < |rowR| && rowR[k] == Fin(0.0)
    requires AllFiniteVec(rowR) && AllFiniteVec(rowK)
    ensures EliminatedRow(rowR, rowK, Fin(0.0), k) == rowR
  {
    var row := EliminatedRow(rowR, rowK, Fin(0.0), k);
    forall j | 0 <= j < |rowR|
      ensures row[j] == rowR[j]
    {
    }
  }

  /** An elimination whose every row is a fixed point changes nothing. */
  lemma {:induction false} EliminateFixedRows(w: seq<seq<Scalar>>, k: nat, r: nat, pivot: Scalar)
    requires IsSquare(w) && k < r <= |w|
    requires forall i | r <= i < |w| ::
               Div(w[i][k], pivot) == Fin(0.0) && EliminatedRow(w[i], w[k], Fin(0.0), k) == w[i]
    ensures EliminateFrom(w, k, r, pivot) == Ok(w)
    decreases |w| - r
  {
    if r < |w| {
      assert w[r := w[r]] == w;
      EliminateFixedRows(w, k, r + 1, pivot);
    }
  }

  lemma {:induction false} ZeroOver(y: Scalar)
    requires y.Fin? && y.v != 0.0
    ensures Div(Fin(0.0), y) == Fin(0.0)
  {
  }

  lemma {:induction false} DiagonalRowFixed(w: seq<seq<Scalar>>, k: nat, i: nat, tol: real)
    requires IsSquare(w) && k < i < |w| && IsRegularDiagonal(w, tol)
    ensures Div(w[i][k], w[k][k]) == Fin(0.0) && EliminatedRow(w[i], w[k], Fin(0.0), k) == w[i]
  {
    assert w[k][k].v != 0.0;
    assert w[i][k] == Fin(0.0);
    ZeroOver(w[k][k]);
    assert AllFiniteVec(w[i]) && AllFiniteVec(w[k]);
    ZeroMultiplierRow(w[i], w[k], k);
  }

  /** Every multiplier below a diagonal pivot is zero and the rows stay as they are. */
  lemma {:induction false} DiagonalEliminate(w: seq<seq<Scalar>>, k: nat, tol: real)
    requires IsSquare(w) && k < |w| && IsRegularDiagonal(w, tol)
    ensures EliminateFrom(w, k, k + 1, w[k][k]) == Ok(w)
  {
    var pivot := w[k][k];
    assert pivot.v != 0.0;
    forall i | k + 1 <= i < |w|
      ensures Div(w[i][k], pivot) == Fin(0.0) && EliminatedRow(w[i], w[k], Fin(0.0), k) == w[i]
    {
      DiagonalRowFixed(w, k, i, tol);
    }
    EliminateFixedRows(w, k, k + 1, pivot);
  }

  /** A step on a regular diagonal matrix changes nothing. */
  lemma {:induction false} DiagonalStep(s: State, k: nat, tol: real)
    requires ValidState(s) && k < |s.w| && IsRegularDiagonal(s.w, tol)
    ensures Step(s, k, tol) == Ok(s)
  {
    DiagonalScan(s.w, k, tol);
    DiagonalEliminate(s.w, k, tol);
  }

  lemma {:induction false} DiagonalFactorFrom(s: State, k: nat, tol: real)
    requires ValidState(s) && k <= |s.w| && IsRegularDiagonal(s.w, tol)
    ensures FactorFrom(s, k, tol) == Ok(s)
    decreases |s.w| - k
  {
    if k < |s.w| {
      DiagonalStep(s, k, tol);
      DiagonalFactorFrom(s, k + 1, tol);
    }
  }

  /** Factoring a regular diagonal matrix exchanges no rows and eliminates nothing: the
      factors are the matrix itself, the permutation is the identity with sign +1, and the
      determinant is the product of the diagonal. */
  lemma {:induction false} DiagonalFactor(a: seq<seq<Scalar>>, tol: real)
    requires IsSquare(a) && IsRegularDiagonal(a, tol)
    ensures FactorSpec(a, tol) == Ok(Lu(a, Identity(|a|), 1.0, tol))
    ensures DetSpec(FactorSpec(a, tol).value) == Fin(DiagProduct(a, |a|))
  {
    DiagonalFactorFrom(State(a, Identity(|a|), 1.0), 0, tol);
    DiagFoldValue(a, 1.0, |a|);
  }

  /** Terms with a zero coefficient leave the accumulator alone. */
  lemma {:induction false} SubAccZeroCoef(coef: seq<Scalar>, x: seq<Scalar>, init: Scalar, lo: nat, hi: nat)
    requires lo <= hi <= |coef| && hi <= |x| && init.Fin?
    requires forall j | lo <= j < hi :: coef[j] == Fin(0.0) && x[j].Fin?
    ensures SubAcc(coef, x, init, lo, hi) == init
    decreases hi - lo
  {
    if hi > lo {
      SubAccZeroCoef(coef, x, init, lo, hi - 1);
    }
  }

  /** With no multipliers below the diagonal, forward substitution returns its input. */
  lemma {:induction false} DiagonalForward(f: seq<seq<Scalar>>, x: seq<Scalar>, i: nat)
    requires IsSquare(f) && IsDiagonal(f) && |x| == |f| && i <= |f| && AllFiniteVec(x)
    ensures ForwardFrom(f, x, i) == Ok(x)
    decreases |f| - i
  {
    if i < |f| {
      SubAccZeroCoef(f[i], x, x[i], 0, i);
      assert x[i := x[i]] == x;
      DiagonalForward(f, x, i + 1);
    }
  }

  /** x[i] = b[i] / a[i][i]. */
  function DiagonalQuotients(a: seq<seq<Scalar>>, b: seq<Scalar>): (q: seq<Scalar>)
    requires IsSquare(a) && |b| == |a|
    ensures |q| == |b|
  {
    seq(|b|, i requires 0 <= i < |b| => Div(b[i], a[i][i]))
  }

  /** Row i of U·z = b for a diagonal U pins z[i] down to b[i] / U[i][i]. */
  lemma {:induction false} DiagonalRowSolved(a: seq<seq<Scalar>>, tol: real, b: seq<Scalar>, z: seq<Scalar>, i: nat)
    requires IsSquare(a) && IsRegularDiagonal(a, tol) && |b| == |a| && |z| == |a| && i < |a|
    requires AllFiniteVec(b) && AllFiniteVec(z)
    requires MatVec(UpperOf(a), RealVecOf(z))[i] == RealVecOf(b)[i]
    ensures z[i] == Div(b[i], a[i][i])
  {
    UpperTimes(a, z, i);
    forall j | i + 1 <= j < |a|
      ensures CoefTerm(a[i], z)(j) == 0.0
    {
      assert a[i][j] == Fin(0.0);
    }
    SumZero(i + 1, |a|, CoefTerm(a[i], z));
    var d := Val(a, i, i);
    assert d != 0.0;
    assert d * VVal(z, i) == VVal(b, i);
    QuotientOfProduct(d, VVal(z, i), VVal(b, i));
  }

  lemma QuotientOfProduct(d: real, q: real, p: real)
    requires d != 0.0 && d * q == p
    ensures q == p / d
  {
  }

  /** Solving with the LU of a regular diagonal matrix divides each entry of a finite
      right-hand side by its diagonal entry. */
  lemma {:induction false} DiagonalSolve(a: seq<seq<Scalar>>, tol: real, b: Vector)
    requires IsSquare(a) && IsRegularDiagonal(a, tol) && |b.data| == |a| && AllFiniteVec(b.data)
    ensures FactorSpec(a, tol).Ok?
    ensures SolveSpec(FactorSpec(a, tol).value, b) == Ok(Vector(DiagonalQuotients(a, b.data)))
  {
    DiagonalFactor(a, tol);
    assert Permuted(b.data, Identity(|a|)) == b.data;
    DiagonalForward(a, b.data, 0);
    DiagonalBack(a, tol, b.data);
  }

  /** Back substitution with a regular diagonal matrix divides each entry by its
      diagonal entry. */
  lemma DiagonalBack(a: seq<seq<Scalar>>, tol: real, b: seq<Scalar>)
    requires IsSquare(a) && IsRegularDiagonal(a, tol) && |b| == |a| && AllFiniteVec(b)
    ensures LuBackFrom(a, tol, b, 0) == Ok(DiagonalQuotients(a, b))
  {
    UpperSolves(a, tol, b);
    var z := LuBackFrom(a, tol, b, 0).value;
    forall i | 0 <= i < |a|
      ensures z[i] == DiagonalQuotients(a, b)[i]
    {
      DiagonalRowSolved(a, tol, b, z, i);
    }
    assert z == DiagonalQuotients(a, b);
  }

  lemma {:induction false} IdentityDiagProduct(n: nat, t: nat)
    requires t <= n
    ensures DiagProduct(IdentityRows(n), t) == 1.0
  {
    if t > 0 {
      IdentityDiagProduct(n, t - 1);
    }
  }

  /** The identity: the factors are the identity, the determinant is 1 and the solve
      returns the right-hand side unchanged. */
  lemma {:induction false} IdentityFactorSolve(n: nat, tol: real, b: Vector)
    requires 0.0 <= tol < 1.0 && |b.data| == n && AllFiniteVec(b.data)
    ensures FactorSpec(IdentityRows(n), tol) == Ok(Lu(IdentityRows(n), Identity(n), 1.0, tol))
    ensures DetSpec(FactorSpec(IdentityRows(n), tol).value) == Fin(1.0)
    ensures SolveSpec(FactorSpec(IdentityRows(n), tol).value, b) == Ok(b)
  {
    var e := IdentityRows(n);
    assert IsRegularDiagonal(e, tol);
    DiagonalFactor(e, tol);
    IdentityDiagProduct(n, n);
    DiagonalSolve(e, tol, b);
    assert DiagonalQuotients(e, b.data) == b.data;
  }

  /** Back substitution with a diagonal of ones as upper part (the identity) and tol
      below 1 leaves a finite vector unchanged. */
  lemma {:induction false} UnitDiagonalBackFrom(f: seq<seq<Scalar>>, tol: real, x: seq<Scalar>, ii: nat)
    requires IsSquare(f) && IsDiagonal(f) && forall k | 0 <= k < |f| :: f[k][k] == Fin(1.0)
    requires 0.0 <= tol < 1.0 && |x| == |f| && ii <= |f| && AllFiniteVec(x)
    ensures LuBackFrom(f, tol, x, ii) == Ok(x)
    decreases |f| - ii
  {
    if ii < |f| {
      var i := |f| - 1 - ii;
      SubAccZeroCoef(f[i], x, x[i], i + 1, |f|);
      DivByOne(x[i]);
      UpdateSame(x, i);
      UnitDiagonalBackFrom(f, tol, x, ii + 1);
    }
  }

  lemma DivByOne(y: Scalar)
    requires y.Fin?
    ensures Div(y, Fin(1.0)) == y
  {
    assert y.v / 1.0 == y.v;
  }

  lemma UpdateSame(x: seq<Scalar>, i: nat)
    requires i < |x|
    ensures x[i := x[i]] == x
  {
  }

  /** A NaN or infinity anywhere in the first column is reported as
      `NonFinite { pivot_col: 0 }`, before any other check. */
  lemma {:induction false} NonFiniteFirstColumn(a: seq<seq<Scalar>>, tol: real, m: nat)
    requires IsSquare(a) && m < |a| && !a[m][0].Fin?
    ensures FactorSpec(a, tol) == Err(NonFinite(0))
  {
    StepErrors(State(a, Identity(|a|), 1.0), 0, tol);
  }

  /** The finiteness re-check of the pivot after the row exchange never fires: the pivot
      search has already seen that entry finite. */
  lemma {:induction false} PivotRecheckUnreachable(s: State, k: nat)
    requires ValidState(s) && k < |s.w| && Scan(s.w, k).Ok?
    ensures Exchange(s, k, Scan(s.w, k).value.0).w[k][k].Fin?
  {
    ScanFacts(s.w, k);
  }
}
