/** LDLᵀ on diagonal matrices: no multiplier and no update touches them, so the factors
    are the matrix itself, the determinant is the product of the diagonal and the solve
    divides entry by entry. The identity is the case with every diagonal entry 1. */
module LdltSpecial {
  import opened Scalars
  import opened Storage
  import opened LaErrors
  import opened Vectors
  import opened Substitution
  import opened LdltEngine
  import LuSpecial

  /** A finite diagonal matrix whose diagonal entries all exceed tol >= 0 (a signed
      comparison, as the factorization's pivot test). */
  predicate IsPositiveDiagonal(a: seq<seq<Scalar>>, tol: real)
    requires IsSquare(a)
  {
    IsDiagonal(a) && AllFinite(a) && tol >= 0.0 && forall k | 0 <= k < |a| :: a[k][k].v > tol
  }

  /** Column j below a positive pivot holds zeros, so every multiplier is 0 and stays in
      place. */
  lemma {:induction false} DiagonalMultipliers(w: seq<seq<Scalar>>, j: nat, i: nat, tol: real)
    requires IsSquare(w) && j < i <= |w| && IsPositiveDiagonal(w, tol)
    ensures MultipliersFrom(w, j, i, w[j][j]) == Ok(w)
    decreases |w| - i
  {
    if i < |w| {
      var d := w[j][j];
      assert w[i][j] == Fin(0.0);
      LuSpecial.ZeroOver(d);
      assert w[i][j := Fin(0.0)] == w[i];
      assert w[i := w[i]] == w;
      DiagonalMultipliers(w, j, i + 1, tol);
    }
  }

  /** With lid = 0 the update of row i keeps every finite entry. */
  lemma {:induction false} ZeroUpdateRow(w: seq<seq<Scalar>>, j: nat, i: nat, k: nat)
    requires IsSquare(w) && j < k <= i + 1 && i < |w| && AllFinite(w)
    ensures UpdateRowFrom(w, j, i, k, Fin(0.0)) == Ok(w)
    decreases i + 1 - k
  {
    if k < i + 1 {
      var v := MulAdd(Neg(Fin(0.0)), w[k][j], w[i][k]);
      assert v == w[i][k];
      assert w[i][k := v] == w[i];
      assert w[i := w[i]] == w;
      ZeroUpdateRow(w, j, i, k + 1);
    }
  }

  lemma {:induction false} ZeroTimes(y: Scalar)
    requires y.Fin?
    ensures Mul(Fin(0.0), y) == Fin(0.0)
  {
  }

  /** Every row below a zero-column pivot is updated with lid = 0, which keeps it. */
  lemma {:induction false} DiagonalUpdate(w: seq<seq<Scalar>>, j: nat, i: nat, d: Scalar)
    requires IsSquare(w) && j < i <= |w| && AllFinite(w) && d.Fin?
    requires forall r | i <= r < |w| :: w[r][j] == Fin(0.0)
    ensures UpdateFrom(w, j, i, d) == Ok(w)
    decreases |w| - i
  {
    if i < |w| {
      ZeroColumnRow(w, j, i, d);
      DiagonalUpdate(w, j, i + 1, d);
      assert UpdateFrom(w, j, i, d) == UpdateFrom(w, j, i + 1, d);
      assert UpdateFrom(w, j, i + 1, d) == Ok(w);
      assert UpdateFrom(w, j, i, d) == Ok(w);
    } else {
      assert UpdateFrom(w, j, i, d) == Ok(w);
    }
  }

  /** A row with a zero in column j passes the update unchanged. */
  lemma ZeroColumnRow(w: seq<seq<Scalar>>, j: nat, i: nat, d: Scalar)
    requires IsSquare(w) && j < i < |w| && AllFinite(w) && d.Fin? && w[i][j] == Fin(0.0)
    ensures UpdateFrom(w, j, i, d) == UpdateFrom(w, j, i + 1, d)
  {
    ZeroTimes(d);
    ZeroUpdateRow(w, j, i, j + 1);
  }

  lemma {:induction false} DiagonalFactorFrom(w: seq<seq<Scalar>>, j: nat, tol: real)
    requires IsSquare(w) && j <= |w| && IsPositiveDiagonal(w, tol)
    ensures FactorFrom(w, j, tol) == Ok(w)
    decreases |w| - j
  {
    if j < |w| {
      DiagonalMultipliers(w, j, j + 1, tol);
      assert forall r | j + 1 <= r < |w| :: w[r][j] == Fin(0.0);
      DiagonalUpdate(w, j, j + 1, w[j][j]);
      assert Step(w, j, tol) == Ok(w);
      DiagonalFactorFrom(w, j + 1, tol);
    }
  }

  /** The factorization of a positive diagonal matrix is the matrix itself, and its
      determinant is the product of the diagonal entries. */
  lemma {:induction false} DiagonalFactor(a: seq<seq<Scalar>>, tol: real)
    requires IsSquare(a) && IsPositiveDiagonal(a, tol)
    ensures FactorSpec(a, tol) == Ok(Ldlt(a, tol))
    ensures DetSpec(Ldlt(a, tol)) == Fin(DiagProduct(a, |a|))
  {
    DiagonalFactorFrom(a, 0, tol);
    DiagFoldValue(a, 1.0, |a|);
  }

  /** z holds x[k] below row i and x[k] / a[k][k] from row i on. */
  predicate QuotientsFrom(a: seq<seq<Scalar>>, x: seq<Scalar>, i: nat, z: seq<Scalar>)
    requires IsSquare(a) && |x| == |a|
  {
    |z| == |x| && forall k | 0 <= k < |x| :: z[k] == if k < i then x[k] else Div(x[k], a[k][k])
  }

  /** The diagonal pass from row i divides each remaining entry by its diagonal. */
  lemma {:induction false} DiagonalDiagFrom(a: seq<seq<Scalar>>, tol: real, x: seq<Scalar>, i: nat)
    requires IsSquare(a) && IsPositiveDiagonal(a, tol) && |x| == |a| && i <= |a| && AllFiniteVec(x)
    ensures DiagFrom(a, tol, x, i).Ok? && QuotientsFrom(a, x, i, DiagFrom(a, tol, x, i).value)
    decreases |a| - i
  {
    if i < |a| {
      var x1 := x[i := Div(x[i], a[i][i])];
      DiagonalDiagFrom(a, tol, x1, i + 1);
      var z := DiagFrom(a, tol, x1, i + 1).value;
      assert DiagFrom(a, tol, x, i).value == z;
      forall k | 0 <= k < |x|
        ensures z[k] == if k < i then x[k] else Div(x[k], a[k][k])
      {
        assert QuotientsFrom(a, x1, i + 1, z);
      }
    }
  }

  lemma {:induction false} AllQuotients(a: seq<seq<Scalar>>, x: seq<Scalar>, z: seq<Scalar>)
    requires IsSquare(a) && |x| == |a| && QuotientsFrom(a, x, 0, z)
    ensures z == LuSpecial.DiagonalQuotients(a, x)
  {
  }

  /** Back substitution with Lᵀ = I returns its input. */
  lemma {:induction false} DiagonalBack(a: seq<seq<Scalar>>, x: seq<Scalar>, ii: nat)
    requires IsSquare(a) && IsDiagonal(a) && |x| == |a| && ii <= |a| && AllFiniteVec(x)
    ensures BackFrom(a, x, ii) == Ok(x)
    decreases |a| - ii
  {
    if ii < |a| {
      var i := |a| - 1 - ii;
      LuSpecial.SubAccZeroCoef(Column(a, i), x, x[i], i + 1, |a|);
      assert x[i := x[i]] == x;
      DiagonalBack(a, x, ii + 1);
    }
  }

  /** The solve is the three passes in turn. */
  lemma {:induction false} SolvePasses(l: Ldlt, b: Vector, y: seq<Scalar>, z: seq<Scalar>, x: seq<Scalar>)
    requires WellFormed(l) && |b.data| == |l.factors|
    requires ForwardFrom(l.factors, b.data, 0) == Ok(y) && |y| == |b.data|
    requires DiagFrom(l.factors, l.tol, y, 0) == Ok(z) && |z| == |b.data|
    requires BackFrom(l.factors, z, 0) == Ok(x)
    ensures SolveSpec(l, b) == Ok(Vector(x))
  {
  }

  lemma {:induction false} QuotientsFinite(a: seq<seq<Scalar>>, tol: real, b: seq<Scalar>)
    requires IsSquare(a) && IsPositiveDiagonal(a, tol) && |b| == |a| && AllFiniteVec(b)
    ensures AllFiniteVec(LuSpecial.DiagonalQuotients(a, b))
  {
    var q := LuSpecial.DiagonalQuotients(a, b);
    forall k | 0 <= k < |q|
      ensures q[k].Fin?
    {
      assert a[k][k].v > 0.0;
    }
  }

  /** Solving with the factors of a positive diagonal matrix divides each entry of a finite
      right-hand side by its diagonal entry. */
  lemma {:induction false} DiagonalSolve(a: seq<seq<Scalar>>, tol: real, b: Vector)
    requires IsSquare(a) && IsPositiveDiagonal(a, tol) && |b.data| == |a| && AllFiniteVec(b.data)
    ensures SolveSpec(Ldlt(a, tol), b) == Ok(Vector(LuSpecial.DiagonalQuotients(a, b.data)))
  {
    var q := LuSpecial.DiagonalQuotients(a, b.data);
    LuSpecial.DiagonalForward(a, b.data, 0);
    DiagonalDiagFrom(a, tol, b.data, 0);
    AllQuotients(a, b.data, DiagFrom(a, tol, b.data, 0).value);
    QuotientsFinite(a, tol, b.data);
    DiagonalBack(a, q, 0);
    SolvePasses(Ldlt(a, tol), b, b.data, q, q);
  }

  /** The identity: the factors are the identity, the determinant is 1 and the solve
      returns the right-hand side, for every tolerance below 1. */
  lemma {:induction false} IdentityFactorSolve(n: nat, tol: real, b: Vector)
    requires 0.0 <= tol < 1.0 && |b.data| == n && AllFiniteVec(b.data)
    ensures FactorSpec(IdentityRows(n), tol) == Ok(Ldlt(IdentityRows(n), tol))
    ensures DetSpec(Ldlt(IdentityRows(n), tol)) == Fin(1.0)
    ensures SolveSpec(Ldlt(IdentityRows(n), tol), b) == Ok(b)
  {
    var e := IdentityRows(n);
    assert IsPositiveDiagonal(e, tol);
    DiagonalFactor(e, tol);
    LuSpecial.IdentityDiagProduct(n, n);
    DiagonalSolve(e, tol, b);
    assert LuSpecial.DiagonalQuotients(e, b.data) == b.data;
  }
}
