/** The cases of the unit tests of src/lu.rs, evaluated step by step in the model. */
module LuExamples {
  import opened Scalars
  import opened Storage
  import opened LaErrors
  import opened Permutations
  import opened Vectors
  import opened Substitution
  import opened LuEngine
  import opened LuSpecial

  /** [[1, 2], [2, 4]] has rank one: after eliminating column 0 the second pivot is 0,
      so the factorization reports `Singular { pivot_col: 1 }`. */
  lemma SingularDetected()
    ensures FactorSpec([[Fin(1.0), Fin(2.0)], [Fin(2.0), Fin(4.0)]], DefaultPivotTol) == Err(Singular(1))
  {
    var tol := DefaultPivotTol;
    var a := [[Fin(1.0), Fin(2.0)], [Fin(2.0), Fin(4.0)]];
    var s0 := State(a, Identity(2), 1.0);
    assert ScanFrom(a, 0, 2, 1, 2.0) == Ok((1, 2.0));
    assert ScanFrom(a, 0, 1, 0, 1.0) == Ok((1, 2.0));
    assert Scan(a, 0) == Ok((1, 2.0));
    var w1 := [[Fin(2.0), Fin(4.0)], [Fin(1.0), Fin(2.0)]];
    assert Swap(a, 0, 1) == w1;
    var s1 := Exchange(s0, 0, 1);
    assert s1.w == w1;
    var row := EliminatedRow(w1[1], w1[0], Fin(0.5), 0);
    assert row == [Fin(0.5), Fin(0.0)];
    var w2 := [[Fin(2.0), Fin(4.0)], [Fin(0.5), Fin(0.0)]];
    assert Div(w1[1][0], Fin(2.0)) == Fin(0.5);
    assert w1[1 := row] == w2;
    assert EliminateFrom(w2, 0, 2, Fin(2.0)) == Ok(w2);
    assert EliminateFrom(w1, 0, 1, Fin(2.0)) == Ok(w2);
    var s2 := State(w2, s1.piv, s1.sign);
    assert Step(s0, 0, tol) == Ok(s2);
    assert ScanFrom(w2, 1, 2, 1, 0.0) == Ok((1, 0.0));
    assert Scan(w2, 1) == Ok((1, 0.0));
    assert Step(s2, 1, tol) == Err(Singular(1));
    assert FactorFrom(s2, 1, tol) == Err(Singular(1));
    assert FactorFrom(s0, 0, tol) == Err(Singular(1));
  }

  function SwapMatrix(): seq<seq<Scalar>> {
    [[Fin(0.0), Fin(1.0)], [Fin(1.0), Fin(0.0)]]
  }

  function IdentityRows2(): seq<seq<Scalar>> {
    [[Fin(1.0), Fin(0.0)], [Fin(0.0), Fin(1.0)]]
  }

  /** [[0, 1], [1, 0]] needs the row exchange: the factors are the identity, and the
      permutation is [1, 0] with sign -1. */
  lemma PivotingFactor()
    ensures FactorSpec(SwapMatrix(), DefaultPivotTol) == Ok(Lu(IdentityRows2(), [1, 0], -1.0, DefaultPivotTol))
  {
    var tol := DefaultPivotTol;
    var a := SwapMatrix();
    var id := IdentityRows2();
    var s0 := State(a, Identity(2), 1.0);
    assert ScanFrom(a, 0, 2, 1, 1.0) == Ok((1, 1.0));
    assert ScanFrom(a, 0, 1, 0, 0.0) == Ok((1, 1.0));
    assert Scan(a, 0) == Ok((1, 1.0));
    assert Swap(a, 0, 1) == id;
    assert Swap(Identity(2), 0, 1) == [1, 0];
    var s1 := Exchange(s0, 0, 1);
    assert s1 == State(id, [1, 0], -1.0);
    assert Div(id[1][0], Fin(1.0)) == Fin(0.0);
    assert EliminatedRow(id[1], id[0], Fin(0.0), 0) == id[1];
    assert id[1 := id[1]] == id;
    assert EliminateFrom(id, 0, 2, Fin(1.0)) == Ok(id);
    assert EliminateFrom(id, 0, 1, Fin(1.0)) == Ok(id);
    assert Step(s0, 0, tol) == Ok(s1);
    assert ScanFrom(id, 1, 2, 1, 1.0) == Ok((1, 1.0));
    assert Scan(id, 1) == Ok((1, 1.0));
    assert EliminateFrom(id, 1, 2, Fin(1.0)) == Ok(id);
    assert Step(s1, 1, tol) == Ok(s1);
    assert FactorFrom(s1, 2, tol) == Ok(s1);
    assert FactorFrom(s1, 1, tol) == Ok(s1);
    assert FactorFrom(s0, 0, tol) == Ok(s1);
  }

  /** Its determinant is the sign of the exchange, -1. */
  lemma PivotingDet()
    ensures DetSpec(Lu(IdentityRows2(), [1, 0], -1.0, DefaultPivotTol)) == Fin(-1.0)
  {
    var id := IdentityRows2();
    assert DiagFold(id, Fin(-1.0), 1) == Fin(-1.0);
    assert DiagFold(id, Fin(-1.0), 2) == Fin(-1.0);
  }

  /** b = [1, 2] is solved by x = [2, 1], for every tol in [0, 1). */
  lemma PivotingSolve(tol: real)
    requires 0.0 <= tol < 1.0
    ensures SolveSpec(Lu(IdentityRows2(), [1, 0], -1.0, tol), Vector([Fin(1.0), Fin(2.0)])) ==
              Ok(Vector([Fin(2.0), Fin(1.0)]))
  {
    var pb := [Fin(2.0), Fin(1.0)];
    var id := IdentityRows2();
    assert Permuted([Fin(1.0), Fin(2.0)], [1, 0]) == pb;
    assert IsDiagonal(id) && forall k | 0 <= k < 2 :: id[k][k] == Fin(1.0);
    DiagonalForward(id, pb, 0);
    UnitDiagonalBackFrom(id, tol, pb, 0);
  }

  function Basic(): seq<seq<Scalar>> {
    [[Fin(1.0), Fin(2.0)], [Fin(3.0), Fin(4.0)]]
  }

  function BasicFactors(): seq<seq<Scalar>> {
    [[Fin(3.0), Fin(4.0)], [Fin(1.0 / 3.0), Fin(2.0 / 3.0)]]
  }

  /** [[1, 2], [3, 4]]: row 1 holds the larger entry of column 0, so it becomes the first
      pivot row; the multiplier is 1/3 and the second pivot 2 - (1/3)·4 = 2/3. */
  lemma BasicFactor()
    ensures FactorSpec(Basic(), DefaultPivotTol) == Ok(Lu(BasicFactors(), [1, 0], -1.0, DefaultPivotTol))
  {
    var tol := DefaultPivotTol;
    var a := Basic();
    var f := BasicFactors();
    var s0 := State(a, Identity(2), 1.0);
    assert ScanFrom(a, 0, 2, 1, 3.0) == Ok((1, 3.0));
    assert ScanFrom(a, 0, 1, 0, 1.0) == Ok((1, 3.0));
    assert Scan(a, 0) == Ok((1, 3.0));
    var w1 := [[Fin(3.0), Fin(4.0)], [Fin(1.0), Fin(2.0)]];
    assert Swap(a, 0, 1) == w1;
    assert Swap(Identity(2), 0, 1) == [1, 0];
    var s1 := Exchange(s0, 0, 1);
    assert s1 == State(w1, [1, 0], -1.0);
    assert Div(w1[1][0], Fin(3.0)) == Fin(1.0 / 3.0);
    assert MulAdd(Neg(Fin(1.0 / 3.0)), w1[0][1], w1[1][1]) == Fin(2.0 / 3.0);
    assert EliminatedRow(w1[1], w1[0], Fin(1.0 / 3.0), 0) == f[1];
    assert w1[1 := f[1]] == f;
    assert EliminateFrom(f, 0, 2, Fin(3.0)) == Ok(f);
    assert EliminateFrom(w1, 0, 1, Fin(3.0)) == Ok(f);
    var s2 := State(f, [1, 0], -1.0);
    assert Step(s0, 0, tol) == Ok(s2);
    assert ScanFrom(f, 1, 2, 1, 2.0 / 3.0) == Ok((1, 2.0 / 3.0));
    assert Scan(f, 1) == Ok((1, 2.0 / 3.0));
    assert EliminateFrom(f, 1, 2, Fin(2.0 / 3.0)) == Ok(f);
    assert Step(s2, 1, tol) == Ok(s2);
    assert FactorFrom(s2, 2, tol) == Ok(s2);
    assert FactorFrom(s2, 1, tol) == Ok(s2);
    assert FactorFrom(s0, 0, tol) == Ok(s2);
  }

  /** Its determinant: -1 · 3 · 2/3 = -2 = 1·4 - 2·3. */
  lemma BasicDet()
    ensures DetSpec(Lu(BasicFactors(), [1, 0], -1.0, DefaultPivotTol)) == Fin(-2.0)
  {
    var f := BasicFactors();
    assert DiagFold(f, Fin(-1.0), 1) == Fin(-3.0);
    assert DiagFold(f, Fin(-1.0), 2) == Fin(-2.0);
  }

  /** b = [5, 11] is solved by x = [1, 2]. */
  lemma BasicSolve()
    ensures SolveSpec(Lu(BasicFactors(), [1, 0], -1.0, DefaultPivotTol), Vector([Fin(5.0), Fin(11.0)])) ==
              Ok(Vector([Fin(1.0), Fin(2.0)]))
  {
    var tol := DefaultPivotTol;
    var f := BasicFactors();
    var pb := [Fin(11.0), Fin(5.0)];
    assert Permuted([Fin(5.0), Fin(11.0)], [1, 0]) == pb;
    assert SubAcc(f[0], pb, pb[0], 0, 0) == Fin(11.0);
    assert pb[0 := Fin(11.0)] == pb;
    var y := [Fin(11.0), Fin(4.0 / 3.0)];
    assert SubAcc(f[1], pb, pb[1], 0, 1) == Fin(4.0 / 3.0);
    assert pb[1 := Fin(4.0 / 3.0)] == y;
    assert ForwardFrom(f, y, 2) == Ok(y);
    assert ForwardFrom(f, pb, 1) == Ok(y);
    assert ForwardFrom(f, pb, 0) == Ok(y);
    var y1 := [Fin(11.0), Fin(2.0)];
    assert SubAcc(f[1], y, y[1], 2, 2) == Fin(4.0 / 3.0);
    assert Div(Fin(4.0 / 3.0), Fin(2.0 / 3.0)) == Fin(2.0);
    assert y[1 := Fin(2.0)] == y1;
    var x := [Fin(1.0), Fin(2.0)];
    assert SubAcc(f[0], y1, y1[0], 1, 2) == Fin(3.0);
    assert Div(Fin(3.0), Fin(3.0)) == Fin(1.0);
    assert y1[0 := Fin(1.0)] == x;
    assert LuBackFrom(f, tol, x, 2) == Ok(x);
    assert LuBackFrom(f, tol, y1, 1) == Ok(x);
    assert LuBackFrom(f, tol, y, 0) == Ok(x);
  }
}
