/** The cases of the unit tests of src/ldlt.rs, evaluated step by step in the model. The
    tests pass a default tolerance the snapshot does not define; each case here holds for
    every tolerance in a stated range that contains the small positive defaults. */
module LdltExamples {
  import opened Scalars
  import opened Storage
  import opened LaErrors
  import opened Vectors
  import opened Substitution
  import opened LdltEngine
  import opened LdltProofs
  import RealSums

  /** A step produces w' when its pivot d passes and w' holds the finite cells StepCell
      describes. The pivot is a parameter so that callers can pass it as a number. */
  lemma {:induction false} StepIs(w: seq<seq<Scalar>>, j: nat, d: Scalar, tol: real, w': seq<seq<Scalar>>)
    requires IsSquare(w) && j < |w| && IsSquare(w') && |w'| == |w| && AllFinite(w')
    requires d == w[j][j] && d.Fin? && d.v > tol
    requires forall r, c | 0 <= r < |w| && 0 <= c < |w| :: StepCell(w, j, d, r, c) == w'[r][c]
    ensures Step(w, j, tol) == Ok(w')
  {
    forall r | j < r < |w|
      ensures Div(w[r][j], d).Fin?
    {
      assert StepCell(w, j, d, r, j) == w'[r][j];
    }
    forall r, c | j < c <= r < |w|
      ensures StepCell(w, j, d, r, c).Fin?
    {
      assert w'[r][c].Fin?;
    }
    StepShape(w, j, tol);
    var v := Step(w, j, tol).value;
    forall r | 0 <= r < |w|
      ensures v[r] == w'[r]
    {
      assert forall c | 0 <= c < |w| :: v[r][c] == w'[r][c];
    }
    assert v == w';
  }

  /** Cell (r, c) of w' is what step j, with pivot d, makes of cell (r, c) of w. */
  predicate CellMatches(w: seq<seq<Scalar>>, j: nat, d: Scalar, w': seq<seq<Scalar>>, r: nat, c: nat)
    requires IsSquare(w) && j < |w| && r < |w| && c < |w| && IsSquare(w') && |w'| == |w|
  {
    StepCell(w, j, d, r, c) == w'[r][c]
  }

  /** StepIs for 2×2 rows, from the four cells one by one. */
  lemma {:induction false} StepIs2(w: seq<seq<Scalar>>, j: nat, d: Scalar, tol: real, w': seq<seq<Scalar>>)
    requires IsSquare(w) && |w| == 2 && j < 2 && IsSquare(w') && |w'| == 2 && AllFinite(w')
    requires d == w[j][j] && d.Fin? && d.v > tol
    requires CellMatches(w, j, d, w', 0, 0) && CellMatches(w, j, d, w', 0, 1)
    requires CellMatches(w, j, d, w', 1, 0) && CellMatches(w, j, d, w', 1, 1)
    ensures Step(w, j, tol) == Ok(w')
  {
    forall r, c | 0 <= r < 2 && 0 <= c < 2
      ensures StepCell(w, j, d, r, c) == w'[r][c]
    {
      assert CellMatches(w, j, d, w', r, c);
    }
    StepIs(w, j, d, tol, w');
  }

  /** StepIs for 3×3 rows, from the nine cells one by one. */
  lemma {:induction false} StepIs3(w: seq<seq<Scalar>>, j: nat, d: Scalar, tol: real, w': seq<seq<Scalar>>)
    requires IsSquare(w) && |w| == 3 && j < 3 && IsSquare(w') && |w'| == 3 && AllFinite(w')
    requires d == w[j][j] && d.Fin? && d.v > tol
    requires CellMatches(w, j, d, w', 0, 0) && CellMatches(w, j, d, w', 0, 1) && CellMatches(w, j, d, w', 0, 2)
    requires CellMatches(w, j, d, w', 1, 0) && CellMatches(w, j, d, w', 1, 1) && CellMatches(w, j, d, w', 1, 2)
    requires CellMatches(w, j, d, w', 2, 0) && CellMatches(w, j, d, w', 2, 1) && CellMatches(w, j, d, w', 2, 2)
    ensures Step(w, j, tol) == Ok(w')
  {
    forall r, c | 0 <= r < 3 && 0 <= c < 3
      ensures StepCell(w, j, d, r, c) == w'[r][c]
    {
      assert CellMatches(w, j, d, w', r, c);
    }
    StepIs(w, j, d, tol, w');
  }

  /** A multiplier cell: f[r][j] = lr·d gives l_r = lr. */
  lemma {:induction false} MultiplierCell(w: seq<seq<Scalar>>, j: nat, d: Scalar, r: nat, lr: real)
    requires IsSquare(w) && j < r < |w| && d.Fin? && d.v != 0.0
    requires w[r][j] == Fin(lr * d.v)
    ensures StepCell(w, j, d, r, j) == Fin(lr)
  {
  }

  /** A trailing cell: with l_r = lr and l_c = lc it becomes f[r][c] - lr·d·lc. */
  lemma {:induction false} UpdateCell(w: seq<seq<Scalar>>, j: nat, d: Scalar, r: nat, c: nat, lr: real, lc: real)
    requires IsSquare(w) && j < c <= r < |w| && d.Fin? && d.v != 0.0
    requires w[r][j] == Fin(lr * d.v) && w[c][j] == Fin(lc * d.v) && w[r][c].Fin?
    ensures StepCell(w, j, d, r, c) == Fin(w[r][c].v - lr * d.v * lc)
  {
    MultiplierCell(w, j, d, r, lr);
    MultiplierCell(w, j, d, c, lc);
  }

  /** Step 0 on 3×3 rows, given the multipliers l1 and l2 as numbers: the new rows are
      stated without a division, so that a caller with literal rows needs only linear
      arithmetic. */
  lemma {:induction false} FirstStep3(w: seq<seq<Scalar>>, d: Scalar, tol: real, l1: real, l2: real, w': seq<seq<Scalar>>)
    requires IsSquare(w) && |w| == 3 && AllFinite(w) && d == w[0][0] && d.Fin? && d.v > tol && d.v != 0.0
    requires w[1][0] == Fin(l1 * d.v) && w[2][0] == Fin(l2 * d.v)
    requires w' == [w[0],
                    [Fin(l1), Fin(w[1][1].v - l1 * d.v * l1), w[1][2]],
                    [Fin(l2), Fin(w[2][1].v - l2 * d.v * l1), Fin(w[2][2].v - l2 * d.v * l2)]]
    ensures Step(w, 0, tol) == Ok(w')
  {
    MultiplierCell(w, 0, d, 1, l1);
    MultiplierCell(w, 0, d, 2, l2);
    UpdateCell(w, 0, d, 1, 1, l1, l1);
    UpdateCell(w, 0, d, 2, 1, l2, l1);
    UpdateCell(w, 0, d, 2, 2, l2, l2);
    StepIs3(w, 0, d, tol, w');
  }

  /** Step 1 on 3×3 rows, given the multiplier l2 as a number. */
  lemma {:induction false} SecondStep3(w: seq<seq<Scalar>>, d: Scalar, tol: real, l2: real, w': seq<seq<Scalar>>)
    requires IsSquare(w) && |w| == 3 && AllFinite(w) && d == w[1][1] && d.Fin? && d.v > tol && d.v != 0.0
    requires w[2][1] == Fin(l2 * d.v)
    requires w' == [w[0], w[1], [w[2][0], Fin(l2), Fin(w[2][2].v - l2 * d.v * l2)]]
    ensures Step(w, 1, tol) == Ok(w')
  {
    MultiplierCell(w, 1, d, 2, l2);
    UpdateCell(w, 1, d, 2, 2, l2, l2);
    StepIs3(w, 1, d, tol, w');
  }

  function Spd2(): seq<seq<Scalar>> {
    [[Fin(4.0), Fin(2.0)], [Fin(2.0), Fin(3.0)]]
  }

  /** The factors of Spd2: D = (4, 2) and the multiplier 2/4 = 1/2; the entry above the
      diagonal is the input's. */
  function Spd2Factors(): seq<seq<Scalar>> {
    [[Fin(4.0), Fin(2.0)], [Fin(0.5), Fin(2.0)]]
  }

  /** [[4, 2], [2, 3]]: the second pivot is 3 - (1/2·4)·(1/2) = 2. */
  lemma Spd2Factor(tol: real)
    requires 0.0 <= tol < 2.0
    ensures FactorSpec(Spd2(), tol) == Ok(Ldlt(Spd2Factors(), tol))
  {
    var a := Spd2();
    var f := Spd2Factors();
    var w1 := [[Fin(4.0), Fin(2.0)], [Fin(0.5), Fin(3.0)]];
    assert Div(a[1][0], Fin(4.0)) == Fin(0.5);
    assert a[1][0 := Fin(0.5)] == w1[1];
    assert a[1 := a[1][0 := Fin(0.5)]] == w1;
    assert MultipliersFrom(w1, 0, 2, Fin(4.0)) == Ok(w1);
    assert MultipliersFrom(a, 0, 1, Fin(4.0)) == Ok(w1);
    assert Mul(w1[1][0], Fin(4.0)) == Fin(2.0);
    assert MulAdd(Neg(Fin(2.0)), w1[1][0], w1[1][1]) == Fin(2.0);
    assert w1[1][1 := Fin(2.0)] == f[1];
    assert w1[1 := w1[1][1 := Fin(2.0)]] == f;
    assert UpdateRowFrom(f, 0, 1, 2, Fin(2.0)) == Ok(f);
    assert UpdateRowFrom(w1, 0, 1, 1, Fin(2.0)) == Ok(f);
    assert UpdateFrom(f, 0, 2, Fin(4.0)) == Ok(f);
    assert UpdateFrom(w1, 0, 1, Fin(4.0)) == Ok(f);
    assert Step(a, 0, tol) == Ok(f);
    assert MultipliersFrom(f, 1, 2, Fin(2.0)) == Ok(f);
    assert UpdateFrom(f, 1, 2, Fin(2.0)) == Ok(f);
    assert Step(f, 1, tol) == Ok(f);
    assert FactorFrom(f, 2, tol) == Ok(f);
    assert FactorFrom(f, 1, tol) == Ok(f);
    assert FactorFrom(a, 0, tol) == Ok(f);
  }

  /** Its determinant is 4·2 = 8. */
  lemma Spd2Det(tol: real)
    ensures DetSpec(Ldlt(Spd2Factors(), tol)) == Fin(8.0)
  {
    var f := Spd2Factors();
    assert DiagFold(f, Fin(1.0), 1) == Fin(4.0);
    assert DiagFold(f, Fin(1.0), 2) == Fin(8.0);
  }

  /** b = [1, 2]: y = [1, 3/2], z = [1/4, 3/4], x = [-1/8, 3/4]. */
  lemma Spd2Solve(tol: real)
    requires 0.0 <= tol < 2.0
    ensures SolveSpec(Ldlt(Spd2Factors(), tol), Vector([Fin(1.0), Fin(2.0)])) ==
              Ok(Vector([Fin(-0.125), Fin(0.75)]))
  {
    var f := Spd2Factors();
    var b := [Fin(1.0), Fin(2.0)];
    assert SubAcc(f[0], b, b[0], 0, 0) == Fin(1.0);
    assert b[0 := Fin(1.0)] == b;
    var y := [Fin(1.0), Fin(1.5)];
    assert SubAcc(f[1], b, b[1], 0, 1) == Fin(1.5);
    assert b[1 := Fin(1.5)] == y;
    assert ForwardFrom(f, y, 2) == Ok(y);
    assert ForwardFrom(f, b, 1) == Ok(y);
    assert ForwardFrom(f, b, 0) == Ok(y);
    var y1 := [Fin(0.25), Fin(1.5)];
    var z := [Fin(0.25), Fin(0.75)];
    assert Div(Fin(1.0), Fin(4.0)) == Fin(0.25);
    assert y[0 := Fin(0.25)] == y1;
    assert Div(Fin(1.5), Fin(2.0)) == Fin(0.75);
    assert y1[1 := Fin(0.75)] == z;
    assert DiagFrom(f, tol, z, 2) == Ok(z);
    assert DiagFrom(f, tol, y1, 1) == Ok(z);
    assert DiagFrom(f, tol, y, 0) == Ok(z);
    var x := [Fin(-0.125), Fin(0.75)];
    assert SubAcc(Column(f, 1), z, z[1], 2, 2) == Fin(0.75);
    assert z[1 := Fin(0.75)] == z;
    assert Column(f, 0) == [Fin(4.0), Fin(0.5)];
    assert SubAcc(Column(f, 0), z, z[0], 1, 2) == Fin(-0.125);
    assert z[0 := Fin(-0.125)] == x;
    assert BackFrom(f, x, 2) == Ok(x);
    assert BackFrom(f, z, 1) == Ok(x);
    assert BackFrom(f, z, 0) == Ok(x);
  }

  function RankOne(): seq<seq<Scalar>> {
    [[Fin(1.0), Fin(1.0)], [Fin(1.0), Fin(1.0)]]
  }

  /** After step 0 of RankOne: the multiplier 1 and the remaining pivot 1 - 1·1 = 0. */
  function RankOneStep0(): seq<seq<Scalar>> {
    [[Fin(1.0), Fin(1.0)], [Fin(1.0), Fin(0.0)]]
  }

  lemma RankOneFirstStep(a: seq<seq<Scalar>>, tol: real)
    requires a == RankOne() && tol < 1.0
    ensures Step(a, 0, tol) == Ok(RankOneStep0())
  {
    var w1 := RankOneStep0();
    var d := Fin(1.0);
    assert CellMatches(a, 0, d, w1, 0, 0) && CellMatches(a, 0, d, w1, 0, 1);
    assert CellMatches(a, 0, d, w1, 1, 0) && CellMatches(a, 0, d, w1, 1, 1);
    StepIs2(a, 0, d, tol, w1);
  }

  /** The rank-one [[1, 1], [1, 1]]: the second pivot is 1 - 1·1 = 0, which is
      `Singular { pivot_col: 1 }`. */
  lemma SingularDetected(tol: real)
    requires 0.0 <= tol < 1.0
    ensures FactorSpec(RankOne(), tol) == Err(Singular(1))
  {
    RankOneFirstStep(RankOne(), tol);
    assert Step(RankOneStep0(), 1, tol) == Err(Singular(1));
  }

  /** A NaN pivot is `NonFinite { pivot_col: 0 }`. */
  lemma NonFiniteDetected(tol: real)
    ensures FactorSpec([[NonFin, Fin(0.0)], [Fin(0.0), Fin(1.0)]], tol) == Err(NonFinite(0))
  {
  }

  function Tridiagonal3(): seq<seq<Scalar>> {
    [[Fin(2.0), Fin(-1.0), Fin(0.0)], [Fin(-1.0), Fin(2.0), Fin(-1.0)], [Fin(0.0), Fin(-1.0), Fin(2.0)]]
  }

  /** The factors of the tridiagonal matrix: D = (2, 3/2, 4/3), multipliers -1/2 and -2/3. */
  function Tridiagonal3Factors(): seq<seq<Scalar>> {
    [[Fin(2.0), Fin(-1.0), Fin(0.0)], [Fin(-0.5), Fin(1.5), Fin(-1.0)], [Fin(0.0), Fin(-2.0 / 3.0), Fin(4.0 / 3.0)]]
  }

  /** Tridiagonal3 after step 0: multipliers -1/2 and 0, and 2 - (-1)·(-1/2) = 3/2. */
  function Tridiagonal3Step0(): seq<seq<Scalar>> {
    [[Fin(2.0), Fin(-1.0), Fin(0.0)], [Fin(-0.5), Fin(1.5), Fin(-1.0)], [Fin(0.0), Fin(-1.0), Fin(2.0)]]
  }

  lemma Tridiagonal3FirstStep(a: seq<seq<Scalar>>, tol: real)
    requires a == Tridiagonal3() && tol < 2.0
    ensures Step(a, 0, tol) == Ok(Tridiagonal3Step0())
  {
    FirstStep3(a, Fin(2.0), tol, -0.5, 0.0, Tridiagonal3Step0());
  }

  lemma Tridiagonal3SecondStep(w: seq<seq<Scalar>>, tol: real)
    requires w == Tridiagonal3Step0() && tol < 1.5
    ensures Step(w, 1, tol) == Ok(Tridiagonal3Factors())
  {
    SecondStep3(w, Fin(1.5), tol, -2.0 / 3.0, Tridiagonal3Factors());
  }

  lemma Tridiagonal3LastStep(f: seq<seq<Scalar>>, tol: real)
    requires f == Tridiagonal3Factors() && tol < 4.0 / 3.0
    ensures Step(f, 2, tol) == Ok(f)
  {
    var d := Fin(4.0 / 3.0);
    assert CellMatches(f, 2, d, f, 0, 0) && CellMatches(f, 2, d, f, 0, 1) && CellMatches(f, 2, d, f, 0, 2);
    assert CellMatches(f, 2, d, f, 1, 0) && CellMatches(f, 2, d, f, 1, 1) && CellMatches(f, 2, d, f, 1, 2);
    assert CellMatches(f, 2, d, f, 2, 0) && CellMatches(f, 2, d, f, 2, 1) && CellMatches(f, 2, d, f, 2, 2);
    StepIs3(f, 2, d, tol, f);
  }

  /** The tridiagonal [[2, -1, 0], [-1, 2, -1], [0, -1, 2]] factors without error. */
  lemma Tridiagonal3Factor(tol: real)
    requires 0.0 <= tol < 4.0 / 3.0
    ensures FactorSpec(Tridiagonal3(), tol) == Ok(Ldlt(Tridiagonal3Factors(), tol))
  {
    Tridiagonal3FirstStep(Tridiagonal3(), tol);
    Tridiagonal3SecondStep(Tridiagonal3Step0(), tol);
    Tridiagonal3LastStep(Tridiagonal3Factors(), tol);
  }

  lemma {:induction false} SumOfThree(f: int -> real)
    ensures RealSums.Sum(0, 3, f) == f(0) + f(1) + f(2)
  {
  }

  /** The real matrix of Tridiagonal3, entry by entry. */
  lemma {:induction false} Tridiagonal3Real()
    ensures RealOf(Tridiagonal3()) == [[2.0, -1.0, 0.0], [-1.0, 2.0, -1.0], [0.0, -1.0, 2.0]]
  {
    var r := RealOf(Tridiagonal3());
    assert r[0] == [2.0, -1.0, 0.0];
    assert r[1] == [-1.0, 2.0, -1.0];
    assert r[2] == [0.0, -1.0, 2.0];
  }

  /** [1, 1, 1] is the only solution of Tridiagonal3 · x = [1, 0, 1]. */
  lemma {:induction false} Tridiagonal3Unique(rx: seq<real>)
    requires |rx| == 3
    requires RealSums.MatVec([[2.0, -1.0, 0.0], [-1.0, 2.0, -1.0], [0.0, -1.0, 2.0]], rx) == [1.0, 0.0, 1.0]
    ensures rx == [1.0, 1.0, 1.0]
  {
    var ra := [[2.0, -1.0, 0.0], [-1.0, 2.0, -1.0], [0.0, -1.0, 2.0]];
    var y := RealSums.MatVec(ra, rx);
    var x0, x1, x2 := rx[0], rx[1], rx[2];
    SumOfThree(RealSums.VecTerm(ra, rx, 0));
    SumOfThree(RealSums.VecTerm(ra, rx, 1));
    SumOfThree(RealSums.VecTerm(ra, rx, 2));
    assert y[0] == 2.0 * x0 - x1;
    assert y[1] == -x0 + 2.0 * x1 - x2;
    assert y[2] == -x1 + 2.0 * x2;
  }

  lemma {:induction false} OneZeroOneReal()
    ensures RealVecOf([Fin(1.0), Fin(0.0), Fin(1.0)]) == [1.0, 0.0, 1.0]
  {
  }

  lemma {:induction false} AllOnesFromReal(x: seq<Scalar>)
    requires AllFiniteVec(x) && RealVecOf(x) == [1.0, 1.0, 1.0]
    ensures x == [Fin(1.0), Fin(1.0), Fin(1.0)]
  {
    assert RealVecOf(x)[0] == 1.0 && RealVecOf(x)[1] == 1.0 && RealVecOf(x)[2] == 1.0;
  }

  /** For b = [1, 0, 1] the solve returns x = [1, 1, 1]: whatever the solve returns
      satisfies A·x = b, and this system has no other solution. */
  lemma {:induction false} Tridiagonal3Solve(tol: real)
    requires 0.0 <= tol < 4.0 / 3.0
    ensures SolveSpec(Ldlt(Tridiagonal3Factors(), tol), Vector([Fin(1.0), Fin(0.0), Fin(1.0)])) ==
              Ok(Vector([Fin(1.0), Fin(1.0), Fin(1.0)]))
  {
    var a := Tridiagonal3();
    var b := Vector([Fin(1.0), Fin(0.0), Fin(1.0)]);
    Tridiagonal3Factor(tol);
    LdltSolves(a, tol, b);
    var x := SolveSpec(Ldlt(Tridiagonal3Factors(), tol), b).value.data;
    Tridiagonal3Real();
    OneZeroOneReal();
    Tridiagonal3Unique(RealVecOf(x));
    AllOnesFromReal(x);
  }
}
