/** What the LDLᵀ factorization and solve promise: the cells each step writes, error
    precedence, the diagonal after success, a positive determinant, A = L·D·Lᵀ in exact
    arithmetic, and A·x = b for the solve. */
module LdltProofs {
  import opened Scalars
  import opened Storage
  import opened RealSums
  import opened LaErrors
  import opened Vectors
  import opened Substitution
  import opened LdltEngine
  import LuProofs

  // ---------------------------------------------------------------------------
  // The cells of one step.

  /** Entry (r, c) after step j with pivot d, in terms of the entries before it: rows up to
      j, columns left of j and the strict upper triangle are kept; column j below the
      pivot holds the multipliers l_r = f[r][j] / d; and each lower cell j < c <= r of the
      trailing block becomes f[r][c] - (l_r·d)·l_c. */
  function StepCell(w: seq<seq<Scalar>>, j: nat, d: Scalar, r: nat, c: nat): Scalar
    requires IsSquare(w) && j < |w| && r < |w| && c < |w|
  {
    if r <= j || c < j || c > r then w[r][c]
    else if c == j then Div(w[r][j], d)
    else MulAdd(Neg(Mul(Div(w[r][j], d), d)), Div(w[c][j], d), w[r][c])
  }

  /** The rows after the multipliers of column j, rows i and below. */
  function Multiplied(w: seq<seq<Scalar>>, j: nat, i: nat, d: Scalar): (m: seq<seq<Scalar>>)
    requires IsSquare(w) && j < |w|
    ensures |m| == |w| && IsSquare(m)
  {
    seq(|w|, r requires 0 <= r < |w| => if r >= i then w[r][j := Div(w[r][j], d)] else w[r])
  }

  lemma {:induction false} MultipliersShape(w: seq<seq<Scalar>>, j: nat, i: nat, d: Scalar)
    requires IsSquare(w) && j < i <= |w|
    ensures MultipliersFrom(w, j, i, d).Ok? <==> forall r | i <= r < |w| :: Div(w[r][j], d).Fin?
    ensures MultipliersFrom(w, j, i, d).Ok? ==> MultipliersFrom(w, j, i, d).value == Multiplied(w, j, i, d)
    decreases |w| - i
  {
    if i == |w| {
      assert Multiplied(w, j, i, d) == w;
    } else {
      var l := Div(w[i][j], d);
      if l.Fin? {
        var w1 := w[i := w[i][j := l]];
        assert forall r | i < r < |w| :: w1[r] == w[r];
        MultipliersShape(w1, j, i + 1, d);
        assert Multiplied(w1, j, i + 1, d) == Multiplied(w, j, i, d);
      }
    }
  }

  /** Row i after the trailing update of step j for columns k, ..., i. */
  function RowUpdated(w: seq<seq<Scalar>>, j: nat, i: nat, k: nat, lid: Scalar): (row: seq<Scalar>)
    requires IsSquare(w) && i < |w| && j < |w|
    ensures |row| == |w|
  {
    seq(|w|, c requires 0 <= c < |w| => if k <= c <= i then MulAdd(Neg(lid), w[c][j], w[i][c]) else w[i][c])
  }

  lemma {:induction false} UpdateRowShape(w: seq<seq<Scalar>>, j: nat, i: nat, k: nat, lid: Scalar)
    requires IsSquare(w) && j < k <= i + 1 && i < |w|
    ensures UpdateRowFrom(w, j, i, k, lid).Ok? <==>
              forall c | k <= c <= i :: MulAdd(Neg(lid), w[c][j], w[i][c]).Fin?
    ensures UpdateRowFrom(w, j, i, k, lid).Ok? ==>
              UpdateRowFrom(w, j, i, k, lid).value == w[i := RowUpdated(w, j, i, k, lid)]
    decreases i + 1 - k
  {
    if k == i + 1 {
      assert RowUpdated(w, j, i, k, lid) == w[i];
      assert w[i := w[i]] == w;
    } else {
      var v := MulAdd(Neg(lid), w[k][j], w[i][k]);
      if v.Fin? {
        var w1 := w[i := w[i][k := v]];
        UpdateRowShape(w1, j, i, k + 1, lid);
        forall c | k + 1 <= c <= i
          ensures MulAdd(Neg(lid), w1[c][j], w1[i][c]) == MulAdd(Neg(lid), w[c][j], w[i][c])
        {
          assert w1[c][j] == w[c][j];
        }
        var row1 := RowUpdated(w1, j, i, k + 1, lid);
        var row := RowUpdated(w, j, i, k, lid);
        forall c | 0 <= c < |w|
          ensures row1[c] == row[c]
        {
          if k + 1 <= c <= i {
            assert w1[c][j] == w[c][j];
          }
        }
        assert row1 == row;
        assert w1[i := row1] == w[i := row];
      }
    }
  }

  /** The rows after the trailing update of step j, rows i and below. */
  function Updated(w: seq<seq<Scalar>>, j: nat, i: nat, d: Scalar): (u: seq<seq<Scalar>>)
    requires IsSquare(w) && j < |w|
    ensures |u| == |w| && IsSquare(u)
  {
    seq(|w|, r requires 0 <= r < |w| => if r >= i then RowUpdated(w, j, r, j + 1, Mul(w[r][j], d)) else w[r])
  }

  lemma {:induction false} UpdateShape(w: seq<seq<Scalar>>, j: nat, i: nat, d: Scalar)
    requires IsSquare(w) && j < i <= |w|
    ensures UpdateFrom(w, j, i, d).Ok? <==>
              forall r, c | i <= r < |w| && j < c <= r :: MulAdd(Neg(Mul(w[r][j], d)), w[c][j], w[r][c]).Fin?
    ensures UpdateFrom(w, j, i, d).Ok? ==> UpdateFrom(w, j, i, d).value == Updated(w, j, i, d)
    decreases |w| - i
  {
    var n := |w|;
    if i == n {
      assert Updated(w, j, i, d) == w;
    } else {
      var lid := Mul(w[i][j], d);
      UpdateRowShape(w, j, i, j + 1, lid);
      var w1 := w[i := RowUpdated(w, j, i, j + 1, lid)];
      UpdatesFiniteSplit(w, j, i, d);
      if UpdateRowFrom(w, j, i, j + 1, lid).Ok? {
        assert UpdateFrom(w, j, i, d) == UpdateFrom(w1, j, i + 1, d);
        UpdateShape(w1, j, i + 1, d);
        UpdatedAfterRow(w, j, i, d);
      } else {
        assert UpdateFrom(w, j, i, d).Err?;
      }
    }
  }

  /** Every trailing value of the update from row i on is finite. */
  ghost predicate UpdatesFinite(w: seq<seq<Scalar>>, j: nat, i: nat, d: Scalar)
    requires IsSquare(w) && j < |w|
  {
    forall r, c | i <= r < |w| && j < c <= r :: MulAdd(Neg(Mul(w[r][j], d)), w[c][j], w[r][c]).Fin?
  }

  /** Updating row i first leaves column j and the rows below i as they were, so the
      finiteness condition splits into row i and the rest. */
  lemma UpdatesFiniteSplit(w: seq<seq<Scalar>>, j: nat, i: nat, d: Scalar)
    requires IsSquare(w) && j < i < |w|
    ensures var w1 := w[i := RowUpdated(w, j, i, j + 1, Mul(w[i][j], d))];
      UpdatesFinite(w, j, i, d) <==>
        (forall c | j + 1 <= c <= i :: MulAdd(Neg(Mul(w[i][j], d)), w[c][j], w[i][c]).Fin?) &&
        UpdatesFinite(w1, j, i + 1, d)
  {
    var w1 := w[i := RowUpdated(w, j, i, j + 1, Mul(w[i][j], d))];
    assert forall c | 0 <= c < |w| :: w1[c][j] == w[c][j];
    assert forall r | i + 1 <= r < |w| :: w1[r] == w[r];
  }

  /** The rows below i see the same update whether or not row i was updated first. */
  lemma UpdatedAfterRow(w: seq<seq<Scalar>>, j: nat, i: nat, d: Scalar)
    requires IsSquare(w) && j < i < |w|
    ensures Updated(w[i := RowUpdated(w, j, i, j + 1, Mul(w[i][j], d))], j, i + 1, d) == Updated(w, j, i, d)
  {
    var n := |w|;
    var w1 := w[i := RowUpdated(w, j, i, j + 1, Mul(w[i][j], d))];
    assert forall c | 0 <= c < n :: w1[c][j] == w[c][j];
    forall r | i + 1 <= r < n
      ensures RowUpdated(w1, j, r, j + 1, Mul(w1[r][j], d)) == RowUpdated(w, j, r, j + 1, Mul(w[r][j], d))
    {
      assert w1[r] == w[r];
    }
  }

  /** The multipliers and the trailing update of step j, composed, give `StepCell`. */
  lemma {:induction false} StepRows(w: seq<seq<Scalar>>, j: nat, d: Scalar)
    requires IsSquare(w) && j < |w|
    ensures forall r, c | j < c <= r < |w| ::
              var w1 := Multiplied(w, j, j + 1, d);
              MulAdd(Neg(Mul(w1[r][j], d)), w1[c][j], w1[r][c]) == StepCell(w, j, d, r, c)
    ensures forall r, c | 0 <= r < |w| && 0 <= c < |w| ::
              Updated(Multiplied(w, j, j + 1, d), j, j + 1, d)[r][c] == StepCell(w, j, d, r, c)
  {
  }

  /** Step j succeeds exactly when its pivot d = f[j][j] is finite and above tol and every
      multiplier and every new trailing value is finite; then each cell is `StepCell`. */
  lemma {:induction false} StepShape(w: seq<seq<Scalar>>, j: nat, tol: real)
    requires IsSquare(w) && j < |w|
    ensures Step(w, j, tol).Ok? <==>
              w[j][j].Fin? && w[j][j].v > tol &&
              (forall r | j < r < |w| :: Div(w[r][j], w[j][j]).Fin?) &&
              (forall r, c | j < c <= r < |w| :: StepCell(w, j, w[j][j], r, c).Fin?)
    ensures Step(w, j, tol).Ok? ==>
              forall r, c | 0 <= r < |w| && 0 <= c < |w| :: Step(w, j, tol).value[r][c] == StepCell(w, j, w[j][j], r, c)
  {
    var d := w[j][j];
    if d.Fin? && d.v > tol {
      MultipliersShape(w, j, j + 1, d);
      if MultipliersFrom(w, j, j + 1, d).Ok? {
        UpdateOfMultiplied(w, j, d);
      }
    }
  }

  /** The trailing update after the multipliers succeeds exactly when every `StepCell`
      below the diagonal is finite, and then it yields those cells. */
  lemma UpdateOfMultiplied(w: seq<seq<Scalar>>, j: nat, d: Scalar)
    requires IsSquare(w) && j < |w|
    ensures var w1 := Multiplied(w, j, j + 1, d);
      (UpdateFrom(w1, j, j + 1, d).Ok? <==> forall r, c | j < c <= r < |w| :: StepCell(w, j, d, r, c).Fin?) &&
      (UpdateFrom(w1, j, j + 1, d).Ok? ==>
         forall r, c | 0 <= r < |w| && 0 <= c < |w| :: UpdateFrom(w1, j, j + 1, d).value[r][c] == StepCell(w, j, d, r, c))
  {
    var w1 := Multiplied(w, j, j + 1, d);
    UpdateShape(w1, j, j + 1, d);
    StepRows(w, j, d);
    if forall r, c | j < c <= r < |w| :: StepCell(w, j, d, r, c).Fin? {
      forall r, c | j + 1 <= r < |w| && j < c <= r
        ensures MulAdd(Neg(Mul(w1[r][j], d)), w1[c][j], w1[r][c]).Fin?
      {
        assert StepCell(w, j, d, r, c).Fin?;
      }
    }
  }

  /** Error precedence at step j: a non-finite pivot is `NonFinite(j)` before any
      tolerance test, and `Singular(j)` is reported exactly when the pivot is finite and
      at most tol. The test is signed, so a negative pivot is singular whatever its
      magnitude. */
  lemma StepErrors(w: seq<seq<Scalar>>, j: nat, tol: real)
    requires IsSquare(w) && j < |w|
    ensures !w[j][j].Fin? ==> Step(w, j, tol) == Err(NonFinite(j))
    ensures Step(w, j, tol) == Err(Singular(j)) <==> w[j][j].Fin? && w[j][j].v <= tol
    ensures w[j][j].Fin? && w[j][j].v < 0.0 && tol >= 0.0 ==> Step(w, j, tol) == Err(Singular(j))
  {
  }

  /** The factorization writes only cells on or below the diagonal of rows j and below:
      every row above j and the strict upper triangle keep their entries, and each pivot
      D[m][m] it passes is finite and above tol. */
  lemma {:induction false} FactorFromShape(w: seq<seq<Scalar>>, j: nat, tol: real)
    requires IsSquare(w) && j <= |w|
    ensures FactorFrom(w, j, tol).Ok? ==>
              var f := FactorFrom(w, j, tol).value;
              (forall r | 0 <= r < j :: f[r] == w[r]) &&
              (forall r, c | 0 <= r < c < |w| :: f[r][c] == w[r][c]) &&
              (forall m | j <= m < |w| :: f[m][m].Fin? && f[m][m].v > tol)
    decreases |w| - j
  {
    if j < |w| && Step(w, j, tol).Ok? {
      StepKeeps(w, j, tol);
      FactorFromShape(Step(w, j, tol).value, j + 1, tol);
    }
  }

  /** Step j keeps rows 0..j and the strict upper triangle, and its pivot is finite and
      above tol. */
  lemma StepKeeps(w: seq<seq<Scalar>>, j: nat, tol: real)
    requires IsSquare(w) && j < |w| && Step(w, j, tol).Ok?
    ensures var w1 := Step(w, j, tol).value;
      (forall r | 0 <= r <= j :: w1[r] == w[r]) &&
      (forall r, c | 0 <= r < c < |w| :: w1[r][c] == w[r][c]) &&
      w1[j][j].Fin? && w1[j][j].v > tol
  {
    StepShape(w, j, tol);
    var w1 := Step(w, j, tol).value;
    forall r | 0 <= r <= j
      ensures w1[r] == w[r]
    {
      assert forall c | 0 <= c < |w| :: w1[r][c] == StepCell(w, j, w[j][j], r, c) == w[r][c];
    }
  }

  /** `Ldlt::factor`: rows are written only on and below the diagonal, so the strict upper
      triangle of the factors is the input's; every stored D[m][m] is finite and above
      tol; and an error names a column of the matrix. */
  lemma FactorShape(a: seq<seq<Scalar>>, tol: real)
    requires IsSquare(a)
    ensures FactorSpec(a, tol).Ok? ==>
              var f := FactorSpec(a, tol).value.factors;
              (forall r, c | 0 <= r < c < |a| :: f[r][c] == a[r][c]) &&
              (forall m | 0 <= m < |a| :: f[m][m].Fin? && f[m][m].v > tol)
  {
    FactorFromShape(a, 0, tol);
  }

  /** With tol >= 0 the determinant of a successful factorization is the product of the
      pivots, and it is positive. */
  lemma {:induction false} DetPositive(a: seq<seq<Scalar>>, tol: real)
    requires IsSquare(a) && tol >= 0.0 && FactorSpec(a, tol).Ok?
    ensures DetSpec(FactorSpec(a, tol).value) == Fin(DiagProduct(FactorSpec(a, tol).value.factors, |a|))
    ensures DiagProduct(FactorSpec(a, tol).value.factors, |a|) > 0.0
  {
    FactorShape(a, tol);
    var f := FactorSpec(a, tol).value.factors;
    DiagFoldValue(f, 1.0, |a|);
    assert forall m | 0 <= m < |a| :: Val(f, m, m) > 0.0;
    DiagProductPositive(f, |a|);
  }

  /** With every diagonal entry finite and above tol, the diagonal pass can only fail
      with a non-finite quotient. */
  lemma {:induction false} DiagFromNeverSingular(f: seq<seq<Scalar>>, tol: real, x: seq<Scalar>, i: nat)
    requires IsSquare(f) && |x| == |f| && i <= |f|
    requires forall m | 0 <= m < |f| :: f[m][m].Fin? && f[m][m].v > tol
    ensures DiagFrom(f, tol, x, i).Err? ==> DiagFrom(f, tol, x, i).error.NonFinite?
    decreases |f| - i
  {
    if i < |f| {
      var v := Div(x[i], f[i][i]);
      if v.Fin? {
        DiagFromNeverSingular(f, tol, x[i := v], i + 1);
      }
    }
  }

  /** For an `Ldlt` built by `Ldlt::factor`, `solve_vec` never reports `Singular`: the
      factorization has already checked each pivot against the same tol. */
  lemma SolveNeverSingular(a: seq<seq<Scalar>>, tol: real, b: Vector)
    requires IsSquare(a) && FactorSpec(a, tol).Ok? && |b.data| == |a|
    ensures SolveSpec(FactorSpec(a, tol).value, b).Err? ==> SolveSpec(FactorSpec(a, tol).value, b).error.NonFinite?
  {
    FactorShape(a, tol);
    var l := FactorSpec(a, tol).value;
    match ForwardFrom(l.factors, b.data, 0)
    case Err(e) =>
    case Ok(y) => DiagFromNeverSingular(l.factors, tol, y, 0);
  }

  // ---------------------------------------------------------------------------
  // A = L·D·Lᵀ in exact arithmetic.

  function Min(x: int, y: int): int {
    if x <= y then x else y
  }

  /** Entry (i, m) of the unit lower L stored in w. */
  function LCoef(w: seq<seq<Scalar>>, i: int, m: int): real {
    if m < i then Val(w, i, m) else if m == i then 1.0 else 0.0
  }

  /** The term L[i][m]·D[m]·L[k][m] of entry (i, k) of L·D·Lᵀ. */
  function SchurTerm(w: seq<seq<Scalar>>, i: int, k: int): int -> real {
    m => LCoef(w, i, m) * Val(w, m, m) * LCoef(w, k, m)
  }

  /** What entry (i, k), k <= i, of the input is in terms of the working rows after t
      steps: the rank-one terms of the finished columns plus, for a column not yet
      finished, the Schur complement entry still stored at (i, k). */
  function Recon(w: seq<seq<Scalar>>, i: int, k: int, t: int): real {
    Sum(0, Min(t, k + 1), SchurTerm(w, i, k)) + (if k >= t then Val(w, i, k) else 0.0)
  }

  ghost predicate Inv(a: seq<seq<Scalar>>, w: seq<seq<Scalar>>, t: nat) {
    IsSquare(a) && IsSquare(w) && |w| == |a| && t <= |a| && AllFinite(w) &&
    forall i, k | 0 <= k <= i < |a| :: Val(a, i, k) == Recon(w, i, k, t)
  }

  lemma InitialInv(a: seq<seq<Scalar>>)
    requires IsSquare(a) && AllFinite(a)
    ensures Inv(a, a, 0)
  {
  }

  /** Step t keeps every column left of t, so the rank-one terms of those columns stay. */
  lemma SchurPrefix(w: seq<seq<Scalar>>, w': seq<seq<Scalar>>, t: nat, i: nat, k: nat, q: nat)
    requires IsSquare(w) && IsSquare(w') && |w'| == |w| && t < |w| && i < |w| && k < |w| && q <= t
    requires forall r, c | 0 <= r < |w| && 0 <= c < t :: w'[r][c] == w[r][c]
    ensures Sum(0, q, SchurTerm(w', i, k)) == Sum(0, q, SchurTerm(w, i, k))
  {
    forall m | 0 <= m < q
      ensures SchurTerm(w', i, k)(m) == SchurTerm(w, i, k)(m)
    {
      assert Val(w', m, m) == Val(w, m, m);
      assert LCoef(w', i, m) == LCoef(w, i, m);
      assert LCoef(w', k, m) == LCoef(w, k, m);
    }
    SumExt(0, q, SchurTerm(w', i, k), SchurTerm(w, i, k));
  }

  /** A successful step t on finite rows with tol >= 0 keeps entry (i, k) of the input
      reconstructed, one column further on. */
  lemma {:induction false} StepKeepsRecon(w: seq<seq<Scalar>>, t: nat, tol: real, i: nat, k: nat)
    requires IsSquare(w) && AllFinite(w) && t < |w| && tol >= 0.0 && k <= i < |w|
    requires Step(w, t, tol).Ok?
    ensures Recon(Step(w, t, tol).value, i, k, t + 1) == Recon(w, i, k, t)
  {
    StepShape(w, t, tol);
    var w' := Step(w, t, tol).value;
    if k < t {
      SteppedPrefix(w, w', t);
      SchurPrefix(w, w', t, i, k, k + 1);
    } else if k == t {
      ReconPivotColumn(w, w', t, i);
    } else {
      ReconTrailing(w, w', t, i, k);
    }
  }

  /** The rows after step t, cell by cell, with a nonzero finite pivot. */
  ghost predicate SteppedRows(w: seq<seq<Scalar>>, w': seq<seq<Scalar>>, t: nat)
    requires IsSquare(w) && t < |w|
  {
    IsSquare(w') && |w'| == |w| && w[t][t].Fin? && w[t][t].v != 0.0 &&
    forall r, c | 0 <= r < |w| && 0 <= c < |w| :: w'[r][c] == StepCell(w, t, w[t][t], r, c)
  }

  /** Step t leaves the columns left of t alone. */
  lemma SteppedPrefix(w: seq<seq<Scalar>>, w': seq<seq<Scalar>>, t: nat)
    requires IsSquare(w) && t < |w| && SteppedRows(w, w', t)
    ensures forall r, c | 0 <= r < |w| && 0 <= c < t :: w'[r][c] == w[r][c]
  {
    forall r, c | 0 <= r < |w| && 0 <= c < t
      ensures w'[r][c] == w[r][c]
    {
      assert w'[r][c] == StepCell(w, t, w[t][t], r, c);
    }
  }

  /** The multiplier of column t that step t stores in row i >= t, read through `LCoef`. */
  lemma SteppedMultiplier(w: seq<seq<Scalar>>, w': seq<seq<Scalar>>, t: nat, i: nat)
    requires IsSquare(w) && AllFinite(w) && t <= i < |w| && SteppedRows(w, w', t)
    ensures LCoef(w', i, t) == if i == t then 1.0 else w[i][t].v / w[t][t].v
    ensures Val(w', t, t) == w[t][t].v
  {
    assert w'[t][t] == StepCell(w, t, w[t][t], t, t);
    if i != t {
      assert w'[i][t] == StepCell(w, t, w[t][t], i, t);
    }
  }

  /** Entry (i, t): the whole stored value moves into the rank-one term of column t. */
  lemma ReconPivotColumn(w: seq<seq<Scalar>>, w': seq<seq<Scalar>>, t: nat, i: nat)
    requires IsSquare(w) && AllFinite(w) && t <= i < |w| && SteppedRows(w, w', t)
    ensures Recon(w', i, t, t + 1) == Recon(w, i, t, t)
  {
    var d := w[t][t];
    SteppedPrefix(w, w', t);
    SchurPrefix(w, w', t, i, t, t);
    SteppedMultiplier(w, w', t, i);
    SteppedMultiplier(w, w', t, t);
    var li := if i == t then 1.0 else w[i][t].v / d.v;
    assert SchurTerm(w', i, t)(t) == li * d.v * 1.0;
    if i != t {
      DivTimesPivot(w[i][t].v, d.v);
    }
    ReconAtColumn(w, w', t, i, t);
  }

  /** Entry (i, k) with k > t: the rank-one term of column t is what step t subtracted. */
  lemma ReconTrailing(w: seq<seq<Scalar>>, w': seq<seq<Scalar>>, t: nat, i: nat, k: nat)
    requires IsSquare(w) && AllFinite(w) && t < k <= i < |w| && SteppedRows(w, w', t)
    ensures Recon(w', i, k, t + 1) == Recon(w, i, k, t)
  {
    var d := w[t][t];
    SteppedPrefix(w, w', t);
    SchurPrefix(w, w', t, i, k, t);
    SteppedMultiplier(w, w', t, i);
    SteppedMultiplier(w, w', t, k);
    var li := w[i][t].v / d.v;
    var lk := w[k][t].v / d.v;
    assert SchurTerm(w', i, k)(t) == li * d.v * lk;
    assert w'[i][k] == StepCell(w, t, d, i, k);
    assert Val(w', i, k) == -(li * d.v) * lk + Val(w, i, k);
    RankOneCancel(li, d.v, lk, Val(w, i, k));
    ReconAtColumn(w, w', t, i, k);
  }

  lemma DivTimesPivot(x: real, d: real)
    requires d != 0.0
    ensures x / d * d * 1.0 == x
  {
  }

  lemma RankOneCancel(a: real, b: real, c: real, e: real)
    ensures a * b * c + (-(a * b) * c + e) == e
  {
  }

  /** Entry (i, k) with k >= t: the new rank-one term of column t and what is left at
      (i, k) sum to what was stored there. */
  lemma ReconAtColumn(w: seq<seq<Scalar>>, w': seq<seq<Scalar>>, t: nat, i: nat, k: nat)
    requires t <= k <= i
    requires Sum(0, t, SchurTerm(w', i, k)) == Sum(0, t, SchurTerm(w, i, k))
    requires SchurTerm(w', i, k)(t) + (if k > t then Val(w', i, k) else 0.0) == Val(w, i, k)
    ensures Recon(w', i, k, t + 1) == Recon(w, i, k, t)
  {
    assert Min(t + 1, k + 1) == t + 1 && Min(t, k + 1) == t;
  }

  lemma {:induction false} StepKeepsInv(a: seq<seq<Scalar>>, w: seq<seq<Scalar>>, t: nat, tol: real)
    requires Inv(a, w, t) && t < |w| && tol >= 0.0 && Step(w, t, tol).Ok?
    ensures Inv(a, Step(w, t, tol).value, t + 1)
  {
    StepShape(w, t, tol);
    var w' := Step(w, t, tol).value;
    assert AllFinite(w') by {
      forall r, c | 0 <= r < |w| && 0 <= c < |w|
        ensures w'[r][c].Fin?
      {
        assert w'[r][c] == StepCell(w, t, w[t][t], r, c);
      }
    }
    forall i, k | 0 <= k <= i < |a|
      ensures Val(a, i, k) == Recon(w', i, k, t + 1)
    {
      StepKeepsRecon(w, t, tol, i, k);
    }
  }

  lemma {:induction false} FactorFromKeepsInv(a: seq<seq<Scalar>>, w: seq<seq<Scalar>>, t: nat, tol: real)
    requires Inv(a, w, t) && tol >= 0.0
    ensures FactorFrom(w, t, tol).Ok? ==> Inv(a, FactorFrom(w, t, tol).value, |a|)
    decreases |a| - t
  {
    if t < |a| && Step(w, t, tol).Ok? {
      StepKeepsInv(a, w, t, tol);
      FactorFromKeepsInv(a, Step(w, t, tol).value, t + 1, tol);
    }
  }

  /** D: the diagonal of the factors. */
  function DiagOf(f: seq<seq<Scalar>>): (dm: seq<seq<real>>)
    ensures |dm| == |f| && IsSquareR(dm)
  {
    seq(|f|, i => seq(|f|, j => if i == j then Val(f, i, i) else 0.0))
  }

  /** L·D·Lᵀ for the unit lower L and the diagonal D stored in the factors. */
  function Product(f: seq<seq<Scalar>>): (p: seq<seq<real>>)
    ensures |p| == |f| && IsSquareR(p)
  {
    MatMul(MatMul(LuProofs.LowerOf(f), DiagOf(f)), Transpose(LuProofs.LowerOf(f)))
  }

  lemma LowerAt(f: seq<seq<Scalar>>, i: nat, m: nat)
    requires i < |f| && m < |f|
    ensures At(LuProofs.LowerOf(f), i, m) == LCoef(f, i, m)
  {
  }

  /** Entry (i, m) of L·D is L[i][m]·D[m]. */
  lemma LowerDiagEntry(f: seq<seq<Scalar>>, i: nat, m: nat)
    requires i < |f| && m < |f|
    ensures MatMul(LuProofs.LowerOf(f), DiagOf(f))[i][m] == LCoef(f, i, m) * Val(f, m, m)
  {
    var t := MulTerm(LuProofs.LowerOf(f), DiagOf(f), i, m);
    forall p | 0 <= p < |f| && p != m
      ensures t(p) == 0.0
    {
      assert At(DiagOf(f), p, m) == 0.0;
    }
    SumSingle(0, |f|, t, m);
    LowerAt(f, i, m);
  }

  /** Entry (i, k) of L·D·Lᵀ is Σ_m L[i][m]·D[m]·L[k][m]. */
  lemma {:induction false} ProductEntry(f: seq<seq<Scalar>>, i: nat, k: nat)
    requires i < |f| && k < |f|
    ensures Product(f)[i][k] == Sum(0, |f|, SchurTerm(f, i, k))
  {
    var l := LuProofs.LowerOf(f);
    var ld := MatMul(l, DiagOf(f));
    var lt := Transpose(l);
    var t := MulTerm(ld, lt, i, k);
    forall m | 0 <= m < |f|
      ensures t(m) == SchurTerm(f, i, k)(m)
    {
      LowerDiagEntry(f, i, m);
      LowerAt(f, k, m);
      assert At(ld, i, m) == LCoef(f, i, m) * Val(f, m, m);
      assert At(lt, m, k) == LCoef(f, k, m);
    }
    SumExt(0, |f|, t, SchurTerm(f, i, k));
    assert Product(f) == MatMul(ld, lt);
  }

  /** The terms with m > k vanish, since L[k][m] = 0 there. */
  lemma SchurFull(f: seq<seq<Scalar>>, i: nat, k: nat)
    requires k < |f|
    ensures Sum(0, |f|, SchurTerm(f, i, k)) == Sum(0, k + 1, SchurTerm(f, i, k))
  {
    SumSplit(0, k + 1, |f|, SchurTerm(f, i, k));
    SumZero(k + 1, |f|, SchurTerm(f, i, k));
  }

  lemma SchurSymmetric(f: seq<seq<Scalar>>, i: nat, k: nat)
    ensures Sum(0, |f|, SchurTerm(f, i, k)) == Sum(0, |f|, SchurTerm(f, k, i))
  {
    forall m | 0 <= m < |f|
      ensures SchurTerm(f, i, k)(m) == SchurTerm(f, k, i)(m)
    {
    }
    SumExt(0, |f|, SchurTerm(f, i, k), SchurTerm(f, k, i));
  }

  /** `Ldlt::factor` on a finite matrix with tol >= 0, in exact arithmetic: the only
      possible error is a singular pivot, and on success the lower triangle of A (all
      the factorization reads) equals that of L·D·Lᵀ; for a symmetric A, A = L·D·Lᵀ. */
  lemma {:induction false} LdltFactorizes(a: seq<seq<Scalar>>, tol: real)
    requires IsSquare(a) && AllFinite(a) && tol >= 0.0
    ensures FactorSpec(a, tol).Err? ==> FactorSpec(a, tol).error.Singular?
    ensures FactorSpec(a, tol).Ok? ==>
              var f := FactorSpec(a, tol).value.factors;
              (forall i, k | 0 <= k <= i < |a| :: Val(a, i, k) == Product(f)[i][k]) &&
              (IsSymmetric(a) ==> RealOf(a) == Product(f))
  {
    InitialInv(a);
    FactorFromKeepsInv(a, a, 0, tol);
    FiniteFactorErrors(a, 0, tol);
    if FactorSpec(a, tol).Ok? {
      var f := FactorSpec(a, tol).value.factors;
      forall i, k | 0 <= k <= i < |a|
        ensures Val(a, i, k) == Product(f)[i][k]
      {
        ProductEntry(f, i, k);
        SchurFull(f, i, k);
        assert Min(|a|, k + 1) == k + 1;
      }
      if IsSymmetric(a) {
        forall i | 0 <= i < |a|
          ensures RealOf(a)[i] == Product(f)[i]
        {
          forall k | 0 <= k < |a|
            ensures RealOf(a)[i][k] == Product(f)[i][k]
          {
            if k > i {
              assert Val(a, i, k) == Val(a, k, i);
              ProductEntry(f, i, k);
              ProductEntry(f, k, i);
              SchurSymmetric(f, i, k);
            }
          }
        }
        assert RealOf(a) == Product(f);
      }
    }
  }

  /** On finite rows with tol >= 0 a step can only fail with `Singular`: a pivot above
      tol is non-zero, so every multiplier and every update is finite. */
  lemma {:induction false} FiniteStepErrors(w: seq<seq<Scalar>>, j: nat, tol: real)
    requires IsSquare(w) && AllFinite(w) && j < |w| && tol >= 0.0
    ensures Step(w, j, tol).Err? ==> Step(w, j, tol).error == Singular(j)
    ensures Step(w, j, tol).Ok? ==> AllFinite(Step(w, j, tol).value)
  {
    StepShape(w, j, tol);
    if w[j][j].v > tol {
      assert w[j][j].v != 0.0;
      forall r | j < r < |w|
        ensures Div(w[r][j], w[j][j]).Fin?
      {
      }
      forall r, c | j < c <= r < |w|
        ensures StepCell(w, j, w[j][j], r, c).Fin?
      {
      }
      var w': seq<seq<Scalar>> := Step(w, j, tol).value;
      forall r, c | 0 <= r < |w| && 0 <= c < |w|
        ensures w'[r][c].Fin?
      {
        assert w'[r][c] == StepCell(w, j, w[j][j], r, c);
      }
    }
  }

  lemma {:induction false} FiniteFactorErrors(w: seq<seq<Scalar>>, j: nat, tol: real)
    requires IsSquare(w) && AllFinite(w) && j <= |w| && tol >= 0.0
    ensures FactorFrom(w, j, tol).Err? ==> FactorFrom(w, j, tol).error.Singular?
    decreases |w| - j
  {
    if j < |w| {
      FiniteStepErrors(w, j, tol);
      if Step(w, j, tol).Ok? {
        FiniteFactorErrors(Step(w, j, tol).value, j + 1, tol);
      }
    }
  }

  // ---------------------------------------------------------------------------
  // Solving: L·y = b, D·z = y, Lᵀ·x = z, hence A·x = b.

  /** The diagonal solve over finite values with every pivot above tol >= 0 succeeds,
      keeps the rows before i and sets every later row m to y[m] / D[m]. */
  lemma {:induction false} DiagFromSolves(f: seq<seq<Scalar>>, tol: real, y: seq<Scalar>, i: nat)
    requires IsSquare(f) && |y| == |f| && i <= |f| && AllFiniteVec(y) && tol >= 0.0
    requires forall m | 0 <= m < |f| :: f[m][m].Fin? && f[m][m].v > tol
    ensures DiagFrom(f, tol, y, i).Ok?
    ensures var z := DiagFrom(f, tol, y, i).value;
      AllFiniteVec(z) && (forall m | 0 <= m < i :: z[m] == y[m]) &&
      (forall m | i <= m < |f| :: Val(f, m, m) * VVal(z, m) == VVal(y, m))
    decreases |f| - i
  {
    if i < |f| {
      var d := f[i][i];
      assert d.v != 0.0;
      var v := Div(y[i], d);
      assert d.v * v.v == y[i].v;
      DiagFromSolves(f, tol, y[i := v], i + 1);
    }
  }

  /** Entry i of D·z is D[i]·z[i]. */
  lemma DiagTimes(f: seq<seq<Scalar>>, z: seq<Scalar>, i: nat)
    requires IsSquare(f) && |z| == |f| && i < |f|
    ensures MatVec(DiagOf(f), RealVecOf(z))[i] == Val(f, i, i) * VVal(z, i)
  {
    var t := VecTerm(DiagOf(f), RealVecOf(z), i);
    forall j | 0 <= j < |f| && j != i
      ensures t(j) == 0.0
    {
      assert At(DiagOf(f), i, j) == 0.0;
    }
    SumSingle(0, |f|, t, i);
  }

  lemma {:induction false} DiagSolves(f: seq<seq<Scalar>>, tol: real, y: seq<Scalar>)
    requires IsSquare(f) && |y| == |f| && AllFiniteVec(y) && tol >= 0.0
    requires forall m | 0 <= m < |f| :: f[m][m].Fin? && f[m][m].v > tol
    ensures DiagFrom(f, tol, y, 0).Ok?
    ensures var z := DiagFrom(f, tol, y, 0).value;
      AllFiniteVec(z) && MatVec(DiagOf(f), RealVecOf(z)) == RealVecOf(y)
  {
    DiagFromSolves(f, tol, y, 0);
    var z := DiagFrom(f, tol, y, 0).value;
    forall m | 0 <= m < |f|
      ensures MatVec(DiagOf(f), RealVecOf(z))[m] == RealVecOf(y)[m]
    {
      DiagTimes(f, z, m);
    }
  }

  /** Row m of Lᵀ·x = z: x[m] + Σ_{j > m} L[j][m]·x[j] = z[m]. */
  ghost predicate TransRowHolds(f: seq<seq<Scalar>>, z: seq<Scalar>, x: seq<Scalar>, m: nat)
    requires IsSquare(f) && |z| == |f| && |x| == |f| && m < |f|
  {
    VVal(x, m) + Sum(m + 1, |f|, CoefTerm(Column(f, m), x)) == VVal(z, m)
  }

  ghost predicate TransSolved(f: seq<seq<Scalar>>, z: seq<Scalar>, x: seq<Scalar>, lo: int)
    requires IsSquare(f) && |z| == |f| && |x| == |f| && lo <= |f|
  {
    forall m | 0 <= m < lo :: TransRowHolds(f, z, x, m)
  }

  /** One step of the back substitution with finite values. */
  lemma {:induction false} BackStep(f: seq<seq<Scalar>>, z: seq<Scalar>, ii: nat)
    requires IsSquare(f) && |z| == |f| && ii < |f| && AllFinite(f) && AllFiniteVec(z)
    ensures var i := |f| - 1 - ii;
      var q := SubAcc(Column(f, i), z, z[i], i + 1, |f|);
      q == Fin(z[i].v - Sum(i + 1, |f|, CoefTerm(Column(f, i), z))) &&
      BackFrom(f, z, ii) == BackFrom(f, z[i := q], ii + 1)
  {
    var i := |f| - 1 - ii;
    SubAccValue(Column(f, i), z, z[i], i + 1, |f|);
  }

  lemma {:induction false} TransSolvedExtend(f: seq<seq<Scalar>>, z: seq<Scalar>, z': seq<Scalar>, x: seq<Scalar>, i: nat)
    requires IsSquare(f) && |z| == |f| && |z'| == |f| && |x| == |f| && i < |f|
    requires TransSolved(f, z', x, i)
    requires forall m | 0 <= m < i :: z'[m] == z[m]
    requires TransRowHolds(f, z, x, i)
    ensures TransSolved(f, z, x, i + 1)
  {
    forall m | 0 <= m < i + 1
      ensures TransRowHolds(f, z, x, m)
    {
      if m < i {
        assert TransRowHolds(f, z', x, m);
        assert VVal(z', m) == VVal(z, m);
      }
    }
  }

  /** Back substitution with Lᵀ over finite values succeeds, keeps the rows already done
      and leaves every other row solved. */
  lemma {:induction false} BackFromSolves(f: seq<seq<Scalar>>, z: seq<Scalar>, ii: nat)
    requires IsSquare(f) && |z| == |f| && ii <= |f| && AllFinite(f) && AllFiniteVec(z)
    ensures BackFrom(f, z, ii).Ok?
    ensures var x := BackFrom(f, z, ii).value;
      AllFiniteVec(x) && (forall m | |f| - ii <= m < |f| :: x[m] == z[m]) && TransSolved(f, z, x, |f| - ii)
    decreases |f| - ii
  {
    var n := |f|;
    if ii < n {
      var i := n - 1 - ii;
      BackStep(f, z, ii);
      var q := SubAcc(Column(f, i), z, z[i], i + 1, n);
      var z' := z[i := q];
      BackFromSolves(f, z', ii + 1);
      var x := BackFrom(f, z', ii + 1).value;
      TransRowFromStep(f, z, x, i, q);
      TransSolvedExtend(f, z, z', x, i);
      KeepsAbove(z, z', x, i, q);
    }
  }

  /** Row i holds once x[i] is z[i] less the terms of the rows already solved below it. */
  lemma TransRowFromStep(f: seq<seq<Scalar>>, z: seq<Scalar>, x: seq<Scalar>, i: nat, q: Scalar)
    requires IsSquare(f) && |z| == |f| && |x| == |f| && i < |f| && z[i].Fin?
    requires q == Fin(z[i].v - Sum(i + 1, |f|, CoefTerm(Column(f, i), z)))
    requires x[i] == q
    requires forall m | i + 1 <= m < |f| :: x[m] == z[m]
    ensures TransRowHolds(f, z, x, i)
  {
    var c := Column(f, i);
    CoefSumsAgree(c, z, x, i + 1, |f|);
    assert VVal(x, i) == z[i].v - Sum(i + 1, |f|, CoefTerm(c, z));
  }

  lemma KeepsAbove(z: seq<Scalar>, z': seq<Scalar>, x: seq<Scalar>, i: nat, q: Scalar)
    requires i < |z| && z' == z[i := q] && |x| == |z|
    requires forall m | i + 1 <= m < |z| :: x[m] == z'[m]
    ensures forall m | i + 1 <= m < |z| :: x[m] == z[m]
  {
  }

  /** Entry i of Lᵀ·x is x[i] + Σ_{j > i} L[j][i]·x[j]. */
  lemma {:induction false} TransTimes(f: seq<seq<Scalar>>, x: seq<Scalar>, i: nat)
    requires IsSquare(f) && |x| == |f| && i < |f|
    ensures MatVec(Transpose(LuProofs.LowerOf(f)), RealVecOf(x))[i] ==
              VVal(x, i) + Sum(i + 1, |f|, CoefTerm(Column(f, i), x))
  {
    var n := |f|;
    var t := VecTerm(Transpose(LuProofs.LowerOf(f)), RealVecOf(x), i);
    SumSplit(0, i, n, t);
    SumSplit(i, i + 1, n, t);
    TransTermsBefore(f, x, i);
    TransTermAt(f, x, i);
    TransTermsAfter(f, x, i);
  }

  /** Columns left of i of row i of Lᵀ are zero. */
  lemma TransTermsBefore(f: seq<seq<Scalar>>, x: seq<Scalar>, i: nat)
    requires IsSquare(f) && |x| == |f| && i < |f|
    ensures Sum(0, i, VecTerm(Transpose(LuProofs.LowerOf(f)), RealVecOf(x), i)) == 0.0
  {
    var lt := Transpose(LuProofs.LowerOf(f));
    var t := VecTerm(lt, RealVecOf(x), i);
    forall j | 0 <= j < i
      ensures t(j) == 0.0
    {
      LowerAt(f, j, i);
      assert At(lt, i, j) == 0.0;
    }
    SumZero(0, i, t);
  }

  /** The diagonal of Lᵀ is 1. */
  lemma TransTermAt(f: seq<seq<Scalar>>, x: seq<Scalar>, i: nat)
    requires IsSquare(f) && |x| == |f| && i < |f|
    ensures Sum(i, i + 1, VecTerm(Transpose(LuProofs.LowerOf(f)), RealVecOf(x), i)) == VVal(x, i)
  {
    var lt := Transpose(LuProofs.LowerOf(f));
    var t := VecTerm(lt, RealVecOf(x), i);
    LowerAt(f, i, i);
    assert At(lt, i, i) == 1.0;
    assert AtV(RealVecOf(x), i) == VVal(x, i);
    assert Sum(i, i + 1, t) == t(i) == VVal(x, i);
  }

  /** Right of the diagonal, row i of Lᵀ is column i of the stored multipliers. */
  lemma TransTermsAfter(f: seq<seq<Scalar>>, x: seq<Scalar>, i: nat)
    requires IsSquare(f) && |x| == |f| && i < |f|
    ensures Sum(i + 1, |f|, VecTerm(Transpose(LuProofs.LowerOf(f)), RealVecOf(x), i)) ==
              Sum(i + 1, |f|, CoefTerm(Column(f, i), x))
  {
    var lt := Transpose(LuProofs.LowerOf(f));
    var t := VecTerm(lt, RealVecOf(x), i);
    forall j | i + 1 <= j < |f|
      ensures t(j) == CoefTerm(Column(f, i), x)(j)
    {
      LowerAt(f, j, i);
      assert At(lt, i, j) == Val(f, j, i) == VVal(Column(f, i), j);
    }
    SumExt(i + 1, |f|, t, CoefTerm(Column(f, i), x));
  }

  lemma {:induction false} TransSolves(f: seq<seq<Scalar>>, z: seq<Scalar>)
    requires IsSquare(f) && |z| == |f| && AllFinite(f) && AllFiniteVec(z)
    ensures BackFrom(f, z, 0).Ok?
    ensures var x := BackFrom(f, z, 0).value;
      AllFiniteVec(x) && MatVec(Transpose(LuProofs.LowerOf(f)), RealVecOf(x)) == RealVecOf(z)
  {
    BackFromSolves(f, z, 0);
    var x := BackFrom(f, z, 0).value;
    forall m | 0 <= m < |f|
      ensures MatVec(Transpose(LuProofs.LowerOf(f)), RealVecOf(x))[m] == RealVecOf(z)[m]
    {
      assert TransRowHolds(f, z, x, m);
      TransTimes(f, x, m);
    }
  }

  /** `Ldlt::solve_vec` after a successful `Ldlt::factor` of a finite symmetric matrix,
      with tol >= 0 and a finite right-hand side, in exact arithmetic: it succeeds, and
      its finite result x satisfies A·x = b. */
  lemma {:induction false} LdltSolves(a: seq<seq<Scalar>>, tol: real, b: Vector)
    requires IsSquare(a) && AllFinite(a) && IsSymmetric(a) && tol >= 0.0
    requires |b.data| == |a| && AllFiniteVec(b.data) && FactorSpec(a, tol).Ok?
    ensures SolveSpec(FactorSpec(a, tol).value, b).Ok?
    ensures var x := SolveSpec(FactorSpec(a, tol).value, b).value.data;
      AllFiniteVec(x) && MatVec(RealOf(a), RealVecOf(x)) == RealVecOf(b.data)
  {
    var l := FactorSpec(a, tol).value;
    var f := l.factors;
    InitialInv(a);
    FactorFromKeepsInv(a, a, 0, tol);
    assert AllFinite(f);
    FactorShape(a, tol);
    LdltFactorizes(a, tol);
    LuProofs.LowerSolves(f, b.data);
    var y := ForwardFrom(f, b.data, 0).value;
    DiagSolves(f, tol, y);
    var z := DiagFrom(f, tol, y, 0).value;
    TransSolves(f, z);
    var x := BackFrom(f, z, 0).value;
    var lm := LuProofs.LowerOf(f);
    var dm := DiagOf(f);
    MatVecAssoc(MatMul(lm, dm), Transpose(lm), RealVecOf(x));
    MatVecAssoc(lm, dm, RealVecOf(z));
  }
}
