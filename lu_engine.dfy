/** LU decomposition with partial pivoting, PA = LU (src/lu.rs): the factorization, the
    solve and the determinant. Each routine works in place on a local copy, as the source
    does; the functions beside them state, step by step, what each returns. */
module LuEngine {
  import opened Scalars
  import opened Storage
  import opened LaErrors
  import opened Permutations
  import opened Vectors
  import opened Substitution

  /** `Lu<D>`: the combined factors (multipliers of the unit lower L strictly below the
      diagonal, U on and above it), the row permutation (`piv[i]` is the original row now
      at row i), the sign of that permutation, and the tolerance used. */
  datatype Lu = Lu(factors: seq<seq<Scalar>>, piv: seq<nat>, pivSign: real, tol: real)

  predicate WellFormed(lu: Lu) {
    IsSquare(lu.factors) && |lu.piv| == |lu.factors| &&
    forall i | 0 <= i < |lu.piv| :: lu.piv[i] < |lu.piv|
  }

  /** The factorization between two elimination steps. */
  datatype State = State(w: seq<seq<Scalar>>, piv: seq<nat>, sign: real)

  predicate ValidState(s: State) {
    IsSquare(s.w) && |s.piv| == |s.w|
  }

  // ---------------------------------------------------------------------------
  // Step k, as a function of the state before it.

  /** The pivot search over rows r, r + 1, ..., n - 1 of column k, given the best row and
      absolute value so far: a strictly larger absolute value replaces the best, and a
      non-finite entry stops the factorization with `NonFinite(k)`. */
  function ScanFrom(w: seq<seq<Scalar>>, k: nat, r: nat, row: nat, best: real): (res: Result<(nat, real)>)
    requires IsSquare(w) && k < r <= |w| && k <= row < |w|
    ensures res.Ok? ==> k <= res.value.0 < |w|
    ensures res.Err? ==> res.error == NonFinite(k)
    decreases |w| - r
  {
    if r == |w| then Ok((row, best))
    else
      var v := Abs(w[r][k]);
      if !v.Fin? then Err(NonFinite(k))
      else if v.v > best then ScanFrom(w, k, r + 1, r, v.v)
      else ScanFrom(w, k, r + 1, row, best)
  }

  /** The pivot search of step k, starting from the diagonal entry. */
  function Scan(w: seq<seq<Scalar>>, k: nat): (res: Result<(nat, real)>)
    requires IsSquare(w) && k < |w|
    ensures res.Ok? ==> k <= res.value.0 < |w|
    ensures res.Err? ==> res.error == NonFinite(k)
  {
    var v := Abs(w[k][k]);
    if !v.Fin? then Err(NonFinite(k)) else ScanFrom(w, k, k + 1, k, v.v)
  }

  /** Row r of the elimination of step k, with columns k + 1, ..., c - 1 done: column k
      holds the multiplier, and each column j > k is updated to
      `(-mult).mul_add(rowK[j], rowR[j])`. */
  function EliminatedPrefix(rowR: seq<Scalar>, rowK: seq<Scalar>, mult: Scalar, k: nat, c: nat): (row: seq<Scalar>)
    requires |rowK| == |rowR|
    ensures |row| == |rowR|
  {
    seq(|rowR|, j requires 0 <= j < |rowR| =>
      if j < k then rowR[j]
      else if j == k then mult
      else if j < c then MulAdd(Neg(mult), rowK[j], rowR[j])
      else rowR[j])
  }

  /** Row r after the elimination of step k. */
  function EliminatedRow(rowR: seq<Scalar>, rowK: seq<Scalar>, mult: Scalar, k: nat): (row: seq<Scalar>)
    requires |rowK| == |rowR|
    ensures |row| == |rowR|
  {
    EliminatedPrefix(rowR, rowK, mult, k, |rowR|)
  }

  /** The elimination of step k for rows r, r + 1, ..., n - 1: each row's multiplier is
      its column-k entry over the pivot, and a non-finite multiplier stops the
      factorization with `NonFinite(k)`. */
  function EliminateFrom(w: seq<seq<Scalar>>, k: nat, r: nat, pivot: Scalar): (res: Result<seq<seq<Scalar>>>)
    requires IsSquare(w) && k < r <= |w|
    ensures res.Ok? ==> IsSquare(res.value) && |res.value| == |w|
    ensures res.Err? ==> res.error == NonFinite(k)
    decreases |w| - r
  {
    if r == |w| then Ok(w)
    else
      var mult := Div(w[r][k], pivot);
      if !mult.Fin? then Err(NonFinite(k))
      else EliminateFrom(w[r := EliminatedRow(w[r], w[k], mult, k)], k, r + 1, pivot)
  }

  /** The state after the row exchange of step k, if the pivot row is not row k. */
  function Exchange(s: State, k: nat, p: nat): (s': State)
    requires ValidState(s) && k < |s.w| && p < |s.w|
    ensures ValidState(s') && |s'.w| == |s.w|
  {
    if p != k then State(Swap(s.w, k, p), Swap(s.piv, k, p), -s.sign) else s
  }

  /** Step k: choose the pivot, report a singular column when its absolute value is at
      most tol, exchange rows, re-check the pivot for finiteness, eliminate below it. */
  function Step(s: State, k: nat, tol: real): (res: Result<State>)
    requires ValidState(s) && k < |s.w|
    ensures res.Ok? ==> ValidState(res.value) && |res.value.w| == |s.w|
    ensures res.Err? ==> res.error == NonFinite(k) || res.error == Singular(k)
  {
    match Scan(s.w, k)
    case Err(e) => Err(e)
    case Ok(found) =>
      if found.1 <= tol then Err(Singular(k))
      else
        var s1 := Exchange(s, k, found.0);
        var pivot := s1.w[k][k];
        if !pivot.Fin? then Err(NonFinite(k))
        else
          match EliminateFrom(s1.w, k, k + 1, pivot)
          case Err(e) => Err(e)
          case Ok(w) => Ok(State(w, s1.piv, s1.sign))
  }

  /** Steps k, k + 1, ..., n - 1. */
  function FactorFrom(s: State, k: nat, tol: real): (res: Result<State>)
    requires ValidState(s) && k <= |s.w|
    ensures res.Ok? ==> ValidState(res.value) && |res.value.w| == |s.w|
    ensures res.Err? ==> k <= res.error.pivotCol < |s.w|
    decreases |s.w| - k
  {
    if k == |s.w| then Ok(s)
    else
      match Step(s, k, tol)
      case Err(e) => Err(e)
      case Ok(s') => FactorFrom(s', k + 1, tol)
  }

  /** `Lu::factor(a, tol)`: start from a, the identity permutation and sign +1. */
  function FactorSpec(a: seq<seq<Scalar>>, tol: real): (res: Result<Lu>)
    requires IsSquare(a)
    ensures res.Ok? ==> WellFormed(res.value) && |res.value.factors| == |a| && res.value.tol == tol
    ensures res.Err? ==> res.error.pivotCol < |a|
  {
    match FactorFrom(State(a, Identity(|a|), 1.0), 0, tol)
    case Err(e) => Err(e)
    case Ok(s) =>
      IdentityIsPermutation(|a|);
      FactorKeepsPermutation(State(a, Identity(|a|), 1.0), 0, tol);
      Ok(Lu(s.w, s.piv, s.sign, tol))
  }

  /** Each step exchanges two entries of the permutation, so it stays a permutation. */
  lemma {:induction false} FactorKeepsPermutation(s: State, k: nat, tol: real)
    requires ValidState(s) && k <= |s.w| && IsPermutation(s.piv)
    ensures FactorFrom(s, k, tol).Ok? ==> IsPermutation(FactorFrom(s, k, tol).value.piv)
    decreases |s.w| - k
  {
    if k < |s.w| {
      var st := Step(s, k, tol);
      if st.Ok? {
        var found := Scan(s.w, k).value;
        if found.0 != k {
          SwapPreservesPermutation(s.piv, k, found.0);
        }
        FactorKeepsPermutation(st.value, k + 1, tol);
      }
    }
  }

  // ---------------------------------------------------------------------------
  // The in-place factorization.

  /** The pivot search of step k on the working rows (src/lu.rs, "Choose pivot row"). */
  method ChoosePivot(lu: array<seq<Scalar>>, k: nat) returns (res: Result<(nat, real)>)
    requires IsSquare(lu[..]) && k < lu.Length
    ensures res == Scan(lu[..], k)
  {
    var n := lu.Length;
    var pivotRow := k;
    var pivotAbs := Abs(lu[k][k]);
    if !pivotAbs.Fin? {
      return Err(NonFinite(k));
    }
    for r := k + 1 to n
      invariant k <= pivotRow < n && pivotAbs.Fin?
      invariant ScanFrom(lu[..], k, r, pivotRow, pivotAbs.v) == Scan(lu[..], k)
    {
      var v := Abs(lu[r][k]);
      if !v.Fin? {
        return Err(NonFinite(k));
      }
      if Gt(v, pivotAbs) {
        pivotAbs := v;
        pivotRow := r;
      }
    }
    return Ok((pivotRow, pivotAbs.v));
  }

  /** Stores the multiplier of row r at column k and updates the columns right of it. */
  method EliminateRow(lu: array<seq<Scalar>>, k: nat, r: nat, mult: Scalar)
    requires IsSquare(lu[..]) && k < r < lu.Length
    modifies lu
    ensures lu[..] == old(lu[..])[r := EliminatedRow(old(lu[r]), old(lu[k]), mult, k)]
  {
    var n := lu.Length;
    ghost var w := lu[..];
    lu[r] := lu[r][k := mult];
    for c := k + 1 to n
      invariant forall m | 0 <= m < n && m != r :: lu[m] == w[m]
      invariant lu[r] == EliminatedPrefix(w[r], w[k], mult, k, c)
    {
      lu[r] := lu[r][c := MulAdd(Neg(mult), lu[k][c], lu[r][c])];
    }
    assert lu[..] == w[r := EliminatedRow(w[r], w[k], mult, k)];
  }

  /** The elimination below the pivot of step k (src/lu.rs, "Eliminate below pivot");
      false when a multiplier is not finite. */
  method EliminateBelow(lu: array<seq<Scalar>>, k: nat, pivot: Scalar) returns (ok: bool)
    requires IsSquare(lu[..]) && k < lu.Length
    modifies lu
    ensures ok <==> EliminateFrom(old(lu[..]), k, k + 1, pivot).Ok?
    ensures ok ==> lu[..] == EliminateFrom(old(lu[..]), k, k + 1, pivot).value
  {
    var n := lu.Length;
    for r := k + 1 to n
      invariant IsSquare(lu[..]) && lu[k] == old(lu[k])
      invariant EliminateFrom(lu[..], k, r, pivot) == EliminateFrom(old(lu[..]), k, k + 1, pivot)
    {
      var mult := Div(lu[r][k], pivot);
      if !mult.Fin? {
        return false;
      }
      EliminateRow(lu, k, r, mult);
    }
    return true;
  }

  /** Step k on the working rows, the permutation and its sign. */
  method StepInPlace(lu: array<seq<Scalar>>, piv: array<nat>, sign: real, k: nat, tol: real) returns (res: Result<real>)
    requires IsSquare(lu[..]) && piv.Length == lu.Length && k < lu.Length
    modifies lu, piv
    ensures res.Err? ==> Step(State(old(lu[..]), old(piv[..]), sign), k, tol) == Err(res.error)
    ensures res.Ok? ==> Step(State(old(lu[..]), old(piv[..]), sign), k, tol) == Ok(State(lu[..], piv[..], res.value))
  {
    ghost var s := State(lu[..], piv[..], sign);
    var found := ChoosePivot(lu, k);
    if found.Err? {
      return Err(found.error);
    }
    var pivotRow := found.value.0;
    if found.value.1 <= tol {
      return Err(Singular(k));
    }
    var pivSign := sign;
    if pivotRow != k {
      lu[k], lu[pivotRow] := lu[pivotRow], lu[k];
      piv[k], piv[pivotRow] := piv[pivotRow], piv[k];
      pivSign := -pivSign;
    }
    assert State(lu[..], piv[..], pivSign) == Exchange(s, k, pivotRow);
    var pivot := lu[k][k];
    if !pivot.Fin? {
      return Err(NonFinite(k));
    }
    var ok := EliminateBelow(lu, k, pivot);
    if !ok {
      return Err(NonFinite(k));
    }
    return Ok(pivSign);
  }

  /** `Lu::factor`: Gaussian elimination with partial pivoting on an array of rows. */
  method Factor(a: seq<seq<Scalar>>, tol: real) returns (res: Result<Lu>)
    requires IsSquare(a)
    ensures res == FactorSpec(a, tol)
  {
    var n := |a|;
    var lu := new seq<Scalar>[n](i requires 0 <= i < n => a[i]);
    assert lu[..] == a;
    var piv := new nat[n];
    for i := 0 to n
      invariant lu[..] == a
      invariant forall m | 0 <= m < i :: piv[m] == m
    {
      piv[i] := i;
    }
    var pivSign := 1.0;
    assert piv[..] == Identity(n);
    ghost var goal := FactorFrom(State(a, Identity(n), 1.0), 0, tol);
    for k := 0 to n
      invariant IsSquare(lu[..])
      invariant FactorFrom(State(lu[..], piv[..], pivSign), k, tol) == goal
    {
      var step := StepInPlace(lu, piv, pivSign, k, tol);
      if step.Err? {
        return Err(step.error);
      }
      pivSign := step.value;
    }
    return Ok(Lu(lu[..], piv[..], pivSign, tol));
  }

  // ---------------------------------------------------------------------------
  // Solve and determinant.

  /** The right-hand side in pivoted order: x[i] = b[piv[i]]. */
  function Permuted(b: seq<Scalar>, piv: seq<nat>): (x: seq<Scalar>)
    requires |piv| == |b| && forall i | 0 <= i < |piv| :: piv[i] < |b|
    ensures |x| == |b|
  {
    seq(|b|, i requires 0 <= i < |b| => b[piv[i]])
  }

  /** Back substitution with U for rows n - 1 - ii, n - 2 - ii, ..., 0: row i becomes
      (x[i] - Σ_{j > i} U[i][j]·x[j]) / U[i][i]. A non-finite diagonal or sum stops with
      `NonFinite(i)`, a diagonal of absolute value at most tol with `Singular(i)`. */
  function LuBackFrom(f: seq<seq<Scalar>>, tol: real, x: seq<Scalar>, ii: nat): (r: Result<seq<Scalar>>)
    requires IsSquare(f) && |x| == |f| && ii <= |f|
    ensures r.Ok? ==> |r.value| == |f|
    ensures r.Err? ==> r.error.pivotCol < |f| - ii
    decreases |f| - ii
  {
    if ii == |f| then Ok(x)
    else
      var i := |f| - 1 - ii;
      var sum := SubAcc(f[i], x, x[i], i + 1, |f|);
      var diag := f[i][i];
      if !diag.Fin? || !sum.Fin? then Err(NonFinite(i))
      else if Abs(diag).v <= tol then Err(Singular(i))
      else LuBackFrom(f, tol, x[i := Div(sum, diag)], ii + 1)
  }

  /** `Lu::solve_vec(b)`: permute b, then forward substitution with L, then back
      substitution with U. */
  function SolveSpec(lu: Lu, b: Vector): (r: Result<Vector>)
    requires WellFormed(lu) && |b.data| == |lu.factors|
    ensures r.Ok? ==> |r.value.data| == |b.data|
    ensures r.Err? ==> r.error.pivotCol < |b.data|
  {
    match ForwardFrom(lu.factors, Permuted(b.data, lu.piv), 0)
    case Err(e) => Err(e)
    case Ok(y) =>
      match LuBackFrom(lu.factors, lu.tol, y, 0)
      case Err(e) => Err(e)
      case Ok(x) => Ok(Vector(x))
  }

  /** `Lu::solve_vec`. */
  method SolveVec(lu: Lu, b: Vector) returns (res: Result<Vector>)
    requires WellFormed(lu) && |b.data| == |lu.factors|
    ensures res == SolveSpec(lu, b)
  {
    var n := |lu.factors|;
    var x := new Scalar[n];
    for i := 0 to n
      invariant forall m | 0 <= m < i :: x[m] == b.data[lu.piv[m]]
    {
      x[i] := b.data[lu.piv[i]];
    }
    assert x[..] == Permuted(b.data, lu.piv);
    // Forward substitution for L (unit diagonal).
    var forward := ForwardInPlace(lu.factors, x);
    if forward.Err? {
      return Err(forward.error);
    }
    ghost var y := x[..];
    // Back substitution for U.
    var back := BackInPlace(lu.factors, lu.tol, x);
    if back.Err? {
      return Err(back.error);
    }
    return Ok(Vector(x[..]));
  }

  /** The back-substitution phase of `Lu::solve_vec`, in place on x. */
  method BackInPlace(f: seq<seq<Scalar>>, tol: real, x: array<Scalar>) returns (r: Result<()>)
    requires IsSquare(f) && x.Length == |f|
    modifies x
    ensures r.Ok? ==> LuBackFrom(f, tol, old(x[..]), 0) == Ok(x[..])
    ensures r.Err? ==> LuBackFrom(f, tol, old(x[..]), 0) == Err(r.error)
  {
    var n := |f|;
    for ii := 0 to n
      invariant LuBackFrom(f, tol, x[..], ii) == LuBackFrom(f, tol, old(x[..]), 0)
    {
      var i := n - 1 - ii;
      var sum := x[i];
      var row := f[i];
      for j := i + 1 to n
        invariant sum == SubAcc(row, x[..], x[i], i + 1, j)
      {
        sum := MulAdd(Neg(row[j]), x[j], sum);
      }
      var diag := row[i];
      if !diag.Fin? || !sum.Fin? {
        return Err(NonFinite(i));
      }
      if Abs(diag).v <= tol {
        return Err(Singular(i));
      }
      x[i] := Div(sum, diag);
    }
    return Ok(());
  }

  /** `Lu::det`: the permutation sign times the diagonal of U, multiplied left to right. */
  function DetSpec(lu: Lu): Scalar
    requires WellFormed(lu)
  {
    DiagFold(lu.factors, Fin(lu.pivSign), |lu.factors|)
  }

  method Det(lu: Lu) returns (det: Scalar)
    requires WellFormed(lu)
    ensures det == DetSpec(lu)
  {
    det := Fin(lu.pivSign);
    for i := 0 to |lu.factors|
      invariant det == DiagFold(lu.factors, Fin(lu.pivSign), i)
    {
      det := Mul(det, lu.factors[i][i]);
    }
  }
}
