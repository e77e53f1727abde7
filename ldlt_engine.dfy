/** Unpivoted LDLᵀ factorization, A = L·D·Lᵀ (src/ldlt.rs): the factorization by
    symmetric rank-one updates of the lower triangle, the three-pass solve and the
    determinant. Each routine works in place on a local copy, as the source does; the
    functions beside them state, step by step, what each returns. */
module LdltEngine {
  import opened Scalars
  import opened Storage
  import opened LaErrors
  import opened Vectors
  import opened Substitution

  /** `Ldlt<D>`: D on the diagonal of `factors`, the multipliers of the unit lower L in
      its strict lower triangle, and whatever the input held above the diagonal. */
  datatype Ldlt = Ldlt(factors: seq<seq<Scalar>>, tol: real)

  predicate WellFormed(l: Ldlt) {
    IsSquare(l.factors)
  }

  // ---------------------------------------------------------------------------
  // Step j, as a function of the working rows before it.

  /** The multipliers of column j for rows i, i + 1, ..., n - 1: `f[i][j] / d`, and a
      non-finite one stops the factorization with `NonFinite(j)`. */
  function MultipliersFrom(w: seq<seq<Scalar>>, j: nat, i: nat, d: Scalar): (res: Result<seq<seq<Scalar>>>)
    requires IsSquare(w) && j < i <= |w|
    ensures res.Ok? ==> IsSquare(res.value) && |res.value| == |w|
    ensures res.Err? ==> res.error == NonFinite(j)
    decreases |w| - i
  {
    if i == |w| then Ok(w)
    else
      var l := Div(w[i][j], d);
      if !l.Fin? then Err(NonFinite(j)) else MultipliersFrom(w[i := w[i][j := l]], j, i + 1, d)
  }

  /** Row i of the trailing update of step j, columns k, k + 1, ..., i:
      `f[i][k] = (-lid).mul_add(f[k][j], f[i][k])` with lid = l_i·d, and a non-finite
      value stops the factorization with `NonFinite(j)`. */
  function UpdateRowFrom(w: seq<seq<Scalar>>, j: nat, i: nat, k: nat, lid: Scalar): (res: Result<seq<seq<Scalar>>>)
    requires IsSquare(w) && j < k <= i + 1 && i < |w|
    ensures res.Ok? ==> IsSquare(res.value) && |res.value| == |w|
    ensures res.Err? ==> res.error == NonFinite(j)
    decreases i + 1 - k
  {
    if k == i + 1 then Ok(w)
    else
      var v := MulAdd(Neg(lid), w[k][j], w[i][k]);
      if !v.Fin? then Err(NonFinite(j)) else UpdateRowFrom(w[i := w[i][k := v]], j, i, k + 1, lid)
  }

  /** The trailing update of step j for rows i, i + 1, ..., n - 1. */
  function UpdateFrom(w: seq<seq<Scalar>>, j: nat, i: nat, d: Scalar): (res: Result<seq<seq<Scalar>>>)
    requires IsSquare(w) && j < i <= |w|
    ensures res.Ok? ==> IsSquare(res.value) && |res.value| == |w|
    ensures res.Err? ==> res.error == NonFinite(j)
    decreases |w| - i
  {
    if i == |w| then Ok(w)
    else
      match UpdateRowFrom(w, j, i, j + 1, Mul(w[i][j], d))
      case Err(e) => Err(e)
      case Ok(w1) => UpdateFrom(w1, j, i + 1, d)
  }

  /** Step j: a non-finite pivot d = f[j][j] is `NonFinite(j)`, a pivot d <= tol (a signed
      test) is `Singular(j)`; then the multipliers, then the trailing update. */
  function Step(w: seq<seq<Scalar>>, j: nat, tol: real): (res: Result<seq<seq<Scalar>>>)
    requires IsSquare(w) && j < |w|
    ensures res.Ok? ==> IsSquare(res.value) && |res.value| == |w|
    ensures res.Err? ==> res.error.pivotCol == j
  {
    var d := w[j][j];
    if !d.Fin? then Err(NonFinite(j))
    else if d.v <= tol then Err(Singular(j))
    else
      match MultipliersFrom(w, j, j + 1, d)
      case Err(e) => Err(e)
      case Ok(w1) => UpdateFrom(w1, j, j + 1, d)
  }

  /** Steps j, j + 1, ..., n - 1. */
  function FactorFrom(w: seq<seq<Scalar>>, j: nat, tol: real): (res: Result<seq<seq<Scalar>>>)
    requires IsSquare(w) && j <= |w|
    ensures res.Ok? ==> IsSquare(res.value) && |res.value| == |w|
    ensures res.Err? ==> j <= res.error.pivotCol < |w|
    decreases |w| - j
  {
    if j == |w| then Ok(w)
    else
      match Step(w, j, tol)
      case Err(e) => Err(e)
      case Ok(w1) => FactorFrom(w1, j + 1, tol)
  }

  /** `Ldlt::factor(a, tol)`. */
  function FactorSpec(a: seq<seq<Scalar>>, tol: real): (res: Result<Ldlt>)
    requires IsSquare(a)
    ensures res.Ok? ==> WellFormed(res.value) && |res.value.factors| == |a| && res.value.tol == tol
    ensures res.Err? ==> res.error.pivotCol < |a|
  {
    match FactorFrom(a, 0, tol)
    case Err(e) => Err(e)
    case Ok(f) => Ok(Ldlt(f, tol))
  }

  // ---------------------------------------------------------------------------
  // The in-place factorization.

  /** The multipliers of column j (src/ldlt.rs, "Compute L multipliers"); false when one
      is not finite. */
  method ComputeMultipliers(f: array<seq<Scalar>>, j: nat, d: Scalar) returns (ok: bool)
    requires IsSquare(f[..]) && j < f.Length
    modifies f
    ensures ok <==> MultipliersFrom(old(f[..]), j, j + 1, d).Ok?
    ensures ok ==> f[..] == MultipliersFrom(old(f[..]), j, j + 1, d).value
  {
    for i := j + 1 to f.Length
      invariant IsSquare(f[..])
      invariant MultipliersFrom(f[..], j, i, d) == MultipliersFrom(old(f[..]), j, j + 1, d)
    {
      var l := Div(f[i][j], d);
      if !l.Fin? {
        return false;
      }
      f[i] := f[i][j := l];
    }
    return true;
  }

  /** Row i of the trailing update of step j; false when a new value is not finite. */
  method UpdateRow(f: array<seq<Scalar>>, j: nat, i: nat, lid: Scalar) returns (ok: bool)
    requires IsSquare(f[..]) && j < i < f.Length
    modifies f
    ensures ok <==> UpdateRowFrom(old(f[..]), j, i, j + 1, lid).Ok?
    ensures ok ==> f[..] == UpdateRowFrom(old(f[..]), j, i, j + 1, lid).value
  {
    for k := j + 1 to i + 1
      invariant IsSquare(f[..])
      invariant UpdateRowFrom(f[..], j, i, k, lid) == UpdateRowFrom(old(f[..]), j, i, j + 1, lid)
    {
      var lk := f[k][j];
      var v := MulAdd(Neg(lid), lk, f[i][k]);
      if !v.Fin? {
        return false;
      }
      f[i] := f[i][k := v];
    }
    return true;
  }

  /** The trailing update of step j (src/ldlt.rs, "Update the trailing submatrix"). */
  method UpdateTrailing(f: array<seq<Scalar>>, j: nat, d: Scalar) returns (ok: bool)
    requires IsSquare(f[..]) && j < f.Length
    modifies f
    ensures ok <==> UpdateFrom(old(f[..]), j, j + 1, d).Ok?
    ensures ok ==> f[..] == UpdateFrom(old(f[..]), j, j + 1, d).value
  {
    for i := j + 1 to f.Length
      invariant IsSquare(f[..])
      invariant UpdateFrom(f[..], j, i, d) == UpdateFrom(old(f[..]), j, j + 1, d)
    {
      var li := f[i][j];
      var lid := Mul(li, d);
      ok := UpdateRow(f, j, i, lid);
      if !ok {
        return false;
      }
    }
    return true;
  }

  /** Step j on the working rows. */
  method StepInPlace(f: array<seq<Scalar>>, j: nat, tol: real) returns (res: Result<()>)
    requires IsSquare(f[..]) && j < f.Length
    modifies f
    ensures res.Err? ==> Step(old(f[..]), j, tol) == Err(res.error)
    ensures res.Ok? ==> Step(old(f[..]), j, tol) == Ok(f[..])
  {
    var d := f[j][j];
    if !d.Fin? {
      return Err(NonFinite(j));
    }
    if d.v <= tol {
      return Err(Singular(j));
    }
    var ok := ComputeMultipliers(f, j, d);
    if !ok {
      return Err(NonFinite(j));
    }
    ok := UpdateTrailing(f, j, d);
    if !ok {
      return Err(NonFinite(j));
    }
    return Ok(());
  }

  /** `Ldlt::factor`. The caller promises tol >= 0 and a symmetric a; both are checked
      only in debug builds. */
  method Factor(a: seq<seq<Scalar>>, tol: real) returns (res: Result<Ldlt>)
    requires IsSquare(a) && tol >= 0.0 && IsSymmetric(a)
    ensures res == FactorSpec(a, tol)
  {
    var n := |a|;
    var f := new seq<Scalar>[n](i requires 0 <= i < n => a[i]);
    assert f[..] == a;
    ghost var goal := FactorFrom(a, 0, tol);
    for j := 0 to n
      invariant IsSquare(f[..])
      invariant FactorFrom(f[..], j, tol) == goal
    {
      var step := StepInPlace(f, j, tol);
      if step.Err? {
        return Err(step.error);
      }
    }
    return Ok(Ldlt(f[..], tol));
  }

  // ---------------------------------------------------------------------------
  // Solve and determinant.

  /** The diagonal pass for rows i, i + 1, ..., n - 1: a non-finite diagonal is
      `NonFinite(i)`, a diagonal <= tol is `Singular(i)`, and a non-finite quotient is
      `NonFinite(i)`. */
  function DiagFrom(f: seq<seq<Scalar>>, tol: real, x: seq<Scalar>, i: nat): (r: Result<seq<Scalar>>)
    requires IsSquare(f) && |x| == |f| && i <= |f|
    ensures r.Ok? ==> |r.value| == |f|
    ensures r.Err? ==> i <= r.error.pivotCol < |f|
    decreases |f| - i
  {
    if i == |f| then Ok(x)
    else
      var diag := f[i][i];
      if !diag.Fin? then Err(NonFinite(i))
      else if diag.v <= tol then Err(Singular(i))
      else
        var v := Div(x[i], diag);
        if !v.Fin? then Err(NonFinite(i)) else DiagFrom(f, tol, x[i := v], i + 1)
  }

  /** Column i of the factors: the entries row i of Lᵀ is read from. */
  function Column(f: seq<seq<Scalar>>, i: nat): (c: seq<Scalar>)
    requires IsSquare(f) && i < |f|
    ensures |c| == |f| && forall j | 0 <= j < |f| :: c[j] == f[j][i]
  {
    seq(|f|, j requires 0 <= j < |f| => f[j][i])
  }

  /** Back substitution with Lᵀ for rows n - 1 - ii, ..., 0: row i becomes
      x[i] - Σ_{j > i} f[j][i]·x[j], and a non-finite result stops with `NonFinite(i)`. */
  function BackFrom(f: seq<seq<Scalar>>, x: seq<Scalar>, ii: nat): (r: Result<seq<Scalar>>)
    requires IsSquare(f) && |x| == |f| && ii <= |f|
    ensures r.Ok? ==> |r.value| == |f|
    ensures r.Err? ==> r.error.NonFinite? && r.error.pivotCol < |f| - ii
    decreases |f| - ii
  {
    if ii == |f| then Ok(x)
    else
      var i := |f| - 1 - ii;
      var sum := SubAcc(Column(f, i), x, x[i], i + 1, |f|);
      if !sum.Fin? then Err(NonFinite(i)) else BackFrom(f, x[i := sum], ii + 1)
  }

  /** `Ldlt::solve_vec(b)`: L·y = b, then D·z = y, then Lᵀ·x = z. */
  function SolveSpec(l: Ldlt, b: Vector): (r: Result<Vector>)
    requires WellFormed(l) && |b.data| == |l.factors|
    ensures r.Ok? ==> |r.value.data| == |b.data|
    ensures r.Err? ==> r.error.pivotCol < |b.data|
  {
    match ForwardFrom(l.factors, b.data, 0)
    case Err(e) => Err(e)
    case Ok(y) =>
      match DiagFrom(l.factors, l.tol, y, 0)
      case Err(e) => Err(e)
      case Ok(z) =>
        match BackFrom(l.factors, z, 0)
        case Err(e) => Err(e)
        case Ok(x) => Ok(Vector(x))
  }

  /** `Ldlt::solve_vec`. */
  method SolveVec(l: Ldlt, b: Vector) returns (res: Result<Vector>)
    requires WellFormed(l) && |b.data| == |l.factors|
    ensures res == SolveSpec(l, b)
  {
    var n := |l.factors|;
    var x := new Scalar[n](i requires 0 <= i < n => b.data[i]);
    assert x[..] == b.data;
    // Forward substitution: L y = b (unit diagonal).
    var forward := ForwardInPlace(l.factors, x);
    if forward.Err? {
      return Err(forward.error);
    }
    ghost var y := x[..];
    // Diagonal solve: D z = y.
    var diagonal := DiagInPlace(l.factors, l.tol, x);
    if diagonal.Err? {
      return Err(diagonal.error);
    }
    ghost var z := x[..];
    // Back substitution: Lᵀ x = z.
    var back := BackInPlace(l.factors, x);
    if back.Err? {
      return Err(back.error);
    }
    return Ok(Vector(x[..]));
  }

  /** The diagonal phase of `Ldlt::solve_vec`, in place on x. */
  method DiagInPlace(f: seq<seq<Scalar>>, tol: real, x: array<Scalar>) returns (r: Result<()>)
    requires IsSquare(f) && x.Length == |f|
    modifies x
    ensures r.Ok? ==> DiagFrom(f, tol, old(x[..]), 0) == Ok(x[..])
    ensures r.Err? ==> DiagFrom(f, tol, old(x[..]), 0) == Err(r.error)
  {
    var n := |f|;
    for i := 0 to n
      invariant DiagFrom(f, tol, x[..], i) == DiagFrom(f, tol, old(x[..]), 0)
    {
      var diag := f[i][i];
      if !diag.Fin? {
        return Err(NonFinite(i));
      }
      if diag.v <= tol {
        return Err(Singular(i));
      }
      var v := Div(x[i], diag);
      if !v.Fin? {
        return Err(NonFinite(i));
      }
      x[i] := v;
    }
    return Ok(());
  }

  /** The back-substitution phase of `Ldlt::solve_vec` with Lᵀ, in place on x. */
  method BackInPlace(f: seq<seq<Scalar>>, x: array<Scalar>) returns (r: Result<()>)
    requires IsSquare(f) && x.Length == |f|
    modifies x
    ensures r.Ok? ==> BackFrom(f, old(x[..]), 0) == Ok(x[..])
    ensures r.Err? ==> BackFrom(f, old(x[..]), 0) == Err(r.error)
  {
    var n := |f|;
    for ii := 0 to n
      invariant BackFrom(f, x[..], ii) == BackFrom(f, old(x[..]), 0)
    {
      var i := n - 1 - ii;
      var sum := x[i];
      ghost var col := Column(f, i);
      for j := i + 1 to n
        invariant sum == SubAcc(col, x[..], x[i], i + 1, j)
      {
        sum := MulAdd(Neg(f[j][i]), x[j], sum);
      }
      if !sum.Fin? {
        return Err(NonFinite(i));
      }
      x[i] := sum;
    }
    return Ok(());
  }

  /** `Ldlt::det`: the product of the diagonal of D, multiplied left to right from 1. */
  function DetSpec(l: Ldlt): Scalar
    requires WellFormed(l)
  {
    DiagFold(l.factors, Fin(1.0), |l.factors|)
  }

  method Det(l: Ldlt) returns (det: Scalar)
    requires WellFormed(l)
    ensures det == DetSpec(l)
  {
    det := Fin(1.0);
    for i := 0 to |l.factors|
      invariant det == DiagFold(l.factors, Fin(1.0), i)
    {
      det := Mul(det, l.factors[i][i]);
    }
  }
}
