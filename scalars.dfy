/** The 64-bit floating-point numbers of the library, modelled as exact reals with a
    single tag for every value that is not finite (NaN, +infinity, -infinity).
    Rounding is not modelled: `mul_add(a, b, c)` is exactly `a * b + c`.
    Every operation that meets a non-finite operand yields a non-finite result, and a
    division by zero (x / 0 is an infinity or NaN in IEEE-754) does as well. */
module Scalars {

  datatype Scalar = Fin(v: real) | NonFin

  /** `f64::is_finite`. */
  predicate IsFinite(x: Scalar) {
    x.Fin?
  }

  /** `f64::abs`: NaN and the infinities stay non-finite. */
  function Abs(x: Scalar): (r: Scalar)
    ensures r.Fin? <==> x.Fin?
    ensures r.Fin? ==> r.v >= 0.0 && (r.v == x.v || r.v == -x.v)
  {
    match x
    case Fin(a) => Fin(if a < 0.0 then -a else a)
    case NonFin => NonFin
  }

  function Neg(x: Scalar): Scalar {
    match x
    case Fin(a) => Fin(-a)
    case NonFin => NonFin
  }

  function Add(x: Scalar, y: Scalar): Scalar {
    if x.Fin? && y.Fin? then Fin(x.v + y.v) else NonFin
  }

  function Mul(x: Scalar, y: Scalar): Scalar {
    if x.Fin? && y.Fin? then Fin(x.v * y.v) else NonFin
  }

  /** Division; dividing by zero gives an infinity or NaN, hence `NonFin`. */
  function Div(x: Scalar, y: Scalar): Scalar {
    if x.Fin? && y.Fin? && y.v != 0.0 then Fin(x.v / y.v) else NonFin
  }

  /** `x.mul_add(y, z)`: the fused multiply-add `x * y + z`, exact in this model. */
  function MulAdd(x: Scalar, y: Scalar, z: Scalar): Scalar {
    Add(Mul(x, y), z)
  }

  /** `x > y` on doubles. A comparison with NaN is false; the model gives the same
      answer for every non-finite operand. */
  predicate Gt(x: Scalar, y: Scalar) {
    x.Fin? && y.Fin? && x.v > y.v
  }

  /** The real value of a finite scalar, and 0 for a non-finite one (used only where
      finiteness is known). */
  function ValueOf(x: Scalar): real {
    if x.Fin? then x.v else 0.0
  }

  /** Absolute value on reals. */
  function RAbs(a: real): real {
    if a < 0.0 then -a else a
  }
}

/** Square row-major storage, `[[f64; D]; D]`, as a sequence of rows. */
module Storage {
  import opened Scalars

  /** Every row has as many entries as there are rows: a D×D grid. */
  predicate IsSquare(m: seq<seq<Scalar>>) {
    forall i | 0 <= i < |m| :: |m[i]| == |m|
  }

  predicate AllFinite(m: seq<seq<Scalar>>) {
    forall i, j | 0 <= i < |m| && 0 <= j < |m[i]| :: m[i][j].Fin?
  }

  predicate AllFiniteVec(x: seq<Scalar>) {
    forall i | 0 <= i < |x| :: x[i].Fin?
  }

  /** Total accessor: the real value at (i, j), 0 outside the grid or where non-finite. */
  function Val(m: seq<seq<Scalar>>, i: int, j: int): real {
    if 0 <= i < |m| && 0 <= j < |m[i]| then ValueOf(m[i][j]) else 0.0
  }

  /** Total accessor for vectors. */
  function VVal(x: seq<Scalar>, i: int): real {
    if 0 <= i < |x| then ValueOf(x[i]) else 0.0
  }

  /** The real matrix a finite grid stands for. */
  function RealOf(m: seq<seq<Scalar>>): (r: seq<seq<real>>)
    ensures |r| == |m|
    ensures forall i | 0 <= i < |m| :: |r[i]| == |m[i]|
  {
    seq(|m|, i requires 0 <= i < |m| => seq(|m[i]|, j requires 0 <= j < |m[i]| => ValueOf(m[i][j])))
  }

  /** The real vector a finite vector stands for. */
  function RealVecOf(x: seq<Scalar>): (r: seq<real>)
    ensures |r| == |x|
  {
    seq(|x|, i requires 0 <= i < |x| => ValueOf(x[i]))
  }

  predicate IsSymmetric(m: seq<seq<Scalar>>)
    requires IsSquare(m)
  {
    forall i, j | 0 <= i < |m| && 0 <= j < |m| :: m[i][j] == m[j][i]
  }

  /** Only the diagonal may hold a non-zero entry. */
  predicate IsDiagonal(m: seq<seq<Scalar>>)
    requires IsSquare(m)
  {
    forall i, j | 0 <= i < |m| && 0 <= j < |m| && i != j :: m[i][j] == Fin(0.0)
  }

  /** `[[0.0; D]; D]`. */
  function ZeroRows(n: nat): (z: seq<seq<Scalar>>)
    ensures |z| == n && IsSquare(z)
    ensures forall i, j | 0 <= i < n && 0 <= j < n :: z[i][j] == Fin(0.0)
  {
    seq(n, i => seq(n, j => Fin(0.0)))
  }

  /** 1 on the diagonal, 0 elsewhere. */
  function IdentityRows(n: nat): (e: seq<seq<Scalar>>)
    ensures |e| == n && IsSquare(e)
    ensures forall i, j | 0 <= i < n && 0 <= j < n :: e[i][j] == if i == j then Fin(1.0) else Fin(0.0)
  {
    seq(n, i => seq(n, j => if i == j then Fin(1.0) else Fin(0.0)))
  }

  /** The diagonal matrix with the given diagonal. */
  function DiagonalRows(d: seq<Scalar>): (m: seq<seq<Scalar>>)
    ensures |m| == |d| && IsSquare(m)
    ensures forall i, j | 0 <= i < |d| && 0 <= j < |d| :: m[i][j] == if i == j then d[i] else Fin(0.0)
  {
    seq(|d|, i requires 0 <= i < |d| => seq(|d|, j requires 0 <= j < |d| => if i == j then d[i] else Fin(0.0)))
  }
}
