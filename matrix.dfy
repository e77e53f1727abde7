/** `Matrix<D>` (src/matrix.rs): a D×D grid of doubles stored row-major in a fixed-size
    buffer. `set` writes one cell in place; `lu` and `det` hand a copy of the grid to the
    LU engine. */
module Matrices {
  import opened Scalars
  import opened Storage
  import opened LaErrors
  import opened InfNorms
  import LuEngine
  import LuSpecial
  import Vectors

  class Matrix {
    /** The dimension D. */
    const dim: nat
    /** `rows: [[f64; D]; D]`, cell (r, c) at `cells[r, c]`. */
    const cells: array2<Scalar>

    predicate Valid()
      reads this
    {
      cells.Length0 == dim && cells.Length1 == dim
    }

    /** The grid as a sequence of rows. */
    function Rows(): (rows: seq<seq<Scalar>>)
      requires Valid()
      reads this, cells
      ensures |rows| == dim && IsSquare(rows)
      ensures forall r, c | 0 <= r < dim && 0 <= c < dim :: rows[r][c] == cells[r, c]
    {
      seq(dim, r requires 0 <= r < dim reads cells => seq(dim, c requires 0 <= c < dim reads cells => cells[r, c]))
    }

    /** `Matrix::from_rows`: the grid is exactly the given rows. */
    constructor FromRows(rows: seq<seq<Scalar>>)
      requires IsSquare(rows)
      ensures Valid() && dim == |rows| && Rows() == rows && fresh(cells)
    {
      dim := |rows|;
      cells := new Scalar[|rows|, |rows|]((r, c) requires 0 <= r < |rows| && 0 <= c < |rows| => rows[r][c]);
      new;
      assert forall r | 0 <= r < |rows| :: Rows()[r] == rows[r];
    }

    /** `Matrix::zero`: every cell is 0. */
    constructor Zero(n: nat)
      ensures Valid() && dim == n && Rows() == ZeroRows(n) && fresh(cells)
    {
      dim := n;
      cells := new Scalar[n, n]((r, c) => Fin(0.0));
      new;
      assert forall r | 0 <= r < n :: Rows()[r] == ZeroRows(n)[r];
    }

    /** `Matrix::identity`: the zero matrix with 1 written on the diagonal, one cell per
        iteration. */
    constructor Identity(n: nat)
      ensures Valid() && dim == n && Rows() == IdentityRows(n) && fresh(cells)
    {
      dim := n;
      cells := new Scalar[n, n]((r, c) => Fin(0.0));
      new;
      for i := 0 to n
        invariant forall r, c | 0 <= r < n && 0 <= c < n ::
                    cells[r, c] == if r == c && r < i then Fin(1.0) else Fin(0.0)
      {
        cells[i, i] := Fin(1.0);
      }
      assert forall r | 0 <= r < n :: Rows()[r] == IdentityRows(n)[r];
    }

    /** `Default` is the zero matrix. */
    static method Default(n: nat) returns (m: Matrix)
      ensures fresh(m) && fresh(m.cells) && m.Valid() && m.dim == n && m.Rows() == ZeroRows(n)
    {
      m := new Matrix.Zero(n);
    }

    /** `get(r, c)`: the cell when both indices are in bounds, otherwise `None`. */
    function Get(r: nat, c: nat): (v: Option<Scalar>)
      requires Valid()
      reads this, cells
      ensures v.Some? <==> r < dim && c < dim
      ensures v.Some? ==> v.value == Rows()[r][c]
    {
      if r < dim && c < dim then Some(cells[r, c]) else None
    }

    /** `set(r, c, value)`: in bounds it writes that one cell and returns true; out of
        bounds it returns false and the grid is unchanged. */
    method Set(r: nat, c: nat, value: Scalar) returns (ok: bool)
      requires Valid()
      modifies cells
      ensures ok <==> r < dim && c < dim
      ensures ok ==> Rows() == old(Rows())[r := old(Rows())[r][c := value]]
      ensures !ok ==> Rows() == old(Rows())
      ensures ok ==> Get(r, c) == Some(value)
    {
      if r < dim && c < dim {
        cells[r, c] := value;
        assert Rows()[r] == old(Rows())[r][c := value];
        assert forall i | 0 <= i < dim && i != r :: Rows()[i] == old(Rows())[i];
        return true;
      }
      return false;
    }

    /** `inf_norm`: the maximum absolute row sum, by the same running maximum as
        `InfNormSpec`; for finite entries that is the largest row sum (`InfNormIsMaxRowSum`).
        The result is finite in the model; in doubles an infinite entry makes it +inf. */
    method InfNorm() returns (norm: Scalar)
      requires Valid()
      ensures norm == InfNormSpec(Rows())
      ensures norm.Fin? && norm.v >= 0.0
    {
      ghost var rows := Rows();
      var maxRowSum := Fin(0.0);
      for r := 0 to dim
        invariant maxRowSum == MaxPrefix(rows, r)
      {
        var rowSum := Fin(0.0);
        for c := 0 to dim
          invariant rowSum == AbsSumPrefix(rows[r], c)
        {
          rowSum := Add(rowSum, Abs(cells[r, c]));
        }
        if Gt(rowSum, maxRowSum) {
          maxRowSum := rowSum;
        }
      }
      norm := maxRowSum;
      InfNormNonNegative(rows);
    }

    /** `lu(tol)`: the LU factorization of the current grid. */
    method Lu(tol: real) returns (res: Result<LuEngine.Lu>)
      requires Valid()
      ensures res == LuEngine.FactorSpec(Rows(), tol)
    {
      res := LuEngine.Factor(Rows(), tol);
    }

    /** `det(tol)`: an LU error is passed on unchanged; otherwise the determinant of the
        factorization. */
    method Det(tol: real) returns (res: Result<Scalar>)
      requires Valid()
      ensures LuEngine.FactorSpec(Rows(), tol).Err? ==> res == Err(LuEngine.FactorSpec(Rows(), tol).error)
      ensures LuEngine.FactorSpec(Rows(), tol).Ok? ==> res == Ok(LuEngine.DetSpec(LuEngine.FactorSpec(Rows(), tol).value))
    {
      var lu := Lu(tol);
      if lu.Err? {
        return Err(lu.error);
      }
      var det := LuEngine.Det(lu.value);
      return Ok(det);
    }
  }

  /** The bounds-checked accessors on a 2×2 zero matrix: writing and reading (0, 0)
      succeed, (2, 0) is out of bounds for both. */
  method GetSetBoundsChecked() returns (setIn: bool, getIn: Option<Scalar>, setOut: bool, getOut: Option<Scalar>)
    ensures setIn && getIn == Some(Fin(1.0))
    ensures !setOut && getOut == None
  {
    var m := new Matrix.Zero(2);
    setIn := m.Set(0, 0, Fin(1.0));
    getIn := m.Get(0, 0);
    setOut := m.Set(2, 0, Fin(1.0));
    getOut := m.Get(2, 0);
  }

  /** The determinant of the 3×3 identity at the default tolerance is 1. */
  method DetIdentityIsOne() returns (det: Result<Scalar>)
    ensures det == Ok(Fin(1.0))
  {
    var m := new Matrix.Identity(3);
    LuSpecial.IdentityFactorSolve(3, DefaultPivotTol, Vectors.Zero(3));
    det := m.Det(DefaultPivotTol);
  }
}
