/** The input generators and the reference infinity norm of the benchmark comparison
    (benches/vs_linalg.rs). The generators fill local buffers with while loops; the
    matrix they build is symmetric and strictly diagonally dominant. */
module BenchInputs {
  import opened Scalars
  import opened Storage
  import opened RealSums
  import opened InfNorms

  /** `matrix_entry::<D>(r, c)`: (D + 1) + r·10⁻³ on the diagonal (a fused multiply-add,
      exact here) and 0.1 / (r + c + 1) off it. */
  function MatrixEntry(d: nat, r: nat, c: nat): (e: Scalar)
    ensures e.Fin? && e.v > 0.0
    ensures r == c ==> e.v >= d as real + 1.0
    ensures r != c ==> e.v <= 0.1
  {
    if r == c then MulAdd(Fin(r as real), Fin(0.001), Fin(d as real + 1.0))
    else Fin(0.1 / ((r + c + 1) as real))
  }

  /** The entries are symmetric in r and c. */
  lemma EntrySymmetric(d: nat, r: nat, c: nat)
    ensures MatrixEntry(d, r, c) == MatrixEntry(d, c, r)
  {
    assert r + c + 1 == c + r + 1;
  }

  /** The off-diagonal entries of row r, with 0 in the diagonal position. */
  function OffDiagonalTerm(d: nat, r: nat): int -> real {
    c => if 0 <= c && c != r then MatrixEntry(d, r, c).v else 0.0
  }

  lemma {:induction false} OffDiagonalBound(d: nat, r: nat, t: int)
    ensures Sum(0, t, OffDiagonalTerm(d, r)) <= 0.1 * (if t < 0 then 0.0 else t as real)
    decreases t
  {
    if t > 0 {
      OffDiagonalBound(d, r, t - 1);
      if t - 1 != r {
        assert OffDiagonalTerm(d, r)(t - 1) <= 0.1;
      }
    }
  }

  /** Strict diagonal dominance, as the comment on `matrix_entry` promises: in every row
      the diagonal entry exceeds the sum of the absolute values of the others. */
  lemma DiagonallyDominant(d: nat, r: nat)
    requires r < d
    ensures Sum(0, d, OffDiagonalTerm(d, r)) < MatrixEntry(d, r, r).v
  {
    OffDiagonalBound(d, r, d);
  }

  /** `make_matrix_rows::<D>()`: every cell (r, c) holds `matrix_entry::<D>(r, c)`. */
  method MakeMatrixRows(d: nat) returns (rows: seq<seq<Scalar>>)
    ensures |rows| == d && IsSquare(rows)
    ensures forall r, c | 0 <= r < d && 0 <= c < d :: rows[r][c] == MatrixEntry(d, r, c)
  {
    rows := ZeroRows(d);
    var r := 0;
    while r < d
      invariant 0 <= r <= d && |rows| == d && IsSquare(rows)
      invariant forall i, j | 0 <= i < d && 0 <= j < d ::
                  rows[i][j] == if i < r then MatrixEntry(d, i, j) else Fin(0.0)
    {
      var c := 0;
      while c < d
        invariant 0 <= c <= d && |rows| == d && IsSquare(rows)
        invariant forall i, j | 0 <= i < d && 0 <= j < d ::
                    rows[i][j] == if i < r || (i == r && j < c) then MatrixEntry(d, i, j) else Fin(0.0)
      {
        rows := rows[r := rows[r][c := MatrixEntry(d, r, c)]];
        c := c + 1;
      }
      r := r + 1;
    }
  }

  /** The generated matrix is finite and symmetric, so both factorizations accept it. */
  lemma MatrixRowsSymmetric(d: nat, rows: seq<seq<Scalar>>)
    requires |rows| == d && IsSquare(rows)
    requires forall r, c | 0 <= r < d && 0 <= c < d :: rows[r][c] == MatrixEntry(d, r, c)
    ensures AllFinite(rows) && IsSymmetric(rows)
  {
    forall r, c | 0 <= r < d && 0 <= c < d
      ensures rows[r][c] == rows[c][r]
    {
      EntrySymmetric(d, r, c);
    }
  }

  /** `vector_entry(i, offset)`: i + 1 + offset. */
  function VectorEntry(i: nat, offset: Scalar): (e: Scalar)
    ensures offset.Fin? ==> e == Fin(i as real + 1.0 + offset.v)
    ensures !offset.Fin? ==> e == NonFin
  {
    Add(Fin(i as real + 1.0), offset)
  }

  /** `make_vector_array::<D>(offset)`: entry i holds `vector_entry(i, offset)`. */
  method MakeVectorArray(d: nat, offset: Scalar) returns (data: seq<Scalar>)
    ensures |data| == d
    ensures forall i | 0 <= i < d :: data[i] == VectorEntry(i, offset)
  {
    data := seq(d, _ => Fin(0.0));
    var i := 0;
    while i < d
      invariant 0 <= i <= d && |data| == d
      invariant forall j | 0 <= j < d :: data[j] == if j < i then VectorEntry(j, offset) else Fin(0.0)
    {
      data := data[i := VectorEntry(i, offset)];
      i := i + 1;
    }
  }

  /** `nalgebra_inf_norm`: the same running maximum of absolute row sums as
      `Matrix::inf_norm`, over a D×D grid. The result is finite in the model; in doubles
      an infinite entry makes it +inf. */
  method NalgebraInfNorm(m: seq<seq<Scalar>>) returns (norm: Scalar)
    requires IsSquare(m)
    ensures norm == InfNormSpec(m)
    ensures norm.Fin? && norm.v >= 0.0
  {
    var d := |m|;
    var maxRowSum := Fin(0.0);
    var r := 0;
    while r < d
      invariant 0 <= r <= d && maxRowSum == MaxPrefix(m, r)
    {
      var rowSum := Fin(0.0);
      var c := 0;
      while c < d
        invariant 0 <= c <= d && rowSum == AbsSumPrefix(m[r], c)
      {
        rowSum := Add(rowSum, Abs(m[r][c]));
        c := c + 1;
      }
      if Gt(rowSum, maxRowSum) {
        maxRowSum := rowSum;
      }
      r := r + 1;
    }
    norm := maxRowSum;
    InfNormNonNegative(m);
  }
}
