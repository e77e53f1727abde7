/** The infinity norm, the maximum absolute row sum, as both `Matrix::inf_norm`
    (src/matrix.rs) and the benchmark's `nalgebra_inf_norm` (benches/vs_linalg.rs)
    compute it: each row sum accumulates |entries| left to right from 0, and a row sum
    replaces the running maximum (which starts at 0) only when it is strictly larger. */
module InfNorms {
  import opened Scalars
  import opened Storage
  import opened RealSums

  /** `row_sum` after the first t columns. */
  function AbsSumPrefix(row: seq<Scalar>, t: nat): Scalar
    requires t <= |row|
  {
    if t == 0 then Fin(0.0) else Add(AbsSumPrefix(row, t - 1), Abs(row[t - 1]))
  }

  /** The sum of the absolute values of a whole row. */
  function RowAbsSum(row: seq<Scalar>): Scalar {
    AbsSumPrefix(row, |row|)
  }

  /** `max_row_sum` after the first t rows. In the model a non-finite row sum never
      compares greater (`Gt` applies the NaN rule of `>` to every non-finite value), so
      it never becomes the maximum. In doubles that holds only for a NaN row sum: an
      infinite entry gives a +inf row sum, which does compare greater and becomes the
      norm. */
  function MaxPrefix(rows: seq<seq<Scalar>>, t: nat): Scalar
    requires t <= |rows|
  {
    if t == 0 then Fin(0.0)
    else
      var m := MaxPrefix(rows, t - 1);
      var s := RowAbsSum(rows[t - 1]);
      if Gt(s, m) then s else m
  }

  function InfNormSpec(rows: seq<seq<Scalar>>): Scalar {
    MaxPrefix(rows, |rows|)
  }

  function AbsTerm(row: seq<Scalar>): int -> real {
    c => RAbs(VVal(row, c))
  }

  /** With finite entries a row sum is the exact sum of absolute values; a finite row sum
      is never negative. */
  lemma {:induction false} AbsSumValue(row: seq<Scalar>, t: nat)
    requires t <= |row|
    ensures AllFiniteVec(row) ==> AbsSumPrefix(row, t) == Fin(Sum(0, t, AbsTerm(row)))
    ensures AbsSumPrefix(row, t).Fin? ==> AbsSumPrefix(row, t).v >= 0.0
  {
    if t > 0 {
      AbsSumValue(row, t - 1);
    }
  }

  /** The running maximum is finite, at least 0 and at least every finite row sum seen so
      far; when it is not 0 it is one of those row sums. */
  lemma {:induction false} MaxPrefixBounds(rows: seq<seq<Scalar>>, t: nat)
    requires t <= |rows|
    ensures MaxPrefix(rows, t).Fin? && MaxPrefix(rows, t).v >= 0.0
    ensures forall r | 0 <= r < t && RowAbsSum(rows[r]).Fin? :: RowAbsSum(rows[r]).v <= MaxPrefix(rows, t).v
    ensures MaxPrefix(rows, t).v == 0.0 || exists r | 0 <= r < t :: RowAbsSum(rows[r]) == MaxPrefix(rows, t)
  {
    if t > 0 {
      MaxPrefixBounds(rows, t - 1);
    }
  }

  /** The model's infinity norm is finite and never negative, whatever the entries. The
      program agrees when every row sum is finite or NaN; with an infinite entry it
      returns +inf, which the model does not represent. */
  lemma InfNormNonNegative(rows: seq<seq<Scalar>>)
    ensures InfNormSpec(rows).Fin? && InfNormSpec(rows).v >= 0.0
  {
    MaxPrefixBounds(rows, |rows|);
  }

  /** For finite entries the infinity norm is the largest absolute row sum: it bounds
      every row sum and is attained by one, or is 0 for no rows. */
  lemma {:induction false} InfNormIsMaxRowSum(rows: seq<seq<Scalar>>)
    requires forall r | 0 <= r < |rows| :: AllFiniteVec(rows[r])
    ensures InfNormSpec(rows).Fin?
    ensures forall r | 0 <= r < |rows| :: Sum(0, |rows[r]|, AbsTerm(rows[r])) <= InfNormSpec(rows).v
    ensures |rows| == 0 ==> InfNormSpec(rows) == Fin(0.0)
    ensures |rows| > 0 ==> exists r | 0 <= r < |rows| :: Sum(0, |rows[r]|, AbsTerm(rows[r])) == InfNormSpec(rows).v
  {
    var n := InfNormSpec(rows);
    MaxPrefixBounds(rows, |rows|);
    forall r | 0 <= r < |rows|
      ensures RowAbsSum(rows[r]) == Fin(Sum(0, |rows[r]|, AbsTerm(rows[r])))
    {
      AbsSumValue(rows[r], |rows[r]|);
    }
    if |rows| > 0 && n.v == 0.0 {
      AbsSumValue(rows[0], |rows[0]|);
      assert Sum(0, |rows[0]|, AbsTerm(rows[0])) == n.v;
    }
  }

  /** [[1, -2], [3, 4]] has row sums 3 and 7, so its norm is 7. */
  lemma InfNormExample()
    ensures InfNormSpec([[Fin(1.0), Fin(-2.0)], [Fin(3.0), Fin(4.0)]]) == Fin(7.0)
  {
    var rows := [[Fin(1.0), Fin(-2.0)], [Fin(3.0), Fin(4.0)]];
    assert AbsSumPrefix(rows[0], 1) == Fin(1.0);
    assert AbsSumPrefix(rows[0], 2) == Fin(3.0);
    assert AbsSumPrefix(rows[1], 1) == Fin(3.0);
    assert AbsSumPrefix(rows[1], 2) == Fin(7.0);
    assert MaxPrefix(rows, 1) == Fin(3.0);
  }
}
