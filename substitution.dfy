/** The pieces the LU and LDLT solves share: the multiply-subtract accumulator of a
    substitution step, forward substitution with the unit lower factor, and the running
    product over the diagonal that both determinants compute. */
module Substitution {
  import opened Scalars
  import opened Storage
  import opened RealSums
  import opened LaErrors

  /** `sum` after the terms j = lo, ..., hi - 1 of a substitution step, each applied as
      `sum = (-coef[j]).mul_add(x[j], sum)`, starting from `init`. */
  function SubAcc(coef: seq<Scalar>, x: seq<Scalar>, init: Scalar, lo: nat, hi: nat): Scalar
    requires lo <= hi <= |coef| && hi <= |x|
    decreases hi - lo
  {
    if hi == lo then init else MulAdd(Neg(coef[hi - 1]), x[hi - 1], SubAcc(coef, x, init, lo, hi - 1))
  }

  function CoefTerm(coef: seq<Scalar>, x: seq<Scalar>): int -> real {
    j => VVal(coef, j) * VVal(x, j)
  }

  /** Weighted sums over a range where two vectors agree are equal. */
  lemma CoefSumsAgree(c: seq<Scalar>, z: seq<Scalar>, x: seq<Scalar>, lo: nat, hi: nat)
    requires hi <= |z| == |x|
    requires forall m | lo <= m < hi :: x[m] == z[m]
    ensures Sum(lo, hi, CoefTerm(c, z)) == Sum(lo, hi, CoefTerm(c, x))
  {
    SumExt(lo, hi, CoefTerm(c, z), CoefTerm(c, x));
  }

  /** With finite entries the accumulator is exactly init - Σ_{lo <= j < hi} coef[j]·x[j]. */
  lemma {:induction false} SubAccValue(coef: seq<Scalar>, x: seq<Scalar>, init: Scalar, lo: nat, hi: nat)
    requires lo <= hi <= |coef| && hi <= |x| && init.Fin?
    requires forall j | lo <= j < hi :: coef[j].Fin? && x[j].Fin?
    ensures SubAcc(coef, x, init, lo, hi) == Fin(init.v - Sum(lo, hi, CoefTerm(coef, x)))
    decreases hi - lo
  {
    if hi > lo {
      SubAccValue(coef, x, init, lo, hi - 1);
    }
  }

  /** The accumulator reads only coef[lo..hi] and x[lo..hi]. */
  lemma {:induction false} SubAccFrame(coef: seq<Scalar>, x: seq<Scalar>, x': seq<Scalar>, init: Scalar, lo: nat, hi: nat)
    requires lo <= hi <= |coef| && hi <= |x| && hi <= |x'|
    requires forall j | lo <= j < hi :: x[j] == x'[j]
    ensures SubAcc(coef, x, init, lo, hi) == SubAcc(coef, x', init, lo, hi)
    decreases hi - lo
  {
    if hi > lo {
      SubAccFrame(coef, x, x', init, lo, hi - 1);
    }
  }

  /** Forward substitution with the unit lower triangle stored strictly below the diagonal
      of f, for rows i, i + 1, ..., n - 1 of x: row i becomes
      x[i] - Σ_{j < i} f[i][j]·x[j], and a non-finite result stops with the row index. */
  function ForwardFrom(f: seq<seq<Scalar>>, x: seq<Scalar>, i: nat): (r: Result<seq<Scalar>>)
    requires IsSquare(f) && |x| == |f| && i <= |f|
    ensures r.Ok? ==> |r.value| == |f|
    ensures r.Err? ==> r.error.NonFinite? && i <= r.error.pivotCol < |f|
    decreases |f| - i
  {
    if i == |f| then Ok(x)
    else
      var sum := SubAcc(f[i], x, x[i], 0, i);
      if !sum.Fin? then Err(NonFinite(i)) else ForwardFrom(f, x[i := sum], i + 1)
  }

  /** Forward substitution with the unit lower factor, in place on x, as both solves
      write it: an error is the first non-finite row sum. */
  method ForwardInPlace(f: seq<seq<Scalar>>, x: array<Scalar>) returns (r: Result<()>)
    requires IsSquare(f) && x.Length == |f|
    modifies x
    ensures r.Ok? ==> ForwardFrom(f, old(x[..]), 0) == Ok(x[..])
    ensures r.Err? ==> ForwardFrom(f, old(x[..]), 0) == Err(r.error)
  {
    var n := |f|;
    for i := 0 to n
      invariant ForwardFrom(f, x[..], i) == ForwardFrom(f, old(x[..]), 0)
    {
      var sum := x[i];
      var row := f[i];
      for j := 0 to i
        invariant sum == SubAcc(row, x[..], x[i], 0, j)
      {
        sum := MulAdd(Neg(row[j]), x[j], sum);
      }
      if !sum.Fin? {
        return Err(NonFinite(i));
      }
      x[i] := sum;
    }
    return Ok(());
  }

  /** `det = init; det *= f[i][i]` for i = 0, ..., t - 1. */
  function DiagFold(f: seq<seq<Scalar>>, init: Scalar, t: nat): Scalar
    requires IsSquare(f) && t <= |f|
  {
    if t == 0 then init else Mul(DiagFold(f, init, t - 1), f[t - 1][t - 1])
  }

  /** f[0][0]·f[1][1]·...·f[t-1][t-1] in exact arithmetic. */
  function DiagProduct(f: seq<seq<Scalar>>, t: nat): real
    requires IsSquare(f) && t <= |f|
  {
    if t == 0 then 1.0 else DiagProduct(f, t - 1) * Val(f, t - 1, t - 1)
  }

  /** With a finite diagonal the running product is the start value times the product of
      the diagonal; one non-finite diagonal entry makes it non-finite. */
  lemma {:induction false} DiagFoldValue(f: seq<seq<Scalar>>, c: real, t: nat)
    requires IsSquare(f) && t <= |f|
    ensures (forall i | 0 <= i < t :: f[i][i].Fin?) ==> DiagFold(f, Fin(c), t) == Fin(c * DiagProduct(f, t))
    ensures (exists i | 0 <= i < t :: !f[i][i].Fin?) ==> DiagFold(f, Fin(c), t) == NonFin
  {
    if t > 0 {
      DiagFoldValue(f, c, t - 1);
      assert c * DiagProduct(f, t - 1) * Val(f, t - 1, t - 1) == c * (DiagProduct(f, t - 1) * Val(f, t - 1, t - 1));
    }
  }

  /** A product of positive diagonal entries is positive. */
  lemma {:induction false} DiagProductPositive(f: seq<seq<Scalar>>, t: nat)
    requires IsSquare(f) && t <= |f|
    requires forall i | 0 <= i < t :: Val(f, i, i) > 0.0
    ensures DiagProduct(f, t) > 0.0
  {
    if t > 0 {
      DiagProductPositive(f, t - 1);
    }
  }

  /** A zero on the diagonal makes the product zero. */
  lemma {:induction false} DiagProductZero(f: seq<seq<Scalar>>, t: nat, i: nat)
    requires IsSquare(f) && i < t <= |f| && Val(f, i, i) == 0.0
    ensures DiagProduct(f, t) == 0.0
  {
    if i < t - 1 {
      DiagProductZero(f, t - 1, i);
    }
  }
}
