/** What LU with partial pivoting guarantees: the pivot choice, the order in which errors
    are reported, the permutation and its sign, and, in exact arithmetic, P·A = L·U and
    A·x = b for the solve. */
module LuProofs {
  import opened Scalars
  import opened Storage
  import opened RealSums
  import opened LaErrors
  import opened Permutations
  import opened Vectors
  import opened Substitution
  import opened LuEngine

  // ---------------------------------------------------------------------------
  // The pivot search.

  /** p is the pivot partial pivoting picks in column k: every entry of the column from
      row k down is finite, p has the largest absolute value, and no earlier row ties it. */
  predicate IsPivotChoice(w: seq<seq<Scalar>>, k: nat, p: nat, best: real)
    requires IsSquare(w) && k < |w|
  {
    k <= p < |w| && w[p][k].Fin? && best == Abs(w[p][k]).v &&
    (forall m | k <= m < |w| :: w[m][k].Fin? && Abs(w[m][k]).v <= best) &&
    (forall m | k <= m < p :: Abs(w[m][k]).v < best)
  }

  lemma {:induction false} ScanFromFacts(w: seq<seq<Scalar>>, k: nat, r: nat, row: nat, best: real)
    requires IsSquare(w) && k < r <= |w| && k <= row < r
    requires w[row][k].Fin? && best == Abs(w[row][k]).v
    requires forall m | k <= m < r :: w[m][k].Fin? && Abs(w[m][k]).v <= best
    requires forall m | k <= m < row :: Abs(w[m][k]).v < best
    ensures ScanFrom(w, k, r, row, best).Err? <==> exists m | r <= m < |w| :: !w[m][k].Fin?
    ensures ScanFrom(w, k, r, row, best).Ok? ==>
              IsPivotChoice(w, k, ScanFrom(w, k, r, row, best).value.0, ScanFrom(w, k, r, row, best).value.1)
    decreases |w| - r
  {
    if r < |w| {
      var v := Abs(w[r][k]);
      if v.Fin? {
        if v.v > best {
          ScanFromFacts(w, k, r + 1, r, v.v);
        } else {
          ScanFromFacts(w, k, r + 1, row, best);
        }
      }
    }
  }

  /** The pivot search of step k fails exactly when column k holds a non-finite entry from
      row k down, and otherwise returns the first row of largest absolute value. */
  lemma ScanFacts(w: seq<seq<Scalar>>, k: nat)
    requires IsSquare(w) && k < |w|
    ensures Scan(w, k).Err? <==> exists m | k <= m < |w| :: !w[m][k].Fin?
    ensures Scan(w, k).Ok? ==> IsPivotChoice(w, k, Scan(w, k).value.0, Scan(w, k).value.1)
  {
    if w[k][k].Fin? {
      ScanFromFacts(w, k, k + 1, k, Abs(w[k][k]).v);
    }
  }

  /** Error precedence at step k: a non-finite entry of column k (rows k and below) is
      reported as `NonFinite(k)` before any tolerance test, and `Singular(k)` is reported
      exactly when those entries are all finite and all of absolute value at most tol. */
  lemma StepErrors(s: State, k: nat, tol: real)
    requires ValidState(s) && k < |s.w|
    ensures (exists m | k <= m < |s.w| :: !s.w[m][k].Fin?) ==> Step(s, k, tol) == Err(NonFinite(k))
    ensures Step(s, k, tol) == Err(Singular(k)) <==>
              forall m | k <= m < |s.w| :: s.w[m][k].Fin? && Abs(s.w[m][k]).v <= tol
  {
    ScanFacts(s.w, k);
    if forall m | k <= m < |s.w| :: s.w[m][k].Fin? && Abs(s.w[m][k]).v <= tol {
      var best := Scan(s.w, k).value.1;
      assert best <= tol;
    }
    if Scan(s.w, k).Ok? {
      var p := Scan(s.w, k).value.0;
      var best := Scan(s.w, k).value.1;
      if best <= tol {
        forall m | k <= m < |s.w|
          ensures s.w[m][k].Fin? && Abs(s.w[m][k]).v <= tol
        {
        }
      }
    }
  }

  // ---------------------------------------------------------------------------
  // The elimination.

  /** The elimination of step k leaves rows up to r - 1 alone and replaces each row i >= r
      by its eliminated form; it succeeds exactly when every multiplier is finite. */
  lemma {:induction false} EliminateFromShape(w: seq<seq<Scalar>>, k: nat, r: nat, pivot: Scalar)
    requires IsSquare(w) && k < r <= |w|
    ensures EliminateFrom(w, k, r, pivot).Ok? <==> forall i | r <= i < |w| :: Div(w[i][k], pivot).Fin?
    ensures EliminateFrom(w, k, r, pivot).Ok? ==>
              (forall i | 0 <= i < r :: EliminateFrom(w, k, r, pivot).value[i] == w[i]) &&
              (forall i | r <= i < |w| ::
                 EliminateFrom(w, k, r, pivot).value[i] == EliminatedRow(w[i], w[k], Div(w[i][k], pivot), k))
    decreases |w| - r
  {
    if r < |w| {
      var mult := Div(w[r][k], pivot);
      if mult.Fin? {
        var w1 := w[r := EliminatedRow(w[r], w[k], mult, k)];
        EliminateFromShape(w1, k, r + 1, pivot);
        assert forall i | r < i < |w| :: w1[i] == w[i];
      }
    }
  }

  /** Rows above the pivot row are never written by step k. */
  lemma StepKeepsFinishedRows(s: State, k: nat, tol: real)
    requires ValidState(s) && k < |s.w|
    ensures Step(s, k, tol).Ok? ==> forall i | 0 <= i < k :: Step(s, k, tol).value.w[i] == s.w[i]
  {
    if Step(s, k, tol).Ok? {
      var p := Scan(s.w, k).value.0;
      var s1 := Exchange(s, k, p);
      EliminateFromShape(s1.w, k, k + 1, s1.w[k][k]);
    }
  }

  /** Once step k is done, row k is never written again: every later step leaves the rows
      above its own pivot row alone. */
  lemma {:induction false} FinishedRowsStay(s: State, k: nat, tol: real)
    requires ValidState(s) && k <= |s.w|
    ensures FactorFrom(s, k, tol).Ok? ==> forall i | 0 <= i < k :: FactorFrom(s, k, tol).value.w[i] == s.w[i]
    decreases |s.w| - k
  {
    if k < |s.w| && Step(s, k, tol).Ok? {
      StepKeepsFinishedRows(s, k, tol);
      FinishedRowsStay(Step(s, k, tol).value, k + 1, tol);
    }
  }

  // ---------------------------------------------------------------------------
  // P·A = L·U in exact arithmetic.

  function Min(x: int, y: int): int {
    if x <= y then x else y
  }

  function ReconTerm(w: seq<seq<Scalar>>, i: int, j: int): int -> real {
    m => Val(w, i, m) * Val(w, m, j)
  }

  /** Entry (i, j) of L·U as far as the first t elimination steps determine it: the sum of
      L[i][m]·U[m][j] over m < t with m <= j, plus the still unreduced entry w[i][j] when
      j >= t. */
  function Recon(w: seq<seq<Scalar>>, i: int, j: int, t: int): real {
    Sum(0, Min(t, j + 1), ReconTerm(w, i, j)) + (if j >= t then Val(w, i, j) else 0.0)
  }

  /** Row i of the permuted input is what the working rows reconstruct after k steps. */
  ghost predicate Reconstructs(a: seq<seq<Scalar>>, w: seq<seq<Scalar>>, piv: seq<nat>, k: nat)
    requires IsSquare(a) && |w| == |a| && |piv| == |a|
  {
    forall i, j | 0 <= i < |a| && 0 <= j < |a| :: Val(a, piv[i], j) == Recon(w, i, j, Min(i, k))
  }

  /** The state after k successful steps of the factorization of a. */
  ghost predicate Inv(a: seq<seq<Scalar>>, s: State, k: nat, tol: real) {
    IsSquare(a) && ValidState(s) && |s.w| == |a| && k <= |a| && AllFinite(s.w) &&
    IsPermutation(s.piv) && s.sign == Sign(s.piv) &&
    Reconstructs(a, s.w, s.piv, k) &&
    (forall i | 0 <= i < k :: Abs(s.w[i][i]).v > tol)
  }

  lemma ReconFrame(w: seq<seq<Scalar>>, w': seq<seq<Scalar>>, i: nat, i': nat, j: nat, t: nat)
    requires IsSquare(w) && IsSquare(w') && |w| == |w'| && i < |w| && i' < |w| && j < |w| && t <= |w|
    requires w'[i'] == w[i]
    requires forall m | 0 <= m < t :: w'[m] == w[m]
    ensures Recon(w', i', j, t) == Recon(w, i, j, t)
  {
    SumExt(0, Min(t, j + 1), ReconTerm(w, i, j), ReconTerm(w', i', j));
  }

  lemma InitialInv(a: seq<seq<Scalar>>, tol: real)
    requires IsSquare(a) && AllFinite(a)
    ensures Inv(a, State(a, Identity(|a|), 1.0), 0, tol)
  {
    IdentityIsPermutation(|a|);
    IdentitySign(|a|);
  }

  /** The row exchange of step k keeps the reconstruction, the permutation and its sign. */
  lemma ExchangeKeepsInv(a: seq<seq<Scalar>>, s: State, k: nat, p: nat, tol: real)
    requires Inv(a, s, k, tol) && k <= p < |a|
    ensures var s1 := Exchange(s, k, p);
      AllFinite(s1.w) && IsPermutation(s1.piv) && s1.sign == Sign(s1.piv) &&
      Reconstructs(a, s1.w, s1.piv, k) &&
      (forall i | 0 <= i < k :: s1.w[i] == s.w[i]) && s1.w[k] == s.w[p]
  {
    var s1 := Exchange(s, k, p);
    if p != k {
      SwapPreservesPermutation(s.piv, k, p);
      SwapNegatesSign(s.piv, k, p);
      forall i, j | 0 <= i < |a| && 0 <= j < |a|
        ensures Val(a, s1.piv[i], j) == Recon(s1.w, i, j, Min(i, k))
      {
        var i0 := if i == k then p else if i == p then k else i;
        assert s1.w[i] == s.w[i0] && s1.piv[i] == s.piv[i0];
        assert Min(i, k) == Min(i0, k);
        ReconFrame(s.w, s1.w, i0, i, j, Min(i, k));
      }
    }
  }

  lemma EliminatedRowAt(rowR: seq<Scalar>, rowK: seq<Scalar>, mult: Scalar, k: nat, c: nat)
    requires |rowK| == |rowR| && c < |rowR|
    ensures EliminatedRow(rowR, rowK, mult, k)[c] ==
              if c < k then rowR[c] else if c == k then mult else MulAdd(Neg(mult), rowK[c], rowR[c])
  {
  }

  /** The first k terms of a reconstructed entry do not see the elimination of step k. */
  lemma ElimReconPrefix(w1: seq<seq<Scalar>>, w2: seq<seq<Scalar>>, r: nat, j: nat, k: nat, q: nat)
    requires IsSquare(w1) && IsSquare(w2) && |w1| == |w2| && k < r < |w1| && j < |w1| && q <= k
    requires forall m | 0 <= m <= k :: w2[m] == w1[m]
    requires forall c | 0 <= c < k :: w2[r][c] == w1[r][c]
    ensures Sum(0, q, ReconTerm(w2, r, j)) == Sum(0, q, ReconTerm(w1, r, j))
  {
    forall m | 0 <= m < q
      ensures ReconTerm(w2, r, j)(m) == ReconTerm(w1, r, j)(m)
    {
      assert Val(w2, r, m) == Val(w1, r, m);
      assert Val(w2, m, j) == Val(w1, m, j);
    }
    SumExt(0, q, ReconTerm(w2, r, j), ReconTerm(w1, r, j));
  }

  /** One row of the elimination of step k moves one more term from the unreduced entry
      into the product of the factors. */
  lemma ElimRecon(w1: seq<seq<Scalar>>, w2: seq<seq<Scalar>>, r: nat, j: nat, k: nat)
    requires IsSquare(w1) && IsSquare(w2) && |w1| == |w2| && k < r < |w1| && j < |w1|
    requires forall m | 0 <= m <= k :: w2[m] == w1[m]
    requires forall c | 0 <= c < |w1| :: w1[r][c].Fin? && w1[k][c].Fin?
    requires Div(w1[r][k], w1[k][k]).Fin?
    requires w2[r] == EliminatedRow(w1[r], w1[k], Div(w1[r][k], w1[k][k]), k)
    ensures Recon(w2, r, j, k + 1) == Recon(w1, r, j, k)
  {
    var mult := Div(w1[r][k], w1[k][k]);
    forall c | 0 <= c < k
      ensures w2[r][c] == w1[r][c]
    {
      EliminatedRowAt(w1[r], w1[k], mult, k, c);
    }
    if j < k {
      ElimReconPrefix(w1, w2, r, j, k, j + 1);
    } else {
      ElimReconPrefix(w1, w2, r, j, k, k);
      EliminatedRowAt(w1[r], w1[k], mult, k, k);
      assert Val(w2, r, k) == mult.v;
      assert mult.v * w1[k][k].v == w1[r][k].v;
      assert Sum(0, k + 1, ReconTerm(w2, r, j)) == Sum(0, k, ReconTerm(w2, r, j)) + ReconTerm(w2, r, j)(k);
      assert ReconTerm(w2, r, j)(k) == mult.v * w1[k][j].v;
      if j > k {
        EliminatedRowAt(w1[r], w1[k], mult, k, j);
        assert Val(w2, r, j) == -mult.v * w1[k][j].v + w1[r][j].v;
      }
    }
  }

  /** The elimination of step k keeps the reconstruction and finiteness, and row k keeps
      its pivot. */
  lemma EliminationKeepsInv(a: seq<seq<Scalar>>, w1: seq<seq<Scalar>>, piv: seq<nat>, k: nat)
    requires IsSquare(a) && IsSquare(w1) && |w1| == |a| && |piv| == |a| && k < |a|
    requires AllFinite(w1) && Reconstructs(a, w1, piv, k)
    requires EliminateFrom(w1, k, k + 1, w1[k][k]).Ok?
    ensures var w2 := EliminateFrom(w1, k, k + 1, w1[k][k]).value;
      AllFinite(w2) && Reconstructs(a, w2, piv, k + 1) && forall i | 0 <= i <= k :: w2[i] == w1[i]
  {
    var pivot := w1[k][k];
    EliminateFromShape(w1, k, k + 1, pivot);
    var w2: seq<seq<Scalar>> := EliminateFrom(w1, k, k + 1, pivot).value;
    forall i: int, c: int | 0 <= i < |a| && 0 <= c < |a|
      ensures w2[i][c].Fin?
    {
      if i > k {
        assert w2[i] == EliminatedRow(w1[i], w1[k], Div(w1[i][k], pivot), k);
      }
    }
    forall i, j | 0 <= i < |a| && 0 <= j < |a|
      ensures Val(a, piv[i], j) == Recon(w2, i, j, Min(i, k + 1))
    {
      if i <= k {
        ReconFrame(w1, w2, i, i, j, i);
        assert Min(i, k + 1) == i == Min(i, k);
      } else {
        ElimRecon(w1, w2, i, j, k);
        assert Min(i, k + 1) == k + 1 && Min(i, k) == k;
      }
    }
  }

  /** One step of the factorization of a finite matrix keeps the invariant; with tol >= 0 it
      can only fail by reporting the column singular. */
  lemma StepKeepsInv(a: seq<seq<Scalar>>, s: State, k: nat, tol: real)
    requires Inv(a, s, k, tol) && k < |a|
    ensures Step(s, k, tol).Ok? ==> Inv(a, Step(s, k, tol).value, k + 1, tol)
    ensures Step(s, k, tol).Err? && tol >= 0.0 ==> Step(s, k, tol).error == Singular(k)
  {
    ScanFacts(s.w, k);
    var p := Scan(s.w, k).value.0;
    var best := Scan(s.w, k).value.1;
    if best > tol {
      var s1 := Exchange(s, k, p);
      ExchangeKeepsInv(a, s, k, p, tol);
      var pivot := s1.w[k][k];
      EliminateFromShape(s1.w, k, k + 1, pivot);
      if EliminateFrom(s1.w, k, k + 1, pivot).Ok? {
        EliminationKeepsInv(a, s1.w, s1.piv, k);
        var w2 := EliminateFrom(s1.w, k, k + 1, pivot).value;
        assert Step(s, k, tol) == Ok(State(w2, s1.piv, s1.sign));
        PivotsKept(s.w, s1.w, w2, k, tol);
      }
    }
  }

  /** The pivots of rows 0..k-1 stay in place and row k receives one above tol. */
  lemma PivotsKept(w: seq<seq<Scalar>>, w1: seq<seq<Scalar>>, w2: seq<seq<Scalar>>, k: nat, tol: real)
    requires IsSquare(w) && IsSquare(w1) && IsSquare(w2) && |w1| == |w| && |w2| == |w| && k < |w|
    requires AllFinite(w) && AllFinite(w1) && AllFinite(w2)
    requires forall i | 0 <= i < k :: Abs(w[i][i]).v > tol
    requires forall i | 0 <= i < k :: w1[i] == w[i]
    requires forall i | 0 <= i <= k :: w2[i] == w1[i]
    requires Abs(w1[k][k]).v > tol
    ensures forall i | 0 <= i < k + 1 :: Abs(w2[i][i]).v > tol
  {
    forall i | 0 <= i < k + 1
      ensures Abs(w2[i][i]).v > tol
    {
      assert w2[i] == w1[i];
    }
  }

  lemma {:induction false} FactorFromKeepsInv(a: seq<seq<Scalar>>, s: State, k: nat, tol: real)
    requires Inv(a, s, k, tol)
    ensures FactorFrom(s, k, tol).Ok? ==> Inv(a, FactorFrom(s, k, tol).value, |a|, tol)
    ensures FactorFrom(s, k, tol).Err? && tol >= 0.0 ==> FactorFrom(s, k, tol).error.Singular?
    decreases |a| - k
  {
    if k < |a| {
      StepKeepsInv(a, s, k, tol);
      if Step(s, k, tol).Ok? {
        FactorFromKeepsInv(a, Step(s, k, tol).value, k + 1, tol);
      }
    }
  }

  /** L: the multipliers strictly below the diagonal of the factors, ones on the diagonal. */
  function LowerOf(f: seq<seq<Scalar>>): (l: seq<seq<real>>)
    ensures |l| == |f| && IsSquareR(l)
  {
    seq(|f|, i => seq(|f|, m => if m < i then Val(f, i, m) else if m == i then 1.0 else 0.0))
  }

  /** U: the diagonal and the entries above it. */
  function UpperOf(f: seq<seq<Scalar>>): (u: seq<seq<real>>)
    ensures |u| == |f| && IsSquareR(u)
  {
    seq(|f|, m => seq(|f|, j => if m <= j then Val(f, m, j) else 0.0))
  }

  /** P·A: row i is row piv[i] of a. */
  function PermutedRows(a: seq<seq<Scalar>>, piv: seq<nat>): (pa: seq<seq<real>>)
    requires |piv| == |a|
    ensures |pa| == |a| && IsSquareR(pa)
  {
    seq(|a|, i requires 0 <= i < |a| => seq(|a|, j => Val(a, piv[i], j)))
  }

  /** After all steps, the reconstruction of entry (i, j) is entry (i, j) of L·U. */
  lemma LowerUpperEntry(w: seq<seq<Scalar>>, i: nat, j: nat)
    requires IsSquare(w) && i < |w| && j < |w|
    ensures MatMul(LowerOf(w), UpperOf(w))[i][j] == Recon(w, i, j, i)
  {
    var f := MulTerm(LowerOf(w), UpperOf(w), i, j);
    var q := Min(i, j + 1);
    SumSplit(0, q, |w|, f);
    LowerUpperHead(w, i, j);
    LowerUpperTail(w, i, j);
  }

  /** The columns m < min(i, j + 1) of row i of L against column j of U are the terms of
      `Recon`. */
  lemma LowerUpperHead(w: seq<seq<Scalar>>, i: nat, j: nat)
    requires IsSquare(w) && i < |w| && j < |w|
    ensures Sum(0, Min(i, j + 1), MulTerm(LowerOf(w), UpperOf(w), i, j)) == Sum(0, Min(i, j + 1), ReconTerm(w, i, j))
  {
    var l := LowerOf(w);
    var u := UpperOf(w);
    var f := MulTerm(l, u, i, j);
    var q := Min(i, j + 1);
    forall m | 0 <= m < q
      ensures f(m) == ReconTerm(w, i, j)(m)
    {
      assert At(l, i, m) == Val(w, i, m) && At(u, m, j) == Val(w, m, j);
    }
    SumExt(0, q, f, ReconTerm(w, i, j));
  }

  /** The remaining columns contribute w[i][j] through L's unit diagonal when i <= j and
      nothing otherwise. */
  lemma LowerUpperTail(w: seq<seq<Scalar>>, i: nat, j: nat)
    requires IsSquare(w) && i < |w| && j < |w|
    ensures Sum(Min(i, j + 1), |w|, MulTerm(LowerOf(w), UpperOf(w), i, j)) == if j >= i then Val(w, i, j) else 0.0
  {
    var n := |w|;
    var l := LowerOf(w);
    var u := UpperOf(w);
    var f := MulTerm(l, u, i, j);
    var q := Min(i, j + 1);
    if i <= j {
      forall m | q <= m < n && m != i
        ensures f(m) == 0.0
      {
        assert At(l, i, m) == 0.0;
      }
      SumSingle(q, n, f, i);
      assert f(i) == Val(w, i, j);
    } else {
      forall m | q <= m < n
        ensures f(m) == 0.0
      {
        assert At(u, m, j) == 0.0;
      }
      SumZero(q, n, f);
    }
  }

  /** `Lu::factor` on a finite matrix, in exact arithmetic: with tol >= 0 the only possible
      error is a singular column; on success `piv` is a permutation, `piv_sign` is its
      sign, every factor is finite, every pivot U[k][k] has |U[k][k]| > tol, and
      P·A = L·U. */
  lemma LuFactorizes(a: seq<seq<Scalar>>, tol: real)
    requires IsSquare(a) && AllFinite(a)
    ensures FactorSpec(a, tol).Err? && tol >= 0.0 ==> FactorSpec(a, tol).error.Singular?
    ensures FactorSpec(a, tol).Ok? ==>
              var lu := FactorSpec(a, tol).value;
              IsPermutation(lu.piv) && lu.pivSign == Sign(lu.piv) && AllFinite(lu.factors) &&
              (forall k | 0 <= k < |a| :: lu.factors[k][k].Fin? && Abs(lu.factors[k][k]).v > tol) &&
              MatMul(LowerOf(lu.factors), UpperOf(lu.factors)) == PermutedRows(a, lu.piv)
  {
    var s0 := State(a, Identity(|a|), 1.0);
    InitialInv(a, tol);
    FactorFromKeepsInv(a, s0, 0, tol);
    if FactorSpec(a, tol).Ok? {
      var s := FactorFrom(s0, 0, tol).value;
      forall i, j | 0 <= i < |a| && 0 <= j < |a|
        ensures MatMul(LowerOf(s.w), UpperOf(s.w))[i][j] == PermutedRows(a, s.piv)[i][j]
      {
        LowerUpperEntry(s.w, i, j);
        assert Min(i, |a|) == i;
      }
      var lu := MatMul(LowerOf(s.w), UpperOf(s.w));
      var pa := PermutedRows(a, s.piv);
      forall i | 0 <= i < |a|
        ensures lu[i] == pa[i]
      {
      }
      assert lu == pa;
    }
  }

  // ---------------------------------------------------------------------------
  // The solve in exact arithmetic.

  /** Forward substitution over finite values succeeds, keeps the rows before i, and
      leaves each row m >= i equal to its right-hand side minus Σ_{j < m} L[m][j]·y[j]. */
  lemma {:induction false} ForwardFromSolves(f: seq<seq<Scalar>>, x: seq<Scalar>, i: nat)
    requires IsSquare(f) && |x| == |f| && i <= |f| && AllFinite(f) && AllFiniteVec(x)
    ensures ForwardFrom(f, x, i).Ok?
    ensures var y := ForwardFrom(f, x, i).value;
      AllFiniteVec(y) && (forall m | 0 <= m < i :: y[m] == x[m]) &&
      (forall m | i <= m < |f| :: VVal(y, m) == VVal(x, m) - Sum(0, m, CoefTerm(f[m], y)))
    decreases |f| - i
  {
    if i < |f| {
      SubAccValue(f[i], x, x[i], 0, i);
      var sum := SubAcc(f[i], x, x[i], 0, i);
      var x' := x[i := sum];
      ForwardFromSolves(f, x', i + 1);
      var y := ForwardFrom(f, x', i + 1).value;
      ForwardRowFromStep(f, x, y, i, sum);
    }
  }

  /** Row i is solved once y[i] is x[i] less the terms of the rows solved above it. */
  lemma ForwardRowFromStep(f: seq<seq<Scalar>>, x: seq<Scalar>, y: seq<Scalar>, i: nat, sum: Scalar)
    requires IsSquare(f) && |x| == |f| && |y| == |f| && i < |f| && x[i].Fin?
    requires sum == Fin(x[i].v - Sum(0, i, CoefTerm(f[i], x)))
    requires forall m | 0 <= m < i + 1 :: y[m] == x[i := sum][m]
    ensures forall m | 0 <= m < i :: y[m] == x[m]
    ensures VVal(y, i) == VVal(x, i) - Sum(0, i, CoefTerm(f[i], y))
  {
    assert forall m | 0 <= m < i :: y[m] == x[m];
    CoefSumsAgree(f[i], x, y, 0, i);
    assert y[i] == sum;
  }

  /** Entry m of L·y is y[m] + Σ_{j < m} L[m][j]·y[j]. */
  lemma LowerTimes(f: seq<seq<Scalar>>, y: seq<Scalar>, m: nat)
    requires IsSquare(f) && |y| == |f| && m < |f|
    ensures MatVec(LowerOf(f), RealVecOf(y))[m] == Sum(0, m, CoefTerm(f[m], y)) + VVal(y, m)
  {
    var n := |f|;
    var t := VecTerm(LowerOf(f), RealVecOf(y), m);
    SumSplit(0, m, n, t);
    LowerTermsBelow(f, y, m);
    LowerTermsFrom(f, y, m);
  }

  lemma LowerTermsBelow(f: seq<seq<Scalar>>, y: seq<Scalar>, m: nat)
    requires IsSquare(f) && |y| == |f| && m < |f|
    ensures Sum(0, m, VecTerm(LowerOf(f), RealVecOf(y), m)) == Sum(0, m, CoefTerm(f[m], y))
  {
    var t := VecTerm(LowerOf(f), RealVecOf(y), m);
    forall j | 0 <= j < m
      ensures t(j) == CoefTerm(f[m], y)(j)
    {
      assert At(LowerOf(f), m, j) == Val(f, m, j) == VVal(f[m], j);
    }
    SumExt(0, m, t, CoefTerm(f[m], y));
  }

  lemma LowerTermsFrom(f: seq<seq<Scalar>>, y: seq<Scalar>, m: nat)
    requires IsSquare(f) && |y| == |f| && m < |f|
    ensures Sum(m, |f|, VecTerm(LowerOf(f), RealVecOf(y), m)) == VVal(y, m)
  {
    var t := VecTerm(LowerOf(f), RealVecOf(y), m);
    forall j | m <= j < |f| && j != m
      ensures t(j) == 0.0
    {
      assert At(LowerOf(f), m, j) == 0.0;
    }
    SumSingle(m, |f|, t, m);
    assert At(LowerOf(f), m, m) == 1.0;
    assert AtV(RealVecOf(y), m) == VVal(y, m);
  }

  /** Rows 0, ..., lo - 1 of z solve the upper triangular system U·z = x. */
  ghost predicate BackSolved(f: seq<seq<Scalar>>, x: seq<Scalar>, z: seq<Scalar>, lo: int)
    requires IsSquare(f) && |x| == |f| && |z| == |f| && lo <= |f|
  {
    forall m | 0 <= m < lo :: UpperRowHolds(f, x, z, m)
  }

  /** Row m of U·z = x: U[m][m]·z[m] + Σ_{j > m} U[m][j]·z[j] = x[m]. */
  ghost predicate UpperRowHolds(f: seq<seq<Scalar>>, x: seq<Scalar>, z: seq<Scalar>, m: nat)
    requires IsSquare(f) && |x| == |f| && |z| == |f| && m < |f|
  {
    Val(f, m, m) * VVal(z, m) + Sum(m + 1, |f|, CoefTerm(f[m], z)) == VVal(x, m)
  }

  /** Row i of one back-substitution step: z[i] = (x[i] - Σ_{j > i} U[i][j]·z[j]) / U[i][i]
      solves its row. */
  lemma {:induction false} BackRow(f: seq<seq<Scalar>>, tol: real, x: seq<Scalar>, z: seq<Scalar>, i: nat)
    requires IsSquare(f) && |x| == |f| && |z| == |f| && i < |f| && AllFinite(f) && AllFiniteVec(x)
    requires tol >= 0.0 && Abs(f[i][i]).v > tol
    requires forall m | i < m < |f| :: z[m] == x[m]
    requires z[i] == Div(SubAcc(f[i], x, x[i], i + 1, |f|), f[i][i])
    ensures z[i].Fin?
    ensures UpperRowHolds(f, x, z, i)
  {
    var n := |f|;
    SubAccValue(f[i], x, x[i], i + 1, n);
    var sum := SubAcc(f[i], x, x[i], i + 1, n);
    var diag := f[i][i];
    assert diag.v != 0.0;
    assert VVal(z, i) == sum.v / diag.v;
    MulDivCancel(diag.v, sum.v);
    assert Val(f, i, i) * VVal(z, i) == sum.v;
    SumExt(i + 1, n, CoefTerm(f[i], x), CoefTerm(f[i], z));
  }

  lemma MulDivCancel(d: real, s: real)
    requires d != 0.0
    ensures d * (s / d) == s
  {
  }

  /** One step of back substitution with finite values and a pivot above tol. */
  lemma {:induction false} LuBackStep(f: seq<seq<Scalar>>, tol: real, x: seq<Scalar>, ii: nat)
    requires IsSquare(f) && |x| == |f| && ii < |f| && AllFinite(f) && AllFiniteVec(x) && tol >= 0.0
    requires Abs(f[|f| - 1 - ii][|f| - 1 - ii]).v > tol
    ensures var i := |f| - 1 - ii;
      var q := Div(SubAcc(f[i], x, x[i], i + 1, |f|), f[i][i]);
      q.Fin? && LuBackFrom(f, tol, x, ii) == LuBackFrom(f, tol, x[i := q], ii + 1)
  {
    var i := |f| - 1 - ii;
    SubAccValue(f[i], x, x[i], i + 1, |f|);
    assert f[i][i].v != 0.0;
  }

  /** The rows above i, solved against x', stay solved against x when x' differs from x
      at most in row i. */
  lemma {:induction false} BackSolvedExtend(f: seq<seq<Scalar>>, x: seq<Scalar>, x': seq<Scalar>, z: seq<Scalar>, i: nat)
    requires IsSquare(f) && |x| == |f| && |x'| == |f| && |z| == |f| && i < |f|
    requires BackSolved(f, x', z, i)
    requires forall m | 0 <= m < i :: x'[m] == x[m]
    requires UpperRowHolds(f, x, z, i)
    ensures BackSolved(f, x, z, i + 1)
  {
    forall m | 0 <= m < i + 1
      ensures UpperRowHolds(f, x, z, m)
    {
      if m < i {
        assert UpperRowHolds(f, x', z, m);
        assert VVal(x', m) == VVal(x, m);
      }
    }
  }

  /** Back substitution over finite values with pivots of absolute value above
      tol >= 0 succeeds, keeps the rows already done, and leaves every other row i with
      U[i][i]·z[i] + Σ_{j > i} U[i][j]·z[j] equal to its right-hand side. */
  lemma {:induction false} LuBackFromSolves(f: seq<seq<Scalar>>, tol: real, x: seq<Scalar>, ii: nat)
    requires IsSquare(f) && |x| == |f| && ii <= |f| && AllFinite(f) && AllFiniteVec(x) && tol >= 0.0
    requires forall i | 0 <= i < |f| :: Abs(f[i][i]).v > tol
    ensures LuBackFrom(f, tol, x, ii).Ok?
    ensures var z := LuBackFrom(f, tol, x, ii).value;
      AllFiniteVec(z) && (forall m | |f| - ii <= m < |f| :: z[m] == x[m]) && BackSolved(f, x, z, |f| - ii)
    decreases |f| - ii
  {
    var n := |f|;
    if ii < n {
      var i := n - 1 - ii;
      LuBackStep(f, tol, x, ii);
      var x' := x[i := Div(SubAcc(f[i], x, x[i], i + 1, n), f[i][i])];
      LuBackFromSolves(f, tol, x', ii + 1);
      var z := LuBackFrom(f, tol, x', ii + 1).value;
      BackRow(f, tol, x, z, i);
      BackSolvedExtend(f, x, x', z, i);
    }
  }

  lemma UpperTermsBelow(f: seq<seq<Scalar>>, z: seq<Scalar>, i: nat)
    requires IsSquare(f) && |z| == |f| && i < |f|
    ensures Sum(0, i, VecTerm(UpperOf(f), RealVecOf(z), i)) == 0.0
  {
    var t := VecTerm(UpperOf(f), RealVecOf(z), i);
    forall j | 0 <= j < i
      ensures t(j) == 0.0
    {
      assert At(UpperOf(f), i, j) == 0.0;
    }
    SumZero(0, i, t);
  }

  lemma UpperTermsAbove(f: seq<seq<Scalar>>, z: seq<Scalar>, i: nat)
    requires IsSquare(f) && |z| == |f| && i < |f|
    ensures Sum(i + 1, |f|, VecTerm(UpperOf(f), RealVecOf(z), i)) == Sum(i + 1, |f|, CoefTerm(f[i], z))
  {
    var t := VecTerm(UpperOf(f), RealVecOf(z), i);
    forall j | i + 1 <= j < |f|
      ensures t(j) == CoefTerm(f[i], z)(j)
    {
      assert At(UpperOf(f), i, j) == Val(f, i, j) == VVal(f[i], j);
    }
    SumExt(i + 1, |f|, t, CoefTerm(f[i], z));
  }

  lemma {:induction false} UpperRowSum(f: seq<seq<Scalar>>, z: seq<Scalar>, i: nat)
    requires IsSquare(f) && |z| == |f| && i < |f|
    ensures Sum(0, |f|, VecTerm(UpperOf(f), RealVecOf(z), i)) ==
              Val(f, i, i) * VVal(z, i) + Sum(i + 1, |f|, CoefTerm(f[i], z))
  {
    var n := |f|;
    var t := VecTerm(UpperOf(f), RealVecOf(z), i);
    SumSplit(0, i, n, t);
    UpperTermsBelow(f, z, i);
    SumSplit(i, i + 1, n, t);
    assert Sum(i, i + 1, t) == t(i);
    assert At(UpperOf(f), i, i) == Val(f, i, i);
    assert AtV(RealVecOf(z), i) == VVal(z, i);
    assert t(i) == Val(f, i, i) * VVal(z, i);
    UpperTermsAbove(f, z, i);
    assert Sum(0, n, t) == Val(f, i, i) * VVal(z, i) + Sum(i + 1, n, CoefTerm(f[i], z));
  }

  /** Entry i of U·z is U[i][i]·z[i] + Σ_{j > i} U[i][j]·z[j]. */
  lemma UpperTimes(f: seq<seq<Scalar>>, z: seq<Scalar>, i: nat)
    requires IsSquare(f) && |z| == |f| && i < |f|
    ensures MatVec(UpperOf(f), RealVecOf(z))[i] == Val(f, i, i) * VVal(z, i) + Sum(i + 1, |f|, CoefTerm(f[i], z))
  {
    UpperRowSum(f, z, i);
  }

  /** Row i of (P·A)·x is row piv[i] of A·x. */
  lemma PermutedRowsTimes(a: seq<seq<Scalar>>, piv: seq<nat>, x: seq<real>, i: nat)
    requires IsSquare(a) && |piv| == |a| && |x| == |a| && i < |a| && piv[i] < |a|
    ensures MatVec(PermutedRows(a, piv), x)[i] == MatVec(RealOf(a), x)[piv[i]]
  {
    forall j | 0 <= j < |a|
      ensures VecTerm(PermutedRows(a, piv), x, i)(j) == VecTerm(RealOf(a), x, piv[i])(j)
    {
      assert At(PermutedRows(a, piv), i, j) == Val(a, piv[i], j) == At(RealOf(a), piv[i], j);
    }
    SumExt(0, |a|, VecTerm(PermutedRows(a, piv), x, i), VecTerm(RealOf(a), x, piv[i]));
  }

  /** Forward substitution over finite values succeeds with a finite y and L·y = x. */
  lemma {:induction false} LowerSolves(f: seq<seq<Scalar>>, x: seq<Scalar>)
    requires IsSquare(f) && |x| == |f| && AllFinite(f) && AllFiniteVec(x)
    ensures ForwardFrom(f, x, 0).Ok?
    ensures var y := ForwardFrom(f, x, 0).value;
      AllFiniteVec(y) && MatVec(LowerOf(f), RealVecOf(y)) == RealVecOf(x)
  {
    ForwardFromSolves(f, x, 0);
    var y := ForwardFrom(f, x, 0).value;
    forall m | 0 <= m < |f|
      ensures MatVec(LowerOf(f), RealVecOf(y))[m] == RealVecOf(x)[m]
    {
      LowerTimes(f, y, m);
    }
  }

  /** Back substitution over finite values with every pivot above tol >= 0 succeeds with
      a finite z and U·z = y. */
  lemma {:induction false} UpperSolves(f: seq<seq<Scalar>>, tol: real, y: seq<Scalar>)
    requires IsSquare(f) && |y| == |f| && AllFinite(f) && AllFiniteVec(y) && tol >= 0.0
    requires forall i | 0 <= i < |f| :: Abs(f[i][i]).v > tol
    ensures LuBackFrom(f, tol, y, 0).Ok?
    ensures var z := LuBackFrom(f, tol, y, 0).value;
      AllFiniteVec(z) && MatVec(UpperOf(f), RealVecOf(z)) == RealVecOf(y)
  {
    LuBackFromSolves(f, tol, y, 0);
    var z := LuBackFrom(f, tol, y, 0).value;
    UpperSystemHolds(f, y, z);
  }

  /** Every row of U·z = y holding is the whole system holding. */
  lemma UpperSystemHolds(f: seq<seq<Scalar>>, y: seq<Scalar>, z: seq<Scalar>)
    requires IsSquare(f) && |y| == |f| && |z| == |f| && BackSolved(f, y, z, |f|)
    ensures MatVec(UpperOf(f), RealVecOf(z)) == RealVecOf(y)
  {
    var lhs, rhs := MatVec(UpperOf(f), RealVecOf(z)), RealVecOf(y);
    forall i | 0 <= i < |f|
      ensures lhs[i] == rhs[i]
    {
      UpperTimes(f, z, i);
      assert UpperRowHolds(f, y, z, i);
    }
  }

  /** From (P·A)·z = P·b with P a permutation, A·z = b. */
  lemma UnpermuteSolution(a: seq<seq<Scalar>>, piv: seq<nat>, z: seq<real>, b: seq<Scalar>)
    requires IsSquare(a) && |piv| == |a| && |z| == |a| && |b| == |a| && IsPermutation(piv)
    requires MatVec(PermutedRows(a, piv), z) == RealVecOf(Permuted(b, piv))
    ensures MatVec(RealOf(a), z) == RealVecOf(b)
  {
    var n := |a|;
    forall r | 0 <= r < n
      ensures MatVec(RealOf(a), z)[r] == RealVecOf(b)[r]
    {
      assert r in piv;
      var i :| 0 <= i < n && piv[i] == r;
      PermutedRowsTimes(a, piv, z, i);
      assert RealVecOf(Permuted(b, piv))[i] == VVal(b, r);
    }
  }

  /** `Lu::solve_vec` after a successful `Lu::factor(a, tol)` with a finite a, a finite b
      and tol >= 0, in exact arithmetic: the solve succeeds (its `Singular` and
      `NonFinite` branches cannot fire) and its result x satisfies A·x = b. */
  lemma LuSolves(a: seq<seq<Scalar>>, tol: real, b: Vector)
    requires IsSquare(a) && AllFinite(a) && tol >= 0.0 && |b.data| == |a| && AllFiniteVec(b.data)
    requires FactorSpec(a, tol).Ok?
    ensures SolveSpec(FactorSpec(a, tol).value, b).Ok?
    ensures var x := SolveSpec(FactorSpec(a, tol).value, b).value;
      AllFiniteVec(x.data) && MatVec(RealOf(a), RealVecOf(x.data)) == RealVecOf(b.data)
  {
    LuFactorizes(a, tol);
    var lu := FactorSpec(a, tol).value;
    var f := lu.factors;
    var pb := Permuted(b.data, lu.piv);
    assert AllFiniteVec(pb);
    LowerSolves(f, pb);
    var y := ForwardFrom(f, pb, 0).value;
    UpperSolves(f, tol, y);
    var z := LuBackFrom(f, tol, y, 0).value;
    MatVecAssoc(LowerOf(f), UpperOf(f), RealVecOf(z));
    UnpermuteSolution(a, lu.piv, RealVecOf(z), b.data);
  }
}
