/** Finite sums of reals and the exact linear algebra the factorizations are stated in:
    matrix products and matrix-vector products over `seq<seq<real>>`. */
module RealSums {

  /** f(lo) + f(lo + 1) + ... + f(hi - 1), accumulated from the left. */
  function Sum(lo: int, hi: int, f: int -> real): real
    decreases hi - lo
  {
    if hi <= lo then 0.0 else Sum(lo, hi - 1, f) + f(hi - 1)
  }

  lemma {:induction false} SumExt(lo: int, hi: int, f: int -> real, g: int -> real)
    requires forall m :: lo <= m < hi ==> f(m) == g(m)
    ensures Sum(lo, hi, f) == Sum(lo, hi, g)
    decreases hi - lo
  {
    if lo < hi {
      SumExt(lo, hi - 1, f, g);
    }
  }

  lemma {:induction false} SumZero(lo: int, hi: int, f: int -> real)
    requires forall m :: lo <= m < hi ==> f(m) == 0.0
    ensures Sum(lo, hi, f) == 0.0
    decreases hi - lo
  {
    if lo < hi {
      SumZero(lo, hi - 1, f);
    }
  }

  lemma {:induction false} SumSplit(lo: int, mid: int, hi: int, f: int -> real)
    requires lo <= mid <= hi
    ensures Sum(lo, hi, f) == Sum(lo, mid, f) + Sum(mid, hi, f)
    decreases hi - mid
  {
    if mid < hi {
      SumSplit(lo, mid, hi - 1, f);
    }
  }

  /** A sum whose terms vanish except at p is f(p). */
  lemma SumSingle(lo: int, hi: int, f: int -> real, p: int)
    requires lo <= p < hi
    requires forall m :: lo <= m < hi && m != p ==> f(m) == 0.0
    ensures Sum(lo, hi, f) == f(p)
  {
    SumSplit(lo, p, hi, f);
    SumZero(lo, p, f);
    SumSplit(p, p + 1, hi, f);
    SumZero(p + 1, hi, f);
  }

  function Scaled(c: real, f: int -> real): int -> real {
    m => c * f(m)
  }

  lemma {:induction false} SumScale(lo: int, hi: int, c: real, f: int -> real)
    ensures Sum(lo, hi, Scaled(c, f)) == c * Sum(lo, hi, f)
    decreases hi - lo
  {
    if lo < hi {
      SumScale(lo, hi - 1, c, f);
    }
  }

  function Plus(f: int -> real, g: int -> real): int -> real {
    m => f(m) + g(m)
  }

  lemma {:induction false} SumPlus(lo: int, hi: int, f: int -> real, g: int -> real)
    ensures Sum(lo, hi, Plus(f, g)) == Sum(lo, hi, f) + Sum(lo, hi, g)
    decreases hi - lo
  {
    if lo < hi {
      SumPlus(lo, hi - 1, f, g);
    }
  }

  /** Row i of a function of two indices. */
  function RowFn(F: (int, int) -> real, i: int): int -> real {
    j => F(i, j)
  }

  /** Column j of a function of two indices. */
  function ColFn(F: (int, int) -> real, j: int): int -> real {
    i => F(i, j)
  }

  function RowSums(F: (int, int) -> real, n2: int): int -> real {
    i => Sum(0, n2, RowFn(F, i))
  }

  function ColSums(F: (int, int) -> real, n1: int): int -> real {
    j => Sum(0, n1, ColFn(F, j))
  }

  /** A finite double sum may be taken in either order. */
  lemma {:induction false} SumInterchange(n1: int, n2: int, F: (int, int) -> real)
    ensures Sum(0, n1, RowSums(F, n2)) == Sum(0, n2, ColSums(F, n1))
    decreases n1
  {
    if n1 <= 0 {
      SumZero(0, n2, ColSums(F, n1));
    } else {
      SumInterchange(n1 - 1, n2, F);
      SumExt(0, n2, ColSums(F, n1), Plus(ColSums(F, n1 - 1), RowFn(F, n1 - 1)));
      SumPlus(0, n2, ColSums(F, n1 - 1), RowFn(F, n1 - 1));
    }
  }

  // ---------------------------------------------------------------------------
  // Real matrices and vectors.

  predicate IsSquareR(a: seq<seq<real>>) {
    forall i | 0 <= i < |a| :: |a[i]| == |a|
  }

  /** Total accessors: 0 outside the bounds. */
  function At(a: seq<seq<real>>, i: int, j: int): real {
    if 0 <= i < |a| && 0 <= j < |a[i]| then a[i][j] else 0.0
  }

  function AtV(x: seq<real>, i: int): real {
    if 0 <= i < |x| then x[i] else 0.0
  }

  function MulTerm(a: seq<seq<real>>, b: seq<seq<real>>, i: int, j: int): int -> real {
    m => At(a, i, m) * At(b, m, j)
  }

  /** The product of two n×n matrices. */
  function MatMul(a: seq<seq<real>>, b: seq<seq<real>>): (c: seq<seq<real>>)
    ensures |c| == |a| && IsSquareR(c)
    ensures forall i, j | 0 <= i < |a| && 0 <= j < |a| :: c[i][j] == Sum(0, |a|, MulTerm(a, b, i, j))
  {
    seq(|a|, i => seq(|a|, j => Sum(0, |a|, MulTerm(a, b, i, j))))
  }

  function VecTerm(a: seq<seq<real>>, x: seq<real>, i: int): int -> real {
    j => At(a, i, j) * AtV(x, j)
  }

  /** The product of an n×n matrix and an n-vector. */
  function MatVec(a: seq<seq<real>>, x: seq<real>): (y: seq<real>)
    ensures |y| == |a|
    ensures forall i | 0 <= i < |a| :: y[i] == Sum(0, |a|, VecTerm(a, x, i))
  {
    seq(|a|, i => Sum(0, |a|, VecTerm(a, x, i)))
  }

  function Transpose(a: seq<seq<real>>): (t: seq<seq<real>>)
    ensures |t| == |a| && IsSquareR(t)
    ensures forall i, j | 0 <= i < |a| && 0 <= j < |a| :: t[i][j] == At(a, j, i)
  {
    seq(|a|, i => seq(|a|, j => At(a, j, i)))
  }

  function AssocTerm(a: seq<seq<real>>, b: seq<seq<real>>, x: seq<real>, i: int): (int, int) -> real {
    (m, j) => At(a, i, m) * At(b, m, j) * AtV(x, j)
  }

  lemma AssocLeftEntry(a: seq<seq<real>>, b: seq<seq<real>>, x: seq<real>, i: int, j: int, n: int)
    ensures Sum(0, n, MulTerm(a, b, i, j)) * AtV(x, j) == ColSums(AssocTerm(a, b, x, i), n)(j)
  {
    var F := AssocTerm(a, b, x, i);
    SumScale(0, n, AtV(x, j), MulTerm(a, b, i, j));
    forall m ensures Scaled(AtV(x, j), MulTerm(a, b, i, j))(m) == ColFn(F, j)(m) {
      assert Scaled(AtV(x, j), MulTerm(a, b, i, j))(m) == AtV(x, j) * (At(a, i, m) * At(b, m, j));
      assert ColFn(F, j)(m) == At(a, i, m) * At(b, m, j) * AtV(x, j);
    }
    SumExt(0, n, Scaled(AtV(x, j), MulTerm(a, b, i, j)), ColFn(F, j));
  }

  lemma AssocRightEntry(a: seq<seq<real>>, b: seq<seq<real>>, x: seq<real>, i: int, m: int, n: int)
    ensures At(a, i, m) * Sum(0, n, VecTerm(b, x, m)) == RowSums(AssocTerm(a, b, x, i), n)(m)
  {
    var F := AssocTerm(a, b, x, i);
    SumScale(0, n, At(a, i, m), VecTerm(b, x, m));
    forall j ensures Scaled(At(a, i, m), VecTerm(b, x, m))(j) == RowFn(F, m)(j) {
      assert Scaled(At(a, i, m), VecTerm(b, x, m))(j) == At(a, i, m) * (At(b, m, j) * AtV(x, j));
      assert RowFn(F, m)(j) == At(a, i, m) * At(b, m, j) * AtV(x, j);
    }
    SumExt(0, n, Scaled(At(a, i, m), VecTerm(b, x, m)), RowFn(F, m));
  }

  lemma MatVecAssocRow(a: seq<seq<real>>, b: seq<seq<real>>, x: seq<real>, i: int)
    requires |b| == |a| && |x| == |a| && 0 <= i < |a|
    ensures MatVec(MatMul(a, b), x)[i] == MatVec(a, MatVec(b, x))[i]
  {
    var n := |a|;
    var ab := MatMul(a, b);
    var bx := MatVec(b, x);
    var F := AssocTerm(a, b, x, i);
    forall j | 0 <= j < n
      ensures VecTerm(ab, x, i)(j) == ColSums(F, n)(j)
    {
      AssocLeftEntry(a, b, x, i, j, n);
    }
    SumExt(0, n, VecTerm(ab, x, i), ColSums(F, n));
    forall m | 0 <= m < n
      ensures VecTerm(a, bx, i)(m) == RowSums(F, n)(m)
    {
      AssocRightEntry(a, b, x, i, m, n);
    }
    SumExt(0, n, VecTerm(a, bx, i), RowSums(F, n));
    SumInterchange(n, n, F);
  }

  /** (A·B)·x = A·(B·x) for n×n matrices. */
  lemma MatVecAssoc(a: seq<seq<real>>, b: seq<seq<real>>, x: seq<real>)
    requires |b| == |a| && |x| == |a|
    ensures MatVec(MatMul(a, b), x) == MatVec(a, MatVec(b, x))
  {
    forall i | 0 <= i < |a|
      ensures MatVec(MatMul(a, b), x)[i] == MatVec(a, MatVec(b, x))[i]
    {
      MatVecAssocRow(a, b, x, i);
    }
  }
}
