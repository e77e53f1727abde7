/** `Vector<D>` (src/vector.rs): a fixed-length array of doubles with value semantics. */
module Vectors {
  import opened Scalars
  import opened Storage
  import opened RealSums

  /** The length of `data` is the dimension D. No operation changes a vector in place. */
  datatype Vector = Vector(data: seq<Scalar>)

  /** `Vector::new`. */
  function New(data: seq<Scalar>): Vector {
    Vector(data)
  }

  /** `as_array`: borrows the backing array. */
  function AsArray(v: Vector): seq<Scalar> {
    v.data
  }

  /** `into_array`: gives the backing array back. */
  function IntoArray(v: Vector): seq<Scalar> {
    v.data
  }

  /** Wrapping an array and unwrapping it again is the identity. */
  lemma NewRoundTrip(a: seq<Scalar>)
    ensures IntoArray(New(a)) == a && AsArray(New(a)) == a
    ensures New(IntoArray(Vector(a))) == Vector(a)
  {
  }

  /** `Vector::zero`: all entries are zero. */
  function Zero(n: nat): (z: Vector)
    ensures |z.data| == n
    ensures forall i | 0 <= i < n :: z.data[i] == Fin(0.0)
  {
    Vector(seq(n, i => Fin(0.0)))
  }

  /** `Default` is the zero vector. */
  function Default(n: nat): (z: Vector)
    ensures |z.data| == n
    ensures forall i | 0 <= i < n :: z.data[i] == Fin(0.0)
  {
    Zero(n)
  }

  /** The accumulator of `dot` after the first t terms: `acc = a[i].mul_add(b[i], acc)`
      for i = 0, 1, ..., t - 1, starting from 0. */
  function DotPrefix(a: seq<Scalar>, b: seq<Scalar>, t: nat): Scalar
    requires t <= |a| && t <= |b|
  {
    if t == 0 then Fin(0.0) else MulAdd(a[t - 1], b[t - 1], DotPrefix(a, b, t - 1))
  }

  function DotSpec(a: Vector, b: Vector): Scalar
    requires |a.data| == |b.data|
  {
    DotPrefix(a.data, b.data, |a.data|)
  }

  function ProdTerm(a: seq<Scalar>, b: seq<Scalar>): int -> real {
    i => VVal(a, i) * VVal(b, i)
  }

  /** With finite entries the accumulator holds the exact sum of products. */
  lemma {:induction false} DotPrefixValue(a: seq<Scalar>, b: seq<Scalar>, t: nat)
    requires t <= |a| && t <= |b| && AllFiniteVec(a) && AllFiniteVec(b)
    ensures DotPrefix(a, b, t) == Fin(Sum(0, t, ProdTerm(a, b)))
  {
    if t > 0 {
      DotPrefixValue(a, b, t - 1);
    }
  }

  /** A non-finite entry in either operand makes the dot product non-finite. */
  lemma {:induction false} DotPrefixNonFinite(a: seq<Scalar>, b: seq<Scalar>, t: nat, i: nat)
    requires t <= |a| && t <= |b| && i < t && (a[i] == NonFin || b[i] == NonFin)
    ensures DotPrefix(a, b, t) == NonFin
  {
    if i < t - 1 {
      DotPrefixNonFinite(a, b, t - 1, i);
    }
  }

  /** `dot`: accumulates left to right with fused multiply-adds. */
  method Dot(a: Vector, b: Vector) returns (acc: Scalar)
    requires |a.data| == |b.data|
    ensures acc == DotSpec(a, b)
    ensures AllFiniteVec(a.data) && AllFiniteVec(b.data) ==>
              acc == Fin(Sum(0, |a.data|, ProdTerm(a.data, b.data)))
  {
    acc := Fin(0.0);
    for i := 0 to |a.data|
      invariant acc == DotPrefix(a.data, b.data, i)
    {
      acc := MulAdd(a.data[i], b.data[i], acc);
    }
    if AllFiniteVec(a.data) && AllFiniteVec(b.data) {
      DotPrefixValue(a.data, b.data, |a.data|);
    }
  }

  /** `dot` is commutative, also when entries are non-finite. */
  lemma {:induction false} DotPrefixCommutative(a: seq<Scalar>, b: seq<Scalar>, t: nat)
    requires t <= |a| && t <= |b|
    ensures DotPrefix(a, b, t) == DotPrefix(b, a, t)
  {
    if t > 0 {
      DotPrefixCommutative(a, b, t - 1);
      assert Mul(a[t - 1], b[t - 1]) == Mul(b[t - 1], a[t - 1]);
    }
  }

  lemma DotCommutative(a: Vector, b: Vector)
    requires |a.data| == |b.data|
    ensures DotSpec(a, b) == DotSpec(b, a)
  {
    DotPrefixCommutative(a.data, b.data, |a.data|);
  }

  /** The dot product of a finite vector with the zero vector is 0. (With an infinite
      entry it is NaN, since infinity times zero is NaN.) */
  lemma DotWithZero(a: Vector)
    ensures AllFiniteVec(a.data) ==> DotSpec(a, Zero(|a.data|)) == Fin(0.0)
    ensures !AllFiniteVec(a.data) ==> DotSpec(a, Zero(|a.data|)) == NonFin
  {
    var z := Zero(|a.data|);
    if AllFiniteVec(a.data) {
      DotPrefixValue(a.data, z.data, |a.data|);
      SumZero(0, |a.data|, ProdTerm(a.data, z.data));
    } else {
      var i :| 0 <= i < |a.data| && !a.data[i].Fin?;
      DotPrefixNonFinite(a.data, z.data, |a.data|, i);
    }
  }

  function SquareTerm(a: seq<Scalar>): int -> real {
    i => VVal(a, i) * VVal(a, i)
  }

  lemma {:induction false} SumOfSquaresNonNegative(a: seq<Scalar>, t: int)
    ensures Sum(0, t, SquareTerm(a)) >= 0.0
    decreases t
  {
    if t > 0 {
      SumOfSquaresNonNegative(a, t - 1);
    }
  }

  /** `norm2_sq`: the dot product of a vector with itself, non-negative when finite. */
  method Norm2Sq(a: Vector) returns (r: Scalar)
    ensures r == DotSpec(a, a)
    ensures AllFiniteVec(a.data) ==> r.Fin? && r.v >= 0.0
  {
    r := Dot(a, a);
    if AllFiniteVec(a.data) {
      SumExt(0, |a.data|, ProdTerm(a.data, a.data), SquareTerm(a.data));
      SumOfSquaresNonNegative(a.data, |a.data|);
    }
  }

  /** [1, 2, 3] · [-2, 0.5, 4] = 11. */
  lemma DotExample()
    ensures DotSpec(Vector([Fin(1.0), Fin(2.0), Fin(3.0)]), Vector([Fin(-2.0), Fin(0.5), Fin(4.0)])) == Fin(11.0)
  {
    var a := [Fin(1.0), Fin(2.0), Fin(3.0)];
    var b := [Fin(-2.0), Fin(0.5), Fin(4.0)];
    assert DotPrefix(a, b, 0) == Fin(0.0);
    assert a[0] == Fin(1.0) && b[0] == Fin(-2.0);
    assert DotPrefix(a, b, 1) == MulAdd(a[0], b[0], DotPrefix(a, b, 0));
    assert DotPrefix(a, b, 1) == Fin(-2.0);
    assert a[1] == Fin(2.0) && b[1] == Fin(0.5);
    assert DotPrefix(a, b, 2) == MulAdd(a[1], b[1], DotPrefix(a, b, 1));
    assert DotPrefix(a, b, 2) == Fin(-1.0);
    assert a[2] == Fin(3.0) && b[2] == Fin(4.0);
    assert DotPrefix(a, b, 3) == MulAdd(a[2], b[2], DotPrefix(a, b, 2));
  }
}
