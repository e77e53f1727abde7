/** Row permutations as index sequences, and their sign by counting inversions. */
module Permutations {

  /** Entries pairwise different. */
  predicate Distinct(p: seq<nat>) {
    forall i, j | 0 <= i < j < |p| :: p[i] != p[j]
  }

  /** p lists each of 0, 1, ..., |p| - 1 exactly once. */
  predicate IsPermutation(p: seq<nat>) {
    (forall i | 0 <= i < |p| :: p[i] < |p|) && Distinct(p) && (forall r | 0 <= r < |p| :: r in p)
  }

  /** The identity permutation `[0, 1, ..., n - 1]`. */
  function Identity(n: nat): (p: seq<nat>)
    ensures |p| == n && forall i | 0 <= i < n :: p[i] == i
  {
    seq(n, i => i)
  }

  /** `slice::swap(i, j)` on a value. */
  function Swap<T>(s: seq<T>, i: nat, j: nat): (t: seq<T>)
    requires i < |s| && j < |s|
    ensures |t| == |s| && t[i] == s[j] && t[j] == s[i]
    ensures forall m | 0 <= m < |s| && m != i && m != j :: t[m] == s[m]
  {
    s[i := s[j]][j := s[i]]
  }

  lemma IdentityIsPermutation(n: nat)
    ensures IsPermutation(Identity(n))
  {
    forall r | 0 <= r < n
      ensures r in Identity(n)
    {
      assert Identity(n)[r] == r;
    }
  }

  /** How many entries of s are smaller than x. */
  function Below(x: nat, s: seq<nat>): nat {
    if |s| == 0 then 0 else (if s[0] < x then 1 else 0) + Below(x, s[1..])
  }

  /** How many pairs i < j have s[i] > s[j]. */
  function Inversions(s: seq<nat>): nat {
    if |s| == 0 then 0 else Below(s[0], s[1..]) + Inversions(s[1..])
  }

  /** The sign of a permutation: +1 for an even number of inversions, -1 for odd. */
  function Sign(s: seq<nat>): (r: real)
    ensures r == 1.0 || r == -1.0
  {
    if Inversions(s) % 2 == 0 then 1.0 else -1.0
  }

  /** Below does not see the order of adjacent entries. */
  lemma {:induction false} BelowSwapAdjacent(x: nat, s: seq<nat>, i: nat)
    requires i + 1 < |s|
    ensures Below(x, Swap(s, i, i + 1)) == Below(x, s)
  {
    var t := Swap(s, i, i + 1);
    if i == 0 {
      assert t[1..][1..] == s[1..][1..];
    } else {
      assert t[1..] == Swap(s[1..], i - 1, i);
      BelowSwapAdjacent(x, s[1..], i - 1);
    }
  }

  /** Exchanging two adjacent different entries adds or removes exactly one inversion. */
  lemma {:induction false} InversionsSwapAdjacent(s: seq<nat>, i: nat)
    requires i + 1 < |s| && s[i] != s[i + 1]
    ensures Inversions(Swap(s, i, i + 1)) == Inversions(s) + 1 || Inversions(Swap(s, i, i + 1)) + 1 == Inversions(s)
  {
    var t := Swap(s, i, i + 1);
    if i == 0 {
      assert t[1..][1..] == s[1..][1..];
      assert t[1..] == [s[0]] + s[1..][1..];
      assert s[1..] == [s[1]] + s[1..][1..];
      assert ([s[0]] + s[1..][1..])[1..] == s[1..][1..];
      assert ([s[1]] + s[1..][1..])[1..] == s[1..][1..];
    } else {
      assert t[1..] == Swap(s[1..], i - 1, i);
      InversionsSwapAdjacent(s[1..], i - 1);
      BelowSwapAdjacent(s[0], s[1..], i - 1);
    }
  }

  lemma SwapDistinct(p: seq<nat>, i: nat, j: nat)
    requires Distinct(p) && i < |p| && j < |p|
    ensures Distinct(Swap(p, i, j))
  {
    var q := Swap(p, i, j);
    forall a, b | 0 <= a < b < |q|
      ensures q[a] != q[b]
    {
      var a' := if a == i then j else if a == j then i else a;
      var b' := if b == i then j else if b == j then i else b;
      assert q[a] == p[a'] && q[b] == p[b'] && a' != b';
      if a' < b' {
      } else {
      }
    }
  }

  /** Swapping two entries keeps a permutation a permutation. */
  lemma SwapPreservesPermutation(p: seq<nat>, i: nat, j: nat)
    requires IsPermutation(p) && i < |p| && j < |p|
    ensures IsPermutation(Swap(p, i, j))
  {
    SwapDistinct(p, i, j);
    var q := Swap(p, i, j);
    forall r | 0 <= r < |p|
      ensures r in q
    {
      assert r in p;
      var m :| 0 <= m < |p| && p[m] == r;
      var m' := if m == i then j else if m == j then i else m;
      assert q[m'] == r;
    }
  }

  /** Exchanging any two different positions of a sequence of distinct entries changes
      the parity of the inversion count: the exchange is an odd number of adjacent ones. */
  lemma {:induction false} SwapFlipsParity(s: seq<nat>, i: nat, j: nat)
    requires Distinct(s) && i < j < |s|
    ensures Inversions(Swap(s, i, j)) % 2 != Inversions(s) % 2
    decreases j - i
  {
    if j == i + 1 {
      InversionsSwapAdjacent(s, i);
    } else {
      var s1 := Swap(s, i, i + 1);
      var s2 := Swap(s1, i + 1, j);
      ThreeSwaps(s, i, j);
      assert s[i] != s[i + 1];
      InversionsSwapAdjacent(s, i);
      SwapDistinct(s, i, i + 1);
      SwapFlipsParity(s1, i + 1, j);
      SwapDistinct(s1, i + 1, j);
      assert s2[i] != s2[i + 1];
      InversionsSwapAdjacent(s2, i);
      ParityChain(Inversions(s), Inversions(s1), Inversions(s2), Inversions(Swap(s, i, j)));
    }
  }

  /** Exchanging i and j, i + 1 < j, is exchanging i and i + 1, then i + 1 and j, then
      i and i + 1 again. */
  lemma ThreeSwaps(s: seq<nat>, i: nat, j: nat)
    requires i + 1 < j < |s|
    ensures Swap(Swap(Swap(s, i, i + 1), i + 1, j), i, i + 1) == Swap(s, i, j)
  {
    var s3 := Swap(Swap(Swap(s, i, i + 1), i + 1, j), i, i + 1);
    forall m | 0 <= m < |s|
      ensures s3[m] == Swap(s, i, j)[m]
    {
    }
  }

  /** One step, an odd change, one step: the parity flips. */
  lemma ParityChain(a: int, b: int, c: int, d: int)
    requires b == a + 1 || b + 1 == a
    requires c % 2 != b % 2
    requires d == c + 1 || d + 1 == c
    ensures d % 2 != a % 2
  {
  }

  /** Exchanging two different entries of a permutation negates its sign. */
  lemma SwapNegatesSign(p: seq<nat>, i: nat, j: nat)
    requires IsPermutation(p) && i < |p| && j < |p| && i != j
    ensures Sign(Swap(p, i, j)) == -Sign(p)
  {
    if i < j {
      SwapFlipsParity(p, i, j);
    } else {
      assert Swap(p, i, j) == Swap(p, j, i);
      SwapFlipsParity(p, j, i);
    }
  }

  lemma {:induction false} BelowNone(x: nat, s: seq<nat>)
    requires forall k | 0 <= k < |s| :: x <= s[k]
    ensures Below(x, s) == 0
    decreases |s|
  {
    if |s| > 0 {
      BelowNone(x, s[1..]);
    }
  }

  /** An increasing sequence has no inversions. */
  lemma {:induction false} IncreasingNoInversions(s: seq<nat>)
    requires forall a, b | 0 <= a < b < |s| :: s[a] < s[b]
    ensures Inversions(s) == 0
    decreases |s|
  {
    if |s| > 0 {
      BelowNone(s[0], s[1..]);
      IncreasingNoInversions(s[1..]);
    }
  }

  /** The identity permutation has sign +1. */
  lemma IdentitySign(n: nat)
    ensures Sign(Identity(n)) == 1.0
  {
    IncreasingNoInversions(Identity(n));
  }
}
