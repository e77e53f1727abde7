/** `faer_perm_sign` (benches/vs_linalg.rs): the sign of a permutation, (-1)^(n - cycles),
    with the cycles counted by walking each one from its first index and marking the
    indices it visits in a `seen` array. The number of cycles is defined independently
    here as the number of indices that are the least element of their own orbit. */
module CycleSign {
  import opened Permutations

  /** One application of the permutation; an index outside it stays where it is. */
  function Next(f: seq<nat>, j: nat): nat {
    if j < |f| then f[j] else j
  }

  /** The permutation applied k times to i. */
  function Iter(f: seq<nat>, i: nat, k: nat): nat {
    if k == 0 then i else Next(f, Iter(f, i, k - 1))
  }

  /** i is the least index of its cycle. */
  ghost predicate Leader(f: seq<nat>, i: nat) {
    forall k: nat :: Iter(f, i, k) >= i
  }

  /** The cycles whose least index is below m, each named by that index. */
  ghost function Leaders(f: seq<nat>, m: nat): set<nat> {
    set i | 0 <= i < m && Leader(f, i)
  }

  /** The number of disjoint cycles of f. */
  ghost function CycleCount(f: seq<nat>): nat {
    |Leaders(f, |f|)|
  }

  /** (-1)^(n - cycles) for cycles <= n. */
  function ParitySign(n: nat, cycles: nat): (r: real)
    requires cycles <= n
    ensures r == 1.0 || r == -1.0
  {
    if (n - cycles) % 2 == 0 then 1.0 else -1.0
  }

  // ---------------------------------------------------------------------------
  // Facts about iteration.

  lemma {:induction false} IterAdd(f: seq<nat>, i: nat, a: nat, b: nat)
    ensures Iter(f, Iter(f, i, a), b) == Iter(f, i, a + b)
    decreases b
  {
    if b > 0 {
      IterAdd(f, i, a, b - 1);
    }
  }

  lemma {:induction false} IterBound(f: seq<nat>, i: nat, k: nat)
    requires IsPermutation(f) && i < |f|
    ensures Iter(f, i, k) < |f|
    decreases k
  {
    if k > 0 {
      IterBound(f, i, k - 1);
    }
  }

  lemma NextInjective(f: seq<nat>, x: nat, y: nat)
    requires IsPermutation(f) && x < |f| && y < |f| && Next(f, x) == Next(f, y)
    ensures x == y
  {
  }

  /** i lies on a cycle of length p. */
  ghost predicate Periodic(f: seq<nat>, i: nat) {
    exists p: nat :: p >= 1 && Iter(f, i, p) == i
  }

  lemma {:induction false} IterMultiple(f: seq<nat>, i: nat, p: nat, m: nat)
    requires Iter(f, i, p) == i
    ensures Iter(f, i, m * p) == i
    decreases m
  {
    if m > 0 {
      IterMultiple(f, i, p, m - 1);
      IterAdd(f, i, (m - 1) * p, p);
      assert (m - 1) * p + p == m * p;
    }
  }

  /** On a cycle of length t, k steps land where k mod t steps do. */
  lemma {:induction false} IterMod(f: seq<nat>, i: nat, t: nat, k: nat)
    requires t >= 1 && Iter(f, i, t) == i
    ensures Iter(f, i, k) == Iter(f, i, k % t)
  {
    var q := k / t;
    IterMultiple(f, i, t, q);
    IterAdd(f, i, q * t, k % t);
    assert q * t + k % t == k;
  }

  // ---------------------------------------------------------------------------
  // Sets of indices closed under the permutation.

  /** The successor of a marked index is marked. */
  ghost predicate ClosedForward(f: seq<nat>, s: seq<bool>)
    requires |s| == |f| && IsPermutation(f)
  {
    forall x | 0 <= x < |f| && s[x] :: s[f[x]]
  }

  /** Every marked index lies on a cycle. */
  ghost predicate AllPeriodic(f: seq<nat>, s: seq<bool>)
    requires |s| == |f|
  {
    forall x | 0 <= x < |f| && s[x] :: Periodic(f, x)
  }

  lemma {:induction false} ForwardIter(f: seq<nat>, s: seq<bool>, z: nat, k: nat)
    requires |s| == |f| && IsPermutation(f) && ClosedForward(f, s) && z < |f| && s[z]
    ensures Iter(f, z, k) < |f| && s[Iter(f, z, k)]
    decreases k
  {
    if k > 0 {
      ForwardIter(f, s, z, k - 1);
    }
  }

  /** The predecessor of a marked index is marked: going round the cycle of f[x] comes
      back to x. */
  lemma {:induction false} BackwardStep(f: seq<nat>, s: seq<bool>, x: nat)
    requires |s| == |f| && IsPermutation(f) && ClosedForward(f, s) && AllPeriodic(f, s)
    requires x < |f| && s[f[x]]
    ensures s[x]
  {
    var y := f[x];
    assert Periodic(f, y);
    var p: nat :| p >= 1 && Iter(f, y, p) == y;
    ForwardIter(f, s, y, p - 1);
    var z := Iter(f, y, p - 1);
    assert Next(f, z) == Next(f, x);
    NextInjective(f, z, x);
  }

  lemma {:induction false} BackwardIter(f: seq<nat>, s: seq<bool>, z: nat, k: nat)
    requires |s| == |f| && IsPermutation(f) && ClosedForward(f, s) && AllPeriodic(f, s)
    requires z < |f| && Iter(f, z, k) < |f| && s[Iter(f, z, k)]
    ensures s[z]
    decreases k
  {
    if k > 0 {
      IterBound(f, z, k - 1);
      IterBound(f, z, k);
      BackwardStep(f, s, Iter(f, z, k - 1));
      BackwardIter(f, s, z, k - 1);
    }
  }

  // ---------------------------------------------------------------------------
  // The outer loop: after the starts 0, 1, ..., m - 1 exactly the orbits of those
  // starts are marked.

  ghost predicate InOrbit(f: seq<nat>, j: nat, x: nat) {
    exists k: nat :: Iter(f, j, k) == x
  }

  ghost predicate Covered(f: seq<nat>, m: nat, x: nat) {
    exists j: nat :: j < m && InOrbit(f, j, x)
  }

  ghost predicate Marked(f: seq<nat>, s: seq<bool>, m: nat)
    requires |s| == |f| && IsPermutation(f)
  {
    (forall x | 0 <= x < |f| :: s[x] <==> Covered(f, m, x)) && ClosedForward(f, s) && AllPeriodic(f, s)
  }

  /** An unmarked start is the least index of its cycle: were some later index of that cycle
      smaller, it would be marked, and so would the start. */
  lemma {:induction false} UnmarkedIsLeader(f: seq<nat>, s: seq<bool>, m: nat)
    requires |s| == |f| && IsPermutation(f) && m < |f| && Marked(f, s, m) && !s[m]
    ensures Leader(f, m)
  {
    forall k: nat
      ensures Iter(f, m, k) >= m
    {
      var y := Iter(f, m, k);
      if y < m {
        IterBound(f, m, k);
        assert InOrbit(f, y, y) by { assert Iter(f, y, 0) == y; }
        assert Covered(f, m, y);
        BackwardIter(f, s, m, k);
        assert false;
      }
    }
  }

  lemma MulAtLeast(k: nat, q: nat)
    requires q >= 1
    ensures k * q >= k
  {
  }

  /** j's cycle reaches j again from any index on it. */
  lemma {:induction false} BackToStart(f: seq<nat>, j: nat, k: nat, q: nat)
    requires q >= 1 && Iter(f, j, q) == j
    ensures Iter(f, Iter(f, j, k), k * q - k) == j
  {
    IterMultiple(f, j, q, k);
    MulAtLeast(k, q);
    IterAdd(f, j, k, k * q - k);
  }

  /** A marked start lies on the cycle of an earlier start, so the cycle reaches below it. */
  lemma {:induction false} MarkedIsNotLeader(f: seq<nat>, s: seq<bool>, m: nat)
    requires |s| == |f| && IsPermutation(f) && m < |f| && Marked(f, s, m) && s[m]
    ensures !Leader(f, m)
  {
    assert Covered(f, m, m);
    var j: nat :| j < m && InOrbit(f, j, m);
    var k: nat :| Iter(f, j, k) == m;
    assert Iter(f, j, 0) == j;
    assert InOrbit(f, j, j);
    assert Covered(f, m, j);
    assert s[j];
    assert Periodic(f, j);
    var q: nat :| q >= 1 && Iter(f, j, q) == j;
    BackToStart(f, j, k, q);
    assert Iter(f, m, k * q - k) < m;
  }

  /** Once a start is marked, every index of its orbit is. */
  lemma {:induction false} MarkedSkip(f: seq<nat>, s: seq<bool>, m: nat)
    requires |s| == |f| && IsPermutation(f) && m < |f| && Marked(f, s, m) && s[m]
    ensures Marked(f, s, m + 1)
  {
    forall x | 0 <= x < |f|
      ensures s[x] <==> Covered(f, m + 1, x)
    {
      if Covered(f, m + 1, x) && !Covered(f, m, x) {
        var k: nat :| Iter(f, m, k) == x;
        ForwardIter(f, s, m, k);
      }
      if Covered(f, m, x) {
        var j: nat :| j < m && InOrbit(f, j, x);
        assert j < m + 1;
      }
    }
  }

  lemma {:induction false} LeadersStep(f: seq<nat>, m: nat)
    ensures Leader(f, m) ==> Leaders(f, m + 1) == Leaders(f, m) + {m} && m !in Leaders(f, m)
    ensures !Leader(f, m) ==> Leaders(f, m + 1) == Leaders(f, m)
  {
  }

  lemma {:induction false} LeadersBound(f: seq<nat>, m: nat)
    ensures |Leaders(f, m)| <= m
    decreases m
  {
    if m > 0 {
      LeadersStep(f, m - 1);
      LeadersBound(f, m - 1);
    }
  }

  // ---------------------------------------------------------------------------
  // The inner loop: walking the cycle of an unmarked start.

  /** Iter(start, s) for some s < t. */
  ghost predicate InWalk(f: seq<nat>, start: nat, t: nat, x: nat) {
    exists s: nat :: s < t && Iter(f, start, s) == x
  }

  /** The first t indices of the walk from start: pairwise different, none marked before. */
  ghost predicate FreshWalk(f: seq<nat>, before: seq<bool>, start: nat, t: nat)
    requires |before| == |f| && IsPermutation(f) && start < |f|
  {
    (forall a: nat, b: nat | a < b < t :: Iter(f, start, a) != Iter(f, start, b)) &&
    (forall a: nat | a < t :: Iter(f, start, a) < |f| && !before[Iter(f, start, a)])
  }

  /** The walk stops only back at its start: any other marked index it might reach is
      either marked before (its predecessor on the walk would be too) or earlier on the
      walk (two walk indices would share a successor). */
  lemma {:induction false} WalkReturns(f: seq<nat>, before: seq<bool>, start: nat, t: nat)
    requires |before| == |f| && IsPermutation(f) && start < |f| && Marked(f, before, start)
    requires FreshWalk(f, before, start, t) && InWalk(f, start, t, Iter(f, start, t))
    ensures t >= 1 && Iter(f, start, t) == start
  {
    var a: nat :| a < t && Iter(f, start, a) == Iter(f, start, t);
    if a > 0 {
      IterBound(f, start, a - 1);
      IterBound(f, start, t - 1);
      NextInjective(f, Iter(f, start, a - 1), Iter(f, start, t - 1));
      assert false;
    }
  }

  /** The next index of the walk was not marked before: its predecessor on the walk was
      not. */
  lemma {:induction false} WalkStaysFresh(f: seq<nat>, before: seq<bool>, start: nat, t: nat)
    requires |before| == |f| && IsPermutation(f) && start < |f| && Marked(f, before, start) && !before[start]
    requires FreshWalk(f, before, start, t)
    ensures Iter(f, start, t) < |f| && !before[Iter(f, start, t)]
  {
    IterBound(f, start, t);
    if t > 0 && before[Iter(f, start, t)] {
      IterBound(f, start, t - 1);
      BackwardStep(f, before, Iter(f, start, t - 1));
      assert false;
    }
  }

  /** An unmarked next index extends the walk. */
  lemma {:induction false} WalkExtend(f: seq<nat>, before: seq<bool>, start: nat, t: nat)
    requires |before| == |f| && IsPermutation(f) && start < |f|
    requires FreshWalk(f, before, start, t) && Iter(f, start, t) < |f| && !before[Iter(f, start, t)]
    requires !InWalk(f, start, t, Iter(f, start, t))
    ensures FreshWalk(f, before, start, t + 1)
  {
    forall a: nat, b: nat | a < b < t + 1
      ensures Iter(f, start, a) != Iter(f, start, b)
    {
      if b == t && Iter(f, start, a) == Iter(f, start, b) {
        assert InWalk(f, start, t, Iter(f, start, t));
      }
    }
  }

  /** After the walk has come back to its start, the marks are the earlier orbits plus
      the walk, which is the orbit of start. */
  lemma {:induction false} WalkCompletes(f: seq<nat>, before: seq<bool>, after: seq<bool>, start: nat, t: nat)
    requires |before| == |f| && |after| == |f| && IsPermutation(f) && start < |f| && Marked(f, before, start)
    requires FreshWalk(f, before, start, t) && t >= 1 && Iter(f, start, t) == start
    requires forall x | 0 <= x < |f| :: after[x] == (before[x] || InWalk(f, start, t, x))
    ensures Marked(f, after, start + 1)
  {
    forall x | 0 <= x < |f|
      ensures after[x] <==> Covered(f, start + 1, x)
    {
      if InWalk(f, start, t, x) {
        var a: nat :| a < t && Iter(f, start, a) == x;
        assert InOrbit(f, start, x);
      }
      if InOrbit(f, start, x) {
        var k: nat :| Iter(f, start, k) == x;
        IterMod(f, start, t, k);
        assert InWalk(f, start, t, x);
      }
      if Covered(f, start, x) {
        var j: nat :| j < start && InOrbit(f, j, x);
        assert j < start + 1;
      }
      if Covered(f, start + 1, x) && !Covered(f, start, x) {
        var j: nat :| j < start + 1 && InOrbit(f, j, x);
        assert j == start;
      }
    }
    forall x | 0 <= x < |f| && after[x]
      ensures after[f[x]] && Periodic(f, x)
    {
      if !before[x] {
        var a: nat :| a < t && Iter(f, start, a) == x;
        assert Iter(f, start, a + 1) == f[x];
        if a + 1 < t {
          assert InWalk(f, start, t, f[x]);
        } else {
          assert Iter(f, start, 0) == f[x];
          assert InWalk(f, start, t, f[x]);
        }
        IterAdd(f, start, a, t);
        IterAdd(f, start, t, a);
        assert Iter(f, x, t) == x;
      }
    }
  }

  lemma {:induction false} NothingMarked(f: seq<nat>, s: seq<bool>)
    requires |s| == |f| && IsPermutation(f) && forall x | 0 <= x < |s| :: !s[x]
    ensures Marked(f, s, 0)
  {
  }

  lemma {:induction false} AllMarked(f: seq<nat>, s: seq<bool>)
    requires |s| == |f| && IsPermutation(f) && Marked(f, s, |f|)
    ensures forall x | 0 <= x < |s| :: s[x]
  {
    forall x | 0 <= x < |s|
      ensures s[x]
    {
      assert Iter(f, x, 0) == x;
      assert InOrbit(f, x, x);
    }
  }

  /** The unmarked indices, the measure of the inner loop. */
  function Unseen(s: seq<bool>): set<nat> {
    set x: nat | x < |s| && !s[x]
  }

  /** Marking one more index removes it from the unmarked ones. */
  lemma {:induction false} UnseenShrinks(s: seq<bool>, i: nat)
    requires i < |s| && !s[i]
    ensures Unseen(s[i := true]) < Unseen(s)
  {
    assert i in Unseen(s) && i !in Unseen(s[i := true]);
  }

  /** Marking the t-th index of the walk extends the marked walk by one. */
  lemma {:induction false} WalkMark(f: seq<nat>, before: seq<bool>, s0: seq<bool>, s1: seq<bool>, start: nat, t: nat)
    requires |before| == |f| && |s0| == |f| && Iter(f, start, t) < |f|
    requires forall x | 0 <= x < |f| :: s0[x] == (before[x] || InWalk(f, start, t, x))
    requires s1 == s0[Iter(f, start, t) := true]
    ensures forall x | 0 <= x < |f| :: s1[x] == (before[x] || InWalk(f, start, t + 1, x))
  {
    forall x | 0 <= x < |f|
      ensures s1[x] == (before[x] || InWalk(f, start, t + 1, x))
    {
      if InWalk(f, start, t, x) {
        var a: nat :| a < t && Iter(f, start, a) == x;
        assert a < t + 1;
      }
      if x == Iter(f, start, t) {
        assert InWalk(f, start, t + 1, x);
      }
      if InWalk(f, start, t + 1, x) && x != Iter(f, start, t) {
        var a: nat :| a < t + 1 && Iter(f, start, a) == x;
        assert a < t;
        assert InWalk(f, start, t, x);
      }
    }
  }

  /** The inner `while` of `faer_perm_sign`: from an unmarked start, mark indices along
      the cycle until a marked one is reached, which is the start again; afterwards
      exactly the orbits of the starts up to and including this one are marked. */
  method MarkCycle(forward: seq<nat>, seen: array<bool>, start: nat)
    requires IsPermutation(forward) && seen.Length == |forward| && start < |forward|
    requires Marked(forward, seen[..], start) && !seen[start]
    modifies seen
    ensures Marked(forward, seen[..], start + 1)
  {
    var n := |forward|;
    ghost var before := seen[..];
    var i := start;
    ghost var t: nat := 0;
    while !seen[i]
      invariant i < n && i == Iter(forward, start, t)
      invariant FreshWalk(forward, before, start, t)
      invariant forall x | 0 <= x < n :: seen[x] == (before[x] || InWalk(forward, start, t, x))
      decreases Unseen(seen[..])
    {
      WalkStaysFresh(forward, before, start, t);
      WalkExtend(forward, before, start, t);
      ghost var oldSeen := seen[..];
      seen[i] := true;
      UnseenShrinks(oldSeen, i);
      WalkMark(forward, before, oldSeen, seen[..], start, t);
      i := forward[i];
      t := t + 1;
      IterBound(forward, start, t);
    }
    WalkStaysFresh(forward, before, start, t);
    WalkReturns(forward, before, start, t);
    WalkCompletes(forward, before, seen[..], start, t);
  }

  /** `faer_perm_sign`: the number of cycles is counted by walking each cycle from its first
      unmarked index; every walk ends back at its start, each index is marked exactly once
      (so all end up marked), and `n - cycles` cannot underflow. */
  method FaerPermSign(forward: seq<nat>) returns (sign: real)
    requires IsPermutation(forward)
    ensures sign == 1.0 || sign == -1.0
    ensures CycleCount(forward) <= |forward| && sign == ParitySign(|forward|, CycleCount(forward))
  {
    var n := |forward|;
    var seen := new bool[n](_ => false);
    var cycles: nat := 0;
    NothingMarked(forward, seen[..]);
    for start := 0 to n
      invariant Marked(forward, seen[..], start)
      invariant cycles == |Leaders(forward, start)|
    {
      LeadersStep(forward, start);
      if seen[start] {
        MarkedIsNotLeader(forward, seen[..], start);
        MarkedSkip(forward, seen[..], start);
        continue;
      }
      UnmarkedIsLeader(forward, seen[..], start);
      cycles := cycles + 1;
      MarkCycle(forward, seen, start);
    }
    AllMarked(forward, seen[..]);
    LeadersBound(forward, n);
    if (n - cycles) % 2 == 0 {
      sign := 1.0;
    } else {
      sign := -1.0;
    }
  }
}
