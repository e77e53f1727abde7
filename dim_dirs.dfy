/** Benchmark group directories named `d<N>` (scripts/criterion_dim_plot.py): reading the
    dimension out of a directory name, and collecting the dimensions of all group
    directories of a Criterion output directory in ascending order. */
module DimDirs {
  import opened Decimal
  import opened LaErrors

  /** The whole name matches `d(\d+)`: a 'd' followed by one or more digits. */
  predicate IsDimName(name: string) {
    |name| >= 2 && name[0] == 'd' && AllDigits(name[1..])
  }

  /** `_dim_from_group_dir`: the number spelled after the 'd', leading zeros allowed as in
      `int("007")`; `None` for every other name. */
  function DimFromGroupDir(name: string): (d: Option<nat>)
    ensures d.Some? <==> IsDimName(name)
  {
    if IsDimName(name) then Some(DigitsToNat(name[1..])) else None
  }

  /** Every dimension has a directory name that reads back as that dimension. */
  lemma DimNameRoundTrip(n: nat)
    ensures DimFromGroupDir("d" + NatToString(n)) == Some(n)
  {
    var name := "d" + NatToString(n);
    assert name[1..] == NatToString(n);
    DigitsOfNat(n);
  }

  /** A name must start with 'd' and carry at least one digit, all digits after it. */
  lemma DimNameRejects(name: string)
    requires name == [] || name[0] != 'd' || |name| == 1 || exists i | 1 <= i < |name| :: !IsDigit(name[i])
    ensures DimFromGroupDir(name) == None
  {
    if |name| >= 2 && name[0] == 'd' {
      var i :| 1 <= i < |name| && !IsDigit(name[i]);
      assert name[1..][i - 1] == name[i];
    }
  }

  /** The test-suite's names and two more: "d2" is 2 and "d10" is 10, "dx" and "2" are
      not dimension names; added here, "d007" is 7 and "d" is not a name either. */
  lemma DimNameExamples()
    ensures DimFromGroupDir("d2") == Some(2)
    ensures DimFromGroupDir("d10") == Some(10)
    ensures DimFromGroupDir("d007") == Some(7)
    ensures DimFromGroupDir("dx") == None
    ensures DimFromGroupDir("2") == None
    ensures DimFromGroupDir("d") == None
  {
    assert "d2"[1..] == "2";
    assert DigitsToNat("2") == 2 by {
      assert "2"[..0] == [];
    }
    assert "d10"[1..] == "10";
    assert DigitsToNat("10") == 10 by {
      assert "10"[..1] == "1";
      assert "1"[..0] == [];
    }
    assert "d007"[1..] == "007";
    assert DigitsToNat("007") == 7 by {
      assert "007"[..2] == "00";
      assert "00"[..1] == "0";
      assert "0"[..0] == [];
    }
    assert !IsDigit("dx"[1]);
    DimNameRejects("dx");
    DimNameRejects("2");
    DimNameRejects("d");
  }

  /** One child of the Criterion directory: its name and whether it is a directory. */
  datatype DirEntry = DirEntry(name: string, isDir: bool)

  /** The dimensions named by the directories among the entries, in listing order. */
  function ListedDims(entries: seq<DirEntry>): seq<nat>
    decreases |entries|
  {
    if entries == [] then []
    else
      var e := entries[|entries| - 1];
      var rest := ListedDims(entries[..|entries| - 1]);
      if e.isDir && DimFromGroupDir(e.name).Some? then rest + [DimFromGroupDir(e.name).value] else rest
  }

  /** The entry at position i is a group directory for dimension n. */
  predicate NamesDim(entries: seq<DirEntry>, i: int, n: nat) {
    0 <= i < |entries| && entries[i].isDir && DimFromGroupDir(entries[i].name) == Some(n)
  }

  /** A dimension is listed exactly when some directory entry names it; files and other
      names are dropped. */
  lemma {:induction false} ListedDimsMembers(entries: seq<DirEntry>, n: nat)
    ensures n in ListedDims(entries) <==> exists i :: NamesDim(entries, i, n)
    ensures |ListedDims(entries)| <= |entries|
    decreases |entries|
  {
    if entries != [] {
      var init := entries[..|entries| - 1];
      ListedDimsMembers(init, n);
      if n in ListedDims(init) {
        var i :| NamesDim(init, i, n);
        assert NamesDim(entries, i, n);
      } else if n in ListedDims(entries) {
        assert NamesDim(entries, |entries| - 1, n);
      }
      if i :| NamesDim(entries, i, n) {
        if i < |entries| - 1 {
          assert NamesDim(init, i, n);
        } else {
          var e := entries[|entries| - 1];
          assert e.isDir && DimFromGroupDir(e.name) == Some(n);
          assert ListedDims(entries) == ListedDims(init) + [n];
          assert ListedDims(entries)[|ListedDims(init)|] == n;
        }
      }
    }
  }

  predicate Sorted(s: seq<nat>) {
    forall i, j | 0 <= i < j < |s| :: s[i] <= s[j]
  }

  /** Inserts x into a sorted sequence before its first element not below x. */
  function Insert(x: nat, s: seq<nat>): (r: seq<nat>)
    requires Sorted(s)
    ensures Sorted(r) && multiset(r) == multiset(s) + multiset{x}
    ensures |r| == |s| + 1 && (r[0] == x || (s != [] && r[0] == s[0]))
    decreases |s|
  {
    if s == [] || x <= s[0] then [x] + s
    else
      var tail := Insert(x, s[1..]);
      assert s == [s[0]] + s[1..];
      assert s[0] <= tail[0];
      [s[0]] + tail
  }

  /** Python's `sorted` on a list of integers: the ascending arrangement of the same
      elements. */
  function SortNats(s: seq<nat>): (r: seq<nat>)
    ensures Sorted(r) && multiset(r) == multiset(s)
    decreases |s|
  {
    if s == [] then []
    else
      assert s == s[..|s| - 1] + [s[|s| - 1]];
      Insert(s[|s| - 1], SortNats(s[..|s| - 1]))
  }

  lemma SortedHead(s: seq<nat>, x: nat)
    requires Sorted(s) && x in multiset(s)
    ensures s[0] <= x
  {
    assert x in s;
    var i :| 0 <= i < |s| && s[i] == x;
    if i > 0 {
      assert s[0] <= s[i];
    }
  }

  /** A sorted arrangement of a multiset is unique, so the result of `_discover_dims` does
      not depend on the order in which the directory is listed. */
  lemma {:induction false} SortedUnique(a: seq<nat>, b: seq<nat>)
    requires Sorted(a) && Sorted(b) && multiset(a) == multiset(b)
    ensures a == b
    decreases |a|
  {
    assert |b| == |multiset(b)| == |multiset(a)| == |a|;
    if a != [] {
      SortedHead(b, a[0]);
      SortedHead(a, b[0]);
      assert a[0] == b[0];
      assert a == [a[0]] + a[1..] && b == [b[0]] + b[1..];
      assert multiset(a[1..]) == multiset(a) - multiset{a[0]};
      assert multiset(b[1..]) == multiset(b) - multiset{b[0]};
      SortedUnique(a[1..], b[1..]);
    }
  }

  /** `_discover_dims`: the dimensions of the group directories among the listed entries,
      ascending (each as often as it is named). */
  method DiscoverDims(entries: seq<DirEntry>) returns (dims: seq<nat>)
    ensures Sorted(dims) && multiset(dims) == multiset(ListedDims(entries))
  {
    var found: seq<nat> := [];
    for i := 0 to |entries|
      invariant found == ListedDims(entries[..i])
    {
      assert entries[..i + 1][..i] == entries[..i];
      var child := entries[i];
      if !child.isDir {
        continue;
      }
      var d := DimFromGroupDir(child.name);
      if d.None? {
        continue;
      }
      found := found + [d.value];
    }
    assert entries[..|entries|] == entries;
    dims := SortNats(found);
  }

  /** The test-suite's directory: "d10" and "d2" are found and sorted, "not_a_dim" is
      skipped; a plain file called "d5", added here, is skipped too. */
  method DiscoverDimsExample() returns (dims: seq<nat>)
    ensures dims == [2, 10]
  {
    var entries := [DirEntry("d10", true), DirEntry("not_a_dim", true), DirEntry("d2", true), DirEntry("d5", false)];
    DimNameExamples();
    assert !IsDigit("not_a_dim"[1]);
    DimNameRejects("not_a_dim");
    var e1, e2, e3 := entries[..1], entries[..2], entries[..3];
    assert e1[..0] == [] && e2[..1] == e1 && e3[..2] == e2 && entries[..3] == e3;
    assert ListedDims(e1) == [10];
    assert ListedDims(e2) == [10];
    assert ListedDims(e3) == [10, 2];
    assert ListedDims(entries) == [10, 2];
    dims := DiscoverDims(entries);
    SortedUnique(dims, [2, 10]);
  }
}
