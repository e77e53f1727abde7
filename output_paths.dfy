/** Resolution of the benchmark plotter's output paths (`_resolve_under_root` and
    `_resolve_output_paths`, scripts/criterion_dim_plot.py), over POSIX pure paths as
    `pathlib` parses and joins them. */
module OutputPaths {
  import opened LaErrors

  /** A pure POSIX path: whether it starts at the root, and its components. */
  datatype Path = Path(absolute: bool, parts: seq<string>)

  /** A component `pathlib` keeps: not empty, not ".", no slash. */
  predicate IsPart(x: string) {
    x != [] && x != "." && '/' !in x
  }

  predicate WellFormed(p: Path) {
    forall k | 0 <= k < |p.parts| :: IsPart(p.parts[k])
  }

  /** The position of the first slash, or |s| when there is none. */
  function FirstSlash(s: string): (i: nat)
    ensures i <= |s| && '/' !in s[..i]
    ensures i < |s| ==> s[i] == '/'
    decreases |s|
  {
    if s == [] || s[0] == '/' then 0
    else
      var i := 1 + FirstSlash(s[1..]);
      assert s[..i] == [s[0]] + s[1..][..i - 1];
      i
  }

  /** The pieces between slashes, empty pieces included (`s.split("/")`). */
  function SplitSlash(s: string): (pieces: seq<string>)
    ensures |pieces| >= 1
    decreases |s|
  {
    var i := FirstSlash(s);
    if i == |s| then [s] else [s[..i]] + SplitSlash(s[i + 1..])
  }

  /** Drops the empty and "." pieces. */
  function KeepParts(pieces: seq<string>): (parts: seq<string>)
    ensures forall k | 0 <= k < |parts| :: IsPart(parts[k])
    decreases |pieces|
  {
    if pieces == [] then []
    else (if IsPart(pieces[0]) then [pieces[0]] else []) + KeepParts(pieces[1..])
  }

  /** `PurePosixPath(s)`: rooted when s starts with a slash; the components are the
      pieces between slashes without the empty and "." ones. */
  function ParsePath(s: string): Path {
    Path(s != [] && s[0] == '/', KeepParts(SplitSlash(s)))
  }

  function JoinSlash(parts: seq<string>): string
    requires parts != []
    decreases |parts|
  {
    if |parts| == 1 then parts[0] else parts[0] + "/" + JoinSlash(parts[1..])
  }

  /** `str(p)`: the components joined by slashes after a leading slash for a rooted path;
      "." for the empty relative path. */
  function Format(p: Path): string {
    if p.parts == [] then (if p.absolute then "/" else ".")
    else (if p.absolute then "/" else "") + JoinSlash(p.parts)
  }

  /** `root / p`: a rooted right operand replaces the root; otherwise its components are
      appended to the root's. */
  function Join(root: Path, p: Path): Path {
    if p.absolute then p else Path(root.absolute, root.parts + p.parts)
  }

  lemma {:induction false} SplitSlashOfJoin(parts: seq<string>)
    requires parts != [] && forall k | 0 <= k < |parts| :: '/' !in parts[k]
    ensures SplitSlash(JoinSlash(parts)) == parts
    decreases |parts|
  {
    if |parts| == 1 {
      assert parts[0][..|parts[0]|] == parts[0];
    } else {
      SplitSlashCons(parts[0], JoinSlash(parts[1..]));
      SplitSlashOfJoin(parts[1..]);
      assert parts == [parts[0]] + parts[1..];
    }
  }

  /** Splitting at the first slash after a slash-free head. */
  lemma SplitSlashCons(x: string, y: string)
    requires '/' !in x
    ensures SplitSlash(x + "/" + y) == [x] + SplitSlash(y)
  {
    var s := x + "/" + y;
    FirstSlashAfter(x, "/" + y);
    assert x + ("/" + y) == s;
    assert s[..|x|] == x && s[|x| + 1..] == y;
  }

  lemma {:induction false} FirstSlashAfter(x: string, rest: string)
    requires '/' !in x && (rest == [] || rest[0] == '/')
    ensures FirstSlash(x + rest) == |x|
    decreases |x|
  {
    if x == [] {
      assert x + rest == rest;
    } else {
      assert (x + rest)[0] == x[0] && (x + rest)[1..] == x[1..] + rest;
      assert '/' !in x[1..] by {
        assert forall i | 0 <= i < |x| - 1 :: x[1..][i] == x[i + 1];
      }
      FirstSlashAfter(x[1..], rest);
    }
  }

  lemma {:induction false} KeepPartsKeeps(pieces: seq<string>)
    requires forall k | 0 <= k < |pieces| :: IsPart(pieces[k])
    ensures KeepParts(pieces) == pieces
    decreases |pieces|
  {
    if pieces != [] {
      KeepPartsKeeps(pieces[1..]);
      assert pieces == [pieces[0]] + pieces[1..];
    }
  }

  /** Parsing the printed form of a path gives the path back: `str` loses nothing. */
  lemma FormatRoundTrip(p: Path)
    requires WellFormed(p)
    ensures ParsePath(Format(p)) == p
  {
    var s := Format(p);
    if p.parts == [] {
      if p.absolute {
        assert s[..0] == [] && s[1..] == [];
        assert SplitSlash(s) == [[], []];
      } else {
        assert s[..1] == ".";
        assert SplitSlash(s) == ["."];
      }
    } else {
      var j := JoinSlash(p.parts);
      SplitSlashOfJoin(p.parts);
      KeepPartsKeeps(p.parts);
      JoinStarts(p.parts);
      if p.absolute {
        assert s == [] + "/" + j;
        SplitSlashCons([], j);
        var pieces := SplitSlash(s);
        assert pieces == [[]] + p.parts;
        assert pieces[0] == [] && pieces[1..] == p.parts;
        assert KeepParts(pieces) == KeepParts(p.parts);
        assert s[0] == '/';
        assert ParsePath(s) == Path(true, p.parts);
      } else {
        assert s == j;
        assert ParsePath(s) == Path(false, p.parts);
      }
    }
  }

  /** The joined components start with the first one, which is not a slash. */
  lemma JoinStarts(parts: seq<string>)
    requires parts != [] && IsPart(parts[0])
    ensures JoinSlash(parts) != [] && JoinSlash(parts)[0] == parts[0][0]
  {
  }

  /** `_resolve_under_root`: an absolute argument is taken as it is, a relative one is
      placed under the root. */
  function ResolveUnderRoot(root: Path, arg: string): (r: Path)
    ensures root.absolute ==> r.absolute
    ensures WellFormed(root) ==> WellFormed(r)
  {
    var p := ParsePath(arg);
    if p.absolute then p else Join(root, p)
  }

  /** A relative argument lands below the root with its own components in order; an
      absolute one ignores the root. */
  lemma ResolveUnderRootShape(root: Path, arg: string)
    ensures arg != [] && arg[0] == '/' ==> ResolveUnderRoot(root, arg) == ParsePath(arg)
    ensures !(arg != [] && arg[0] == '/') ==>
              ResolveUnderRoot(root, arg).absolute == root.absolute &&
              ResolveUnderRoot(root, arg).parts[..|root.parts|] == root.parts &&
              ResolveUnderRoot(root, arg).parts[|root.parts|..] == ParsePath(arg).parts
  {
  }

  /** Resolving the printed form of a resolved path again changes nothing: the result is
      already absolute under an absolute root. */
  lemma ResolveIdempotent(root: Path, arg: string)
    requires root.absolute && WellFormed(root)
    ensures ResolveUnderRoot(root, Format(ResolveUnderRoot(root, arg))) == ResolveUnderRoot(root, arg)
  {
    var r := ResolveUnderRoot(root, arg);
    FormatRoundTrip(r);
  }

  /** `docs/assets/bench/vs_linalg_{metric}_{stat}.{ext}`. */
  function DefaultOutput(metric: string, stat: string, ext: string): string {
    "docs/assets/bench/vs_linalg_" + metric + "_" + stat + "." + ext
  }

  /** `_resolve_output_paths`: each path is the given argument or its default, resolved
      under the root. */
  function ResolveOutputPaths(root: Path, metric: string, stat: string, outSvg: Option<string>, outCsv: Option<string>): (paths: (Path, Path))
    ensures outSvg.Some? ==> paths.0 == ResolveUnderRoot(root, outSvg.value)
    ensures outCsv.Some? ==> paths.1 == ResolveUnderRoot(root, outCsv.value)
    ensures root.absolute ==> paths.0.absolute && paths.1.absolute
  {
    var svg := if outSvg.Some? then outSvg.value else DefaultOutput(metric, stat, "svg");
    var csv := if outCsv.Some? then outCsv.value else DefaultOutput(metric, stat, "csv");
    (ResolveUnderRoot(root, svg), ResolveUnderRoot(root, csv))
  }

  /** The file name of a default output path. */
  function DefaultName(metric: string, stat: string, ext: string): string {
    "vs_linalg_" + metric + "_" + stat + "." + ext
  }

  /** A relative path of three directories and a file name parses into those four
      components. */
  lemma ParseFourParts(a: string, b: string, c: string, name: string)
    requires IsPart(a) && IsPart(b) && IsPart(c) && IsPart(name)
    ensures ParsePath(a + "/" + b + "/" + c + "/" + name) == Path(false, [a, b, c, name])
  {
    var parts := [a, b, c, name];
    assert parts[1..] == [b, c, name] && parts[1..][1..] == [c, name] && parts[1..][1..][1..] == [name];
    assert JoinSlash([name]) == name;
    assert JoinSlash([c, name]) == c + "/" + name;
    assert JoinSlash([b, c, name]) == b + "/" + (c + "/" + name);
    assert JoinSlash(parts) == a + "/" + (b + "/" + (c + "/" + name));
    assert a + "/" + b + "/" + c + "/" + name == JoinSlash(parts);
    FormatRoundTrip(Path(false, parts));
    assert Format(Path(false, parts)) == JoinSlash(parts);
  }

  /** A default file name is a single component. */
  lemma DefaultNameIsPart(metric: string, stat: string, ext: string)
    requires '/' !in metric && '/' !in stat && '/' !in ext
    ensures IsPart(DefaultName(metric, stat, ext))
  {
    var head := "vs_linalg_";
    assert '/' !in head;
    var name := DefaultName(metric, stat, ext);
    assert name == head + metric + "_" + stat + "." + ext;
    NoSlashConcat(head, metric);
    NoSlashConcat(head + metric, "_");
    NoSlashConcat(head + metric + "_", stat);
    NoSlashConcat(head + metric + "_" + stat, ".");
    NoSlashConcat(head + metric + "_" + stat + ".", ext);
    assert name[0] == 'v';
  }

  lemma NoSlashConcat(x: string, y: string)
    requires '/' !in x && '/' !in y
    ensures '/' !in x + y
  {
    assert forall i | 0 <= i < |x + y| :: (x + y)[i] == if i < |x| then x[i] else y[i - |x|];
  }

  /** The default path has the components docs, assets, bench and the file name. */
  lemma DefaultOutputParts(metric: string, stat: string, ext: string)
    requires '/' !in metric && '/' !in stat && '/' !in ext
    ensures ParsePath(DefaultOutput(metric, stat, ext)) == Path(false, ["docs", "assets", "bench", DefaultName(metric, stat, ext)])
  {
    var name := DefaultName(metric, stat, ext);
    DefaultNameIsPart(metric, stat, ext);
    var docs, assets, bench := "docs", "assets", "bench";
    assert IsPart(docs) && IsPart(assets) && IsPart(bench);
    var dirs := "docs/assets/bench/";
    assert dirs == docs + "/" + assets + "/" + bench + "/";
    assert "docs/assets/bench/vs_linalg_" == dirs + "vs_linalg_";
    PrefixedName(dirs, "vs_linalg_", metric, stat, ext);
    ParseFourParts(docs, assets, bench, name);
  }

  /** Concatenation regrouped: the directories, then the whole file name. */
  lemma PrefixedName(dirs: string, head: string, metric: string, stat: string, ext: string)
    ensures (dirs + head) + metric + "_" + stat + "." + ext == dirs + (head + metric + "_" + stat + "." + ext)
  {
  }

  /** With neither path given, both outputs sit in docs/assets/bench under the root and
      are named after the metric and statistic; the picture and the table differ only in
      their extension, so they never collide. */
  lemma DefaultOutputs(root: Path, metric: string, stat: string)
    requires '/' !in metric && '/' !in stat
    ensures var (svg, csv) := ResolveOutputPaths(root, metric, stat, None, None);
            svg == Path(root.absolute, root.parts + ["docs", "assets", "bench", DefaultName(metric, stat, "svg")]) &&
            csv == Path(root.absolute, root.parts + ["docs", "assets", "bench", DefaultName(metric, stat, "csv")]) &&
            svg != csv
  {
    DefaultOutputParts(metric, stat, "svg");
    DefaultOutputParts(metric, stat, "csv");
    var a, b := DefaultName(metric, stat, "svg"), DefaultName(metric, stat, "csv");
    assert a[|a| - 3] == 's' && b[|b| - 3] == 'c';
    var (svg, csv) := ResolveOutputPaths(root, metric, stat, None, None);
    assert svg.parts[|svg.parts| - 1] == a && csv.parts[|csv.parts| - 1] == b;
  }

  /** The test-suite's relative argument "foo/bar.csv" lands under the root. */
  lemma ResolveUnderRootExample(root: Path)
    ensures ResolveUnderRoot(root, "foo" + "/" + "bar.csv") == Path(root.absolute, root.parts + ["foo", "bar.csv"])
  {
    var parts := ["foo", "bar.csv"];
    assert IsPart("foo") && IsPart("bar.csv");
    assert parts[1..] == ["bar.csv"];
    assert JoinSlash(parts) == "foo" + "/" + "bar.csv";
    FormatRoundTrip(Path(false, parts));
    assert Format(Path(false, parts)) == JoinSlash(parts);
  }
}
