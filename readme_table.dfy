/** Text helpers of Python's `str` as the benchmark script uses them: `strip`, with no
    argument or with an explicit set of characters, and `splitlines`. */
module PyStrings {

  /** `str.isspace()` for one character: the ASCII controls 9-13 and 28-31, the space,
      NEL, the no-break space and the Unicode space separators. */
  predicate IsSpace(c: char) {
    var k := c as int;
    (9 <= k <= 13) || (28 <= k <= 32) || k == 0x85 || k == 0xA0 || k == 0x1680 ||
    (0x2000 <= k <= 0x200A) || k == 0x2028 || k == 0x2029 || k == 0x202F || k == 0x205F || k == 0x3000
  }

  predicate IsNewline(c: char) {
    c == '\n'
  }

  /** Drops the leading characters for which `drop` holds. */
  function TrimStart(s: string, drop: char -> bool): string
    decreases |s|
  {
    if s != [] && drop(s[0]) then TrimStart(s[1..], drop) else s
  }

  /** Drops the trailing characters for which `drop` holds. */
  function TrimEnd(s: string, drop: char -> bool): string
    decreases |s|
  {
    if s != [] && drop(s[|s| - 1]) then TrimEnd(s[..|s| - 1], drop) else s
  }

  /** `s.strip(chars)`: both ends trimmed. */
  function StripWith(s: string, drop: char -> bool): string {
    TrimEnd(TrimStart(s, drop), drop)
  }

  /** `s.strip()`. */
  function Strip(s: string): string {
    StripWith(s, IsSpace)
  }

  predicate AllDropped(s: string, drop: char -> bool) {
    forall i | 0 <= i < |s| :: drop(s[i])
  }

  /** Trimming the front removes exactly a dropped prefix and stops at a kept character. */
  lemma {:induction false} TrimStartPadded(p: string, v: string, drop: char -> bool)
    requires AllDropped(p, drop) && (v == [] || !drop(v[0]))
    ensures TrimStart(p + v, drop) == v
    decreases |p|
  {
    if p == [] {
      assert p + v == v;
    } else {
      assert (p + v)[0] == p[0] && (p + v)[1..] == p[1..] + v;
      assert AllDropped(p[1..], drop) by {
        assert forall i | 0 <= i < |p[1..]| :: p[1..][i] == p[i + 1];
      }
      TrimStartPadded(p[1..], v, drop);
    }
  }

  /** Trimming the back removes exactly a dropped suffix and stops at a kept character. */
  lemma {:induction false} TrimEndPadded(v: string, q: string, drop: char -> bool)
    requires AllDropped(q, drop) && (v == [] || !drop(v[|v| - 1]))
    ensures TrimEnd(v + q, drop) == v
    decreases |q|
  {
    if q == [] {
      assert v + q == v;
    } else {
      var init := q[..|q| - 1];
      AllDroppedPrefix(q, |q| - 1, drop);
      TrimEndPadded(v, init, drop);
      TrimEndStep(v + init, q[|q| - 1], drop);
      assert v + q == v + init + [q[|q| - 1]];
    }
  }

  lemma AllDroppedPrefix(q: string, j: nat, drop: char -> bool)
    requires AllDropped(q, drop) && j <= |q|
    ensures AllDropped(q[..j], drop)
  {
    assert forall i | 0 <= i < j :: q[..j][i] == q[i];
  }

  lemma TrimEndStep(u: string, c: char, drop: char -> bool)
    requires drop(c)
    ensures TrimEnd(u + [c], drop) == TrimEnd(u, drop)
  {
    assert (u + [c])[..|u|] == u;
  }

  /** Stripping removes exactly the padding around a text whose ends are kept. */
  lemma StripPadded(p: string, s: string, q: string, drop: char -> bool)
    requires AllDropped(p, drop) && AllDropped(q, drop)
    requires s != [] && !drop(s[0]) && !drop(s[|s| - 1])
    ensures StripWith(p + s + q, drop) == s
  {
    assert p + s + q == p + (s + q);
    TrimStartPadded(p, s + q, drop);
    TrimEndPadded(s, q, drop);
  }

  /** A text that already has kept ends is its own strip. */
  lemma StripKeeps(s: string, drop: char -> bool)
    requires s != [] && !drop(s[0]) && !drop(s[|s| - 1])
    ensures StripWith(s, drop) == s
  {
    StripPadded([], s, [], drop);
    assert [] + s + [] == s;
  }

  /** The front trim keeps a suffix that starts with a kept character, if any. */
  lemma {:induction false} TrimStartFront(s: string, drop: char -> bool)
    ensures |TrimStart(s, drop)| <= |s| && TrimStart(s, drop) == s[|s| - |TrimStart(s, drop)|..]
    ensures TrimStart(s, drop) == [] || !drop(TrimStart(s, drop)[0])
    ensures AllDropped(s[..|s| - |TrimStart(s, drop)|], drop)
    decreases |s|
  {
    if s != [] && drop(s[0]) {
      TrimStartFront(s[1..], drop);
      var t := TrimStart(s[1..], drop);
      assert s[1..][|s| - 1 - |t|..] == s[|s| - |t|..];
    }
  }

  /** The back trim keeps a prefix that ends with a kept character, if any. */
  lemma {:induction false} TrimEndBack(s: string, drop: char -> bool)
    ensures |TrimEnd(s, drop)| <= |s| && TrimEnd(s, drop) == s[..|TrimEnd(s, drop)|]
    ensures TrimEnd(s, drop) == [] || !drop(TrimEnd(s, drop)[|TrimEnd(s, drop)| - 1])
    ensures AllDropped(s[|TrimEnd(s, drop)|..], drop)
    decreases |s|
  {
    if s != [] && drop(s[|s| - 1]) {
      var init := s[..|s| - 1];
      TrimEndBack(init, drop);
      var t := TrimEnd(init, drop);
      assert init[..|t|] == s[..|t|];
      assert forall i | 0 <= i < |s| - |t| :: s[|t|..][i] == if i < |init| - |t| then init[|t|..][i] else s[|s| - 1];
    }
  }

  /** `strip` leaves a substring of its argument with kept characters at both ends and
      only dropped characters around it. */
  lemma StripWithShape(s: string, drop: char -> bool)
    ensures var t := StripWith(s, drop);
            t == [] || (!drop(t[0]) && !drop(t[|t| - 1]))
    ensures exists i, j | 0 <= i <= j <= |s| :: StripWith(s, drop) == s[i..j] && AllDropped(s[..i], drop) && AllDropped(s[j..], drop)
  {
    var u := TrimStart(s, drop);
    TrimStartFront(s, drop);
    TrimEndBack(u, drop);
    var t := StripWith(s, drop);
    var i := |s| - |u|;
    var j := i + |t|;
    assert t == s[i..j];
    assert forall k | 0 <= k < |s| - j :: s[j..][k] == u[|t|..][k];
  }

  /** The characters at which `str.splitlines` breaks: line feed, vertical tab, form feed,
      carriage return, the file, group and record separators, NEL and the line and
      paragraph separators. A "\r\n" pair is one break. */
  predicate IsLineBreak(c: char) {
    var k := c as int;
    (10 <= k <= 13) || (28 <= k <= 30) || k == 0x85 || k == 0x2028 || k == 0x2029
  }

  predicate NoLineBreak(s: string) {
    forall i | 0 <= i < |s| :: !IsLineBreak(s[i])
  }

  /** The position of the first line break, or |s| when there is none. */
  function FirstBreak(s: string): (i: nat)
    ensures i <= |s| && NoLineBreak(s[..i])
    ensures i < |s| ==> IsLineBreak(s[i])
    decreases |s|
  {
    if s == [] then 0
    else if IsLineBreak(s[0]) then 0
    else
      var i := 1 + FirstBreak(s[1..]);
      assert s[..i] == [s[0]] + s[1..][..i - 1];
      i
  }

  /** `s.splitlines()`: the lines without their breaks, no empty line after a final break. */
  function SplitLines(s: string): (lines: seq<string>)
    ensures forall k | 0 <= k < |lines| :: NoLineBreak(lines[k])
    decreases |s|
  {
    if s == [] then []
    else
      var i := FirstBreak(s);
      if i == |s| then [s]
      else
        [s[..i]] + SplitLines(s[BreakEnd(s, i)..])
  }

  /** Where the text resumes after the break at i: past a "\r\n" pair, else past the
      break character. */
  function BreakEnd(s: string, i: nat): (next: nat)
    requires i < |s|
    ensures i < next <= |s|
    ensures next == i + 2 <==> s[i] == '\r' && i + 1 < |s| && s[i + 1] == '\n'
  {
    if s[i] == '\r' && i + 1 < |s| && s[i + 1] == '\n' then i + 2 else i + 1
  }

  /** `s.splitlines(keepends=True)`: the lines of `SplitLines`, each keeping the break
      that ends it (`KeepEndsLines`). */
  function SplitLinesKeepEnds(s: string): (lines: seq<string>)
    ensures forall k | 0 <= k < |lines| :: lines[k] != []
    decreases |s|
  {
    if s == [] then []
    else
      var i := FirstBreak(s);
      if i == |s| then [s]
      else [s[..BreakEnd(s, i)]] + SplitLinesKeepEnds(s[BreakEnd(s, i)..])
  }

  /** What `splitlines(keepends=True)` leaves at the end of a line: nothing (only on the
      last line), one break character, or a "\r\n" pair. */
  predicate IsLineEnd(e: string) {
    e == [] || (|e| == 1 && IsLineBreak(e[0])) || e == "\r\n"
  }

  /** `"".join(lines)`. */
  function Concat(lines: seq<string>): string
    decreases |lines|
  {
    if lines == [] then [] else lines[0] + Concat(lines[1..])
  }

  /** Joining two runs of lines is joining the first, then the second. */
  lemma {:induction false} ConcatAppend(a: seq<string>, b: seq<string>)
    ensures Concat(a + b) == Concat(a) + Concat(b)
    decreases |a|
  {
    if a == [] {
      assert a + b == b;
    } else {
      assert (a + b)[1..] == a[1..] + b;
      ConcatAppend(a[1..], b);
    }
  }

  /** Joining the lines split off with their ends gives the text back. */
  lemma {:induction false} KeepEndsConcat(s: string)
    ensures Concat(SplitLinesKeepEnds(s)) == s
    decreases |s|
  {
    if s != [] {
      var i := FirstBreak(s);
      if i == |s| {
        assert [s][1..] == [];
        assert s + [] == s;
      } else {
        var n := BreakEnd(s, i);
        var rest := SplitLinesKeepEnds(s[n..]);
        assert ([s[..n]] + rest)[1..] == rest;
        KeepEndsConcat(s[n..]);
        assert s[..n] + s[n..] == s;
      }
    }
  }

  /** The lines with their ends kept are the lines of `splitlines()`, one for one, each
      followed by its line end; only the last line can lack one. */
  lemma {:induction false} KeepEndsLines(s: string)
    ensures var kept, lines := SplitLinesKeepEnds(s), SplitLines(s);
            |kept| == |lines| &&
            (forall k | 0 <= k < |kept| ::
               |lines[k]| <= |kept[k]| && kept[k][..|lines[k]|] == lines[k] &&
               IsLineEnd(kept[k][|lines[k]|..])) &&
            (forall k | 0 <= k < |kept| - 1 :: |lines[k]| < |kept[k]|)
    decreases |s|
  {
    if s != [] {
      var i := FirstBreak(s);
      if i == |s| {
        assert s[..i] == s && s[i..] == [];
      } else {
        var n := BreakEnd(s, i);
        var kept, lines := SplitLinesKeepEnds(s[n..]), SplitLines(s[n..]);
        KeepEndsLines(s[n..]);
        var head := s[..n];
        assert head[..i] == s[..i];
        assert head[i..] == s[i..n];
        assert IsLineEnd(head[i..]) by {
          if n == i + 2 {
            assert head[i..] == [s[i], s[i + 1]];
          } else {
            assert head[i..] == [s[i]];
          }
        }
        var K, L := [head] + kept, [s[..i]] + lines;
        assert forall k | 1 <= k < |K| :: K[k] == kept[k - 1] && L[k] == lines[k - 1];
      }
    }
  }

  /** Concatenates lines, each followed by a line feed. */
  function JoinLines(lines: seq<string>): string
    decreases |lines|
  {
    if lines == [] then [] else lines[0] + "\n" + JoinLines(lines[1..])
  }

  /** The only line break in s is the newline character. */
  predicate OnlyNewlines(s: string) {
    forall i | 0 <= i < |s| :: IsLineBreak(s[i]) ==> s[i] == '\n'
  }

  lemma OnlyNewlinesSuffix(s: string, j: nat)
    requires OnlyNewlines(s) && j <= |s|
    ensures OnlyNewlines(s[j..])
  {
    assert forall k | 0 <= k < |s| - j :: s[j..][k] == s[j + k];
  }

  /** Splitting a text whose only breaks are line feeds, and which does not end in one,
      and rejoining it with a line feed after every line gives the text followed by one
      final line feed. */
  lemma {:induction false} SplitJoin(s: string)
    requires OnlyNewlines(s)
    requires s != [] && s[|s| - 1] != '\n'
    ensures JoinLines(SplitLines(s)) == s + "\n"
    decreases |s|
  {
    var i := FirstBreak(s);
    if i == |s| {
      assert s[..i] == s;
      SplitLinesSingle(s);
      JoinLinesCons(s, []);
    } else {
      var x, rest := s[..i], s[i + 1..];
      assert s[i] == '\n';
      assert s == x + "\n" + rest;
      assert rest != [] && rest[|rest| - 1] == s[|s| - 1];
      OnlyNewlinesSuffix(s, i + 1);
      SplitLinesCons(x, rest);
      JoinLinesCons(x, SplitLines(rest));
      SplitJoin(rest);
      assert x + "\n" + (rest + "\n") == s + "\n";
    }
  }

  lemma JoinLinesCons(x: string, lines: seq<string>)
    ensures JoinLines([x] + lines) == x + "\n" + JoinLines(lines)
  {
    assert ([x] + lines)[1..] == lines;
  }

  /** The first break of a text is after its break-free head. */
  lemma {:induction false} FirstBreakAfter(x: string, rest: string)
    requires NoLineBreak(x) && (rest == [] || IsLineBreak(rest[0]))
    ensures FirstBreak(x + rest) == |x|
    decreases |x|
  {
    if x == [] {
      assert x + rest == rest;
    } else {
      assert (x + rest)[1..] == x[1..] + rest;
      assert NoLineBreak(x[1..]) by {
        assert forall i | 0 <= i < |x| - 1 :: x[1..][i] == x[i + 1];
      }
      FirstBreakAfter(x[1..], rest);
    }
  }

  /** `splitlines` takes a break-free line off the front at a line feed. */
  lemma SplitLinesCons(x: string, y: string)
    requires NoLineBreak(x)
    ensures SplitLines(x + "\n" + y) == [x] + SplitLines(y)
  {
    var s := x + "\n" + y;
    FirstBreakAfter(x, "\n" + y);
    assert x + ("\n" + y) == s;
    assert s[..|x|] == x && s[|x| + 1..] == y;
  }

  /** A non-empty break-free text is one line. */
  lemma SplitLinesSingle(x: string)
    requires x != [] && NoLineBreak(x)
    ensures SplitLines(x) == [x]
  {
    FirstBreakAfter(x, []);
    assert x + [] == x;
  }
}

/** `_readme_table_markers` and the pure part of `_update_readme_table`
    (scripts/criterion_dim_plot.py): the README holds one begin and one end marker line,
    and the script replaces the lines strictly between them by the rendered table. */
module ReadmeTables {
  import opened PyStrings

  /** The marker pair of the table for one metric, statistic and sample. */
  function ReadmeTableMarkers(metric: string, stat: string, sample: string): (markers: (string, string))
    ensures markers.0 != markers.1
    ensures Strip(markers.0) == markers.0 && Strip(markers.1) == markers.1
  {
    var tag := "BENCH_TABLE:" + metric + ":" + stat + ":" + sample;
    var begin := "<!-- " + tag + ":BEGIN -->";
    var end := "<!-- " + tag + ":END -->";
    assert |begin| != |end|;
    StripKeeps(begin, IsSpace);
    StripKeeps(end, IsSpace);
    (begin, end)
  }

  /** The markers of the test-suite's `lu_solve` median table. */
  lemma MarkersExample()
    ensures ReadmeTableMarkers("lu_solve", "median", "new") ==
            ("<!-- BENCH_TABLE:lu_solve:median:new:BEGIN -->", "<!-- BENCH_TABLE:lu_solve:median:new:END -->")
  {
    var tag := "BENCH_TABLE:" + "lu_solve" + ":" + "median" + ":" + "new";
    assert tag == "BENCH_TABLE:lu_solve:median:new";
    BeginMarkerText(tag);
    EndMarkerText(tag);
  }

  lemma BeginMarkerText(tag: string)
    requires tag == "BENCH_TABLE:lu_solve:median:new"
    ensures "<!-- " + tag + ":BEGIN -->" == "<!-- BENCH_TABLE:lu_solve:median:new:BEGIN -->"
  {
  }

  lemma EndMarkerText(tag: string)
    requires tag == "BENCH_TABLE:lu_solve:median:new"
    ensures "<!-- " + tag + ":END -->" == "<!-- BENCH_TABLE:lu_solve:median:new:END -->"
  {
  }

  /** Line i, stripped of surrounding white space, is the marker. */
  predicate IsMarkerLine(lines: seq<string>, marker: string, i: int) {
    0 <= i < |lines| && Strip(lines[i]) == marker
  }

  /** The marker occupies line i and no other line. */
  predicate OnlyMarkerAt(lines: seq<string>, marker: string, i: int) {
    IsMarkerLine(lines, marker, i) && forall j | 0 <= j < |lines| && IsMarkerLine(lines, marker, j) :: j == i
  }

  predicate HasUniqueMarker(lines: seq<string>, marker: string) {
    exists i | 0 <= i < |lines| :: OnlyMarkerAt(lines, marker, i)
  }

  /** `[i for i, line in enumerate(lines) if line.strip() == marker]`: the marker lines in
      increasing order. */
  function MarkerIndices(lines: seq<string>, marker: string): (ix: seq<int>)
    ensures forall k | 0 <= k < |ix| :: IsMarkerLine(lines, marker, ix[k])
    ensures forall i | IsMarkerLine(lines, marker, i) :: i in ix
    ensures forall k, l | 0 <= k < l < |ix| :: ix[k] < ix[l]
    decreases |lines|
  {
    if lines == [] then []
    else
      var init := lines[..|lines| - 1];
      var rest := MarkerIndices(init, marker);
      MarkerLinesOfInit(lines, marker);
      if Strip(lines[|lines| - 1]) == marker then rest + [|lines| - 1] else rest
  }

  /** The marker lines of all but the last line are the marker lines before the last. */
  lemma MarkerLinesOfInit(lines: seq<string>, marker: string)
    requires lines != []
    ensures forall i :: IsMarkerLine(lines[..|lines| - 1], marker, i) <==> IsMarkerLine(lines, marker, i) && i < |lines| - 1
  {
  }

  lemma IncreasingPair(ix: seq<int>)
    requires forall k, l | 0 <= k < l < |ix| :: ix[k] < ix[l]
    ensures |ix| >= 2 ==> ix[0] < ix[1]
  {
  }

  /** The index list has exactly one entry exactly when the marker occurs on one line
      only, and then that entry is the line. */
  lemma SingleMarker(lines: seq<string>, marker: string)
    ensures |MarkerIndices(lines, marker)| == 1 <==> HasUniqueMarker(lines, marker)
    ensures forall i | OnlyMarkerAt(lines, marker, i) :: MarkerIndices(lines, marker) == [i]
  {
    var ix := MarkerIndices(lines, marker);
    if |ix| == 1 {
      assert OnlyMarkerAt(lines, marker, ix[0]);
    }
    forall i | OnlyMarkerAt(lines, marker, i)
      ensures ix == [i]
    {
      assert i in ix;
      assert forall k | 0 <= k < |ix| :: ix[k] == i;
      IncreasingPair(ix);
    }
  }

  /** How the splice can fail: the markers are missing or repeated, or the end marker
      does not come after the begin marker. */
  datatype MarkerError = NotFoundOrNotUnique | OutOfOrder

  /** The new lines and whether they differ from the old ones (`True` is the case in
      which the script writes the file). */
  datatype Update = Failed(error: MarkerError) | Spliced(lines: seq<string>, changed: bool)

  /** `[line + "\n" for line in table_md.strip("\n").splitlines()]`. */
  function TableLines(tableMd: string): (t: seq<string>)
    ensures forall k | 0 <= k < |t| :: |t[k]| > 0 && t[k][|t[k]| - 1] == '\n'
  {
    var rows := SplitLines(StripWith(tableMd, IsNewline));
    seq(|rows|, k requires 0 <= k < |rows| => rows[k] + "\n")
  }

  function Splice(lines: seq<string>, b: int, e: int, table: seq<string>): seq<string>
    requires 0 <= b < e <= |lines|
  {
    lines[..b + 1] + table + lines[e..]
  }

  /** The splice of `_update_readme_table` on the README's lines as `splitlines(keepends=True)`
      returns them (`UpdateReadmeText`). */
  function UpdateReadmeTable(lines: seq<string>, begin: string, end: string, tableMd: string): Update {
    var bs := MarkerIndices(lines, begin);
    var es := MarkerIndices(lines, end);
    if |bs| != 1 || |es| != 1 then Failed(NotFoundOrNotUnique)
    else if bs[0] >= es[0] then Failed(OutOfOrder)
    else
      var newLines := Splice(lines, bs[0], es[0], TableLines(tableMd));
      Spliced(newLines, newLines != lines)
  }

  /** `_update_readme_table` from the README's text: split with the line ends kept,
      then spliced; the file is written, as `Concat` of the new lines, only when they
      changed. */
  function UpdateReadmeText(text: string, begin: string, end: string, tableMd: string): Update {
    UpdateReadmeTable(SplitLinesKeepEnds(text), begin, end, tableMd)
  }

  /** When the update reports no change, joining its lines gives the README text back,
      so skipping the write loses nothing. */
  lemma UpdateTextUnchanged(text: string, begin: string, end: string, tableMd: string)
    ensures var u := UpdateReadmeText(text, begin, end, tableMd);
            u.Spliced? && !u.changed ==> Concat(u.lines) == text
  {
    KeepEndsConcat(text);
  }

  /** The text written on success: the README's text up to the end of the begin marker's
      line, the table's lines, and the text from the start of the end marker's line; the
      three pieces of the old text around the old body make up that text. */
  lemma UpdateTextWritten(text: string, begin: string, end: string, tableMd: string, b: int, e: int)
    requires var kept := SplitLinesKeepEnds(text);
             OnlyMarkerAt(kept, begin, b) && OnlyMarkerAt(kept, end, e) && b < e
    ensures var kept := SplitLinesKeepEnds(text);
            var u := UpdateReadmeText(text, begin, end, tableMd);
            u.Spliced? &&
            Concat(u.lines) == Concat(kept[..b + 1]) + Concat(TableLines(tableMd)) + Concat(kept[e..]) &&
            text == Concat(kept[..b + 1]) + Concat(kept[b + 1..e]) + Concat(kept[e..])
  {
    var kept := SplitLinesKeepEnds(text);
    var t := TableLines(tableMd);
    UpdateSplices(kept, begin, end, tableMd, b, e);
    var u := UpdateReadmeText(text, begin, end, tableMd);
    assert u.lines == kept[..b + 1] + t + kept[e..];
    ConcatAppend(kept[..b + 1] + t, kept[e..]);
    ConcatAppend(kept[..b + 1], t);
    KeepEndsConcat(text);
    assert kept == kept[..b + 1] + kept[b + 1..e] + kept[e..];
    ConcatAppend(kept[..b + 1] + kept[b + 1..e], kept[e..]);
    ConcatAppend(kept[..b + 1], kept[b + 1..e]);
  }

  /** The first error: fewer or more than one line holds either marker. */
  lemma UpdateFailsUnlessUnique(lines: seq<string>, begin: string, end: string, tableMd: string)
    ensures UpdateReadmeTable(lines, begin, end, tableMd) == Failed(NotFoundOrNotUnique) <==>
            !HasUniqueMarker(lines, begin) || !HasUniqueMarker(lines, end)
  {
    SingleMarker(lines, begin);
    SingleMarker(lines, end);
  }

  /** The second error: with one line per marker, the splice fails exactly when the end
      marker is not below the begin marker. */
  lemma UpdateFailsOutOfOrder(lines: seq<string>, begin: string, end: string, tableMd: string, b: int, e: int)
    requires OnlyMarkerAt(lines, begin, b) && OnlyMarkerAt(lines, end, e)
    ensures UpdateReadmeTable(lines, begin, end, tableMd).Failed? <==> b >= e
    ensures UpdateReadmeTable(lines, begin, end, tableMd).Failed? ==>
              UpdateReadmeTable(lines, begin, end, tableMd).error == OutOfOrder
  {
    SingleMarker(lines, begin);
    SingleMarker(lines, end);
  }

  /** On success the lines up to and including the begin marker and from the end marker
      on are kept, the old body between them is replaced by the table lines, and the
      result counts as changed exactly when the old body was not already the table. */
  lemma UpdateSplices(lines: seq<string>, begin: string, end: string, tableMd: string, b: int, e: int)
    requires OnlyMarkerAt(lines, begin, b) && OnlyMarkerAt(lines, end, e) && b < e
    ensures var u := UpdateReadmeTable(lines, begin, end, tableMd);
            var t := TableLines(tableMd);
            u.Spliced? &&
            |u.lines| == |lines| - (e - b - 1) + |t| &&
            u.lines[..b + 1] == lines[..b + 1] &&
            u.lines[b + 1..b + 1 + |t|] == t &&
            u.lines[b + 1 + |t|..] == lines[e..] &&
            (u.changed <==> lines[b + 1..e] != t)
  {
    SingleMarker(lines, begin);
    SingleMarker(lines, end);
    var t := TableLines(tableMd);
    var n := Splice(lines, b, e, t);
    assert n[..b + 1] == lines[..b + 1];
    assert n[b + 1..b + 1 + |t|] == t;
    assert n[b + 1 + |t|..] == lines[e..];
    if lines[b + 1..e] == t {
      assert lines == lines[..b + 1] + lines[b + 1..e] + lines[e..];
    }
    if n == lines {
      assert lines[b + 1..e] == n[b + 1..b + 1 + |t|];
    }
  }

  /** Where a marker line of the spliced lines comes from: the kept head, the table or
      the kept tail. */
  lemma SpliceMarkerLine(lines: seq<string>, m: string, t: seq<string>, b: int, e: int, j: int)
    requires 0 <= b < e <= |lines|
    ensures var e2 := b + 1 + |t|;
            IsMarkerLine(Splice(lines, b, e, t), m, j) ==>
              (j <= b && IsMarkerLine(lines, m, j)) ||
              (b < j < e2 && Strip(t[j - b - 1]) == m) ||
              (e2 <= j && IsMarkerLine(lines, m, j - e2 + e))
  {
    var n := Splice(lines, b, e, t);
    var e2 := b + 1 + |t|;
    if 0 <= j < |n| {
      assert n[j] == if j <= b then lines[j] else if j < e2 then t[j - b - 1] else lines[j - e2 + e];
    }
  }

  /** No table line strips to the marker. */
  predicate NoMarkerIn(t: seq<string>, m: string) {
    forall k | 0 <= k < |t| :: Strip(t[k]) != m
  }

  /** After a splice the begin marker is still on line b and nowhere else, and the end
      marker is on the line right after the table and nowhere else. */
  lemma SpliceKeepsMarkers(lines: seq<string>, begin: string, end: string, t: seq<string>, b: int, e: int)
    requires OnlyMarkerAt(lines, begin, b) && OnlyMarkerAt(lines, end, e) && b < e
    requires NoMarkerIn(t, begin) && NoMarkerIn(t, end)
    ensures OnlyMarkerAt(Splice(lines, b, e, t), begin, b)
    ensures OnlyMarkerAt(Splice(lines, b, e, t), end, b + 1 + |t|)
  {
    var n := Splice(lines, b, e, t);
    var e2 := b + 1 + |t|;
    assert n[b] == lines[b] && n[e2] == lines[e];
    forall j | 0 <= j < |n| && IsMarkerLine(n, begin, j)
      ensures j == b
    {
      SpliceMarkerLine(lines, begin, t, b, e, j);
    }
    forall j | 0 <= j < |n| && IsMarkerLine(n, end, j)
      ensures j == e2
    {
      SpliceMarkerLine(lines, end, t, b, e, j);
    }
  }

  /** Splicing a second time with the same table finds the markers where the first
      splice left them, writes the same lines again and reports no change, provided no
      table line is itself a marker line. */
  lemma UpdateIdempotent(lines: seq<string>, begin: string, end: string, tableMd: string)
    requires UpdateReadmeTable(lines, begin, end, tableMd).Spliced?
    requires NoMarkerIn(TableLines(tableMd), begin) && NoMarkerIn(TableLines(tableMd), end)
    ensures UpdateReadmeTable(UpdateReadmeTable(lines, begin, end, tableMd).lines, begin, end, tableMd) ==
            Spliced(UpdateReadmeTable(lines, begin, end, tableMd).lines, false)
  {
    var t := TableLines(tableMd);
    SingleMarker(lines, begin);
    SingleMarker(lines, end);
    var b := MarkerIndices(lines, begin)[0];
    var e := MarkerIndices(lines, end)[0];
    assert OnlyMarkerAt(lines, begin, b) && OnlyMarkerAt(lines, end, e);
    UpdateSplices(lines, begin, end, tableMd, b, e);
    var n := Splice(lines, b, e, t);
    assert UpdateReadmeTable(lines, begin, end, tableMd).lines == n;
    var e2 := b + 1 + |t|;
    SpliceKeepsMarkers(lines, begin, end, t, b, e);
    UpdateSplices(n, begin, end, tableMd, b, e2);
    assert n[b + 1..e2] == t;
  }

  /** When the table text's only breaks are line feeds, the table lines are its text
      without surrounding line feeds, each line closed by a line feed. */
  lemma TableLinesText(tableMd: string)
    requires forall i | 0 <= i < |tableMd| :: IsLineBreak(tableMd[i]) ==> tableMd[i] == '\n'
    ensures var s := StripWith(tableMd, IsNewline);
            s != [] ==> Concat(TableLines(tableMd)) == s + "\n"
  {
    var s := StripWith(tableMd, IsNewline);
    if s != [] {
      var u := TrimStart(tableMd, IsNewline);
      TrimStartFront(tableMd, IsNewline);
      TrimEndBack(u, IsNewline);
      assert forall i | 0 <= i < |u| :: u[i] == tableMd[|tableMd| - |u| + i];
      assert forall i | 0 <= i < |s| :: s[i] == u[i];
      SplitJoin(s);
      JoinAppends(SplitLines(s));
    }
  }

  /** Appending a line feed to each line first and then concatenating is `JoinLines`. */
  lemma {:induction false} JoinAppends(rows: seq<string>)
    ensures Concat(seq(|rows|, k requires 0 <= k < |rows| => rows[k] + "\n")) == JoinLines(rows)
    decreases |rows|
  {
    if rows != [] {
      var t := seq(|rows|, k requires 0 <= k < |rows| => rows[k] + "\n");
      assert t[1..] == seq(|rows| - 1, k requires 0 <= k < |rows| - 1 => rows[1..][k] + "\n");
      JoinAppends(rows[1..]);
    }
  }

  /** Three break-free rows joined by line feeds split into those rows. */
  lemma ThreeSplit(x: string, y: string, z: string)
    requires NoLineBreak(x) && NoLineBreak(y) && NoLineBreak(z) && z != []
    ensures SplitLines(x + "\n" + y + "\n" + z) == [x, y, z]
  {
    var r := y + "\n" + z;
    assert x + "\n" + y + "\n" + z == x + "\n" + r;
    SplitLinesCons(x, r);
    SplitLinesCons(y, z);
    SplitLinesSingle(z);
  }

  /** Three break-free rows joined by line feeds give three table lines. */
  lemma {:induction false} ThreeRows(x: string, y: string, z: string)
    requires NoLineBreak(x) && NoLineBreak(y) && NoLineBreak(z)
    requires x != [] && z != [] && x[0] != '\n' && z[|z| - 1] != '\n'
    ensures TableLines(x + "\n" + y + "\n" + z) == [x + "\n", y + "\n", z + "\n"]
  {
    var md := x + "\n" + y + "\n" + z;
    assert md[0] == x[0] && md[|md| - 1] == z[|z| - 1];
    StripKeeps(md, IsNewline);
    ThreeSplit(x, y, z);
  }

  /** The table of the test-suite: three rows, each closed by a line feed. */
  lemma TableLinesExample()
    ensures TableLines("| a |\n|---|\n| 1 |") == ["| a |\n", "|---|\n", "| 1 |\n"]
  {
    ExampleRowsPlain();
    ThreeRows("| a |", "|---|", "| 1 |");
    ExampleRowsText();
  }

  lemma ExampleRowsPlain()
    ensures NoLineBreak("| a |") && NoLineBreak("|---|") && NoLineBreak("| 1 |")
  {
  }

  lemma ExampleRowsText()
    ensures "| a |" + "\n" + "|---|" + "\n" + "| 1 |" == "| a |\n|---|\n| 1 |"
    ensures "| a |" + "\n" == "| a |\n" && "|---|" + "\n" == "|---|\n" && "| 1 |" + "\n" == "| 1 |\n"
  {
  }

  /** A text with a line feed strips to the text, which is neither marker when it starts
      with another character than both. */
  lemma PlainLine(x: string, b: string, e: string)
    requires x != [] && !IsSpace(x[0]) && !IsSpace(x[|x| - 1])
    requires b != [] && b[0] != x[0] && e != [] && e[0] != x[0]
    ensures Strip(x + "\n") == x && NotMarker(x + "\n", b, e)
  {
    StripPadded([], x, "\n", IsSpace);
    assert [] + x + "\n" == x + "\n";
  }

  predicate NotMarker(line: string, b: string, e: string) {
    Strip(line) != b && Strip(line) != e
  }

  /** A README with two lines above the begin marker, two old lines between the markers
      and one line below: the three table lines replace the two old ones, the result
      counts as changed, and a second run changes nothing. */
  lemma {:induction false} SpliceThreeForTwo(l0: string, l1: string, o1: string, o2: string, l6: string,
                                             b: string, e: string, md: string)
    requires NotMarker(l0, b, e) && NotMarker(l1, b, e) && NotMarker(o1, b, e) && NotMarker(o2, b, e) && NotMarker(l6, b, e)
    requires Strip(b + "\n") == b && Strip(e + "\n") == e && b != e
    requires |TableLines(md)| == 3 && NoMarkerIn(TableLines(md), b) && NoMarkerIn(TableLines(md), e)
    ensures var lines := [l0, l1, b + "\n", o1, o2, e + "\n", l6];
            var t := TableLines(md);
            var spliced := [l0, l1, b + "\n", t[0], t[1], t[2], e + "\n", l6];
            UpdateReadmeTable(lines, b, e, md) == Spliced(spliced, true) &&
            UpdateReadmeTable(spliced, b, e, md) == Spliced(spliced, false)
  {
    var lines := [l0, l1, b + "\n", o1, o2, e + "\n", l6];
    var t := TableLines(md);
    SevenLineMarkers(l0, l1, o1, o2, l6, b, e);
    UpdateSplices(lines, b, e, md, 2, 5);
    var n := UpdateReadmeTable(lines, b, e, md).lines;
    assert |lines[3..5]| != |t|;
    UpdateIdempotent(lines, b, e, md);
    SpliceThreeLines(lines, n, t);
  }

  /** In those seven lines the begin marker is line 2 alone and the end marker line 5. */
  lemma SevenLineMarkers(l0: string, l1: string, o1: string, o2: string, l6: string, b: string, e: string)
    requires NotMarker(l0, b, e) && NotMarker(l1, b, e) && NotMarker(o1, b, e) && NotMarker(o2, b, e) && NotMarker(l6, b, e)
    requires Strip(b + "\n") == b && Strip(e + "\n") == e && b != e
    ensures OnlyMarkerAt([l0, l1, b + "\n", o1, o2, e + "\n", l6], b, 2)
    ensures OnlyMarkerAt([l0, l1, b + "\n", o1, o2, e + "\n", l6], e, 5)
  {
    var lines := [l0, l1, b + "\n", o1, o2, e + "\n", l6];
    assert Strip(lines[0]) != b && Strip(lines[1]) != b && Strip(lines[3]) != b && Strip(lines[4]) != b && Strip(lines[6]) != b;
    assert Strip(lines[0]) != e && Strip(lines[1]) != e && Strip(lines[3]) != e && Strip(lines[4]) != e && Strip(lines[6]) != e;
  }

  lemma SpliceThreeLines(lines: seq<string>, n: seq<string>, t: seq<string>)
    requires |lines| == 7 && |t| == 3 && |n| == 8
    requires n[..3] == lines[..3] && n[3..6] == t && n[6..] == lines[5..]
    ensures n == [lines[0], lines[1], lines[2], t[0], t[1], t[2], lines[5], lines[6]]
  {
    assert n[0] == n[..3][0] && n[1] == n[..3][1] && n[2] == n[..3][2];
    assert n[3] == n[3..6][0] && n[4] == n[3..6][1] && n[5] == n[3..6][2];
    assert n[6] == n[6..][0] && n[7] == n[6..][1];
  }

  /** The test-suite's splice of a three-row table between the `lu_solve` markers. */
  lemma UpdateExample()
    ensures var (b, e) := ReadmeTableMarkers("lu_solve", "median", "new");
            var lines := ["# Title" + "\n", "before" + "\n", b + "\n", "old line 1" + "\n", "old line 2" + "\n", e + "\n", "after" + "\n"];
            var spliced := ["# Title" + "\n", "before" + "\n", b + "\n", "| a |\n", "|---|\n", "| 1 |\n", e + "\n", "after" + "\n"];
            UpdateReadmeTable(lines, b, e, "| a |\n|---|\n| 1 |") == Spliced(spliced, true) &&
            UpdateReadmeTable(spliced, b, e, "| a |\n|---|\n| 1 |") == Spliced(spliced, false)
  {
    var (b, e) := ReadmeTableMarkers("lu_solve", "median", "new");
    assert b[0] == '<' && e[0] == '<' && b[|b| - 1] == '>' && e[|e| - 1] == '>';
    UpdateBetween(b, e);
  }

  /** The same splice between any two distinct markers written as HTML comments. */
  lemma UpdateBetween(b: string, e: string)
    requires b != [] && e != [] && b != e
    requires b[0] == '<' && e[0] == '<' && b[|b| - 1] == '>' && e[|e| - 1] == '>'
    ensures var lines := ["# Title" + "\n", "before" + "\n", b + "\n", "old line 1" + "\n", "old line 2" + "\n", e + "\n", "after" + "\n"];
            var spliced := ["# Title" + "\n", "before" + "\n", b + "\n", "| a |\n", "|---|\n", "| 1 |\n", e + "\n", "after" + "\n"];
            UpdateReadmeTable(lines, b, e, "| a |\n|---|\n| 1 |") == Spliced(spliced, true) &&
            UpdateReadmeTable(spliced, b, e, "| a |\n|---|\n| 1 |") == Spliced(spliced, false)
  {
    TableLinesExample();
    ExampleLinesNotMarkers(b, e);
    TableRowsNotMarkers(b, e);
    MarkerLine(b);
    MarkerLine(e);
    var md := "| a |\n|---|\n| 1 |";
    var l0, l1, o1, o2, l6 := "# Title" + "\n", "before" + "\n", "old line 1" + "\n", "old line 2" + "\n", "after" + "\n";
    SpliceThreeForTwo(l0, l1, o1, o2, l6, b, e, md);
  }

  lemma ExampleLinesNotMarkers(b: string, e: string)
    requires b != [] && e != [] && b[0] == '<' && e[0] == '<'
    ensures NotMarker("# Title" + "\n", b, e) && NotMarker("before" + "\n", b, e)
    ensures NotMarker("old line 1" + "\n", b, e) && NotMarker("old line 2" + "\n", b, e)
    ensures NotMarker("after" + "\n", b, e)
  {
    PlainLine("# Title", b, e);
    PlainLine("before", b, e);
    PlainLine("old line 1", b, e);
    PlainLine("old line 2", b, e);
    PlainLine("after", b, e);
  }

  lemma TableRowsNotMarkers(b: string, e: string)
    requires b != [] && e != [] && b[0] == '<' && e[0] == '<'
    ensures NoMarkerIn(["| a |\n", "|---|\n", "| 1 |\n"], b) && NoMarkerIn(["| a |\n", "|---|\n", "| 1 |\n"], e)
  {
    PlainLine("| a |", b, e);
    PlainLine("|---|", b, e);
    PlainLine("| 1 |", b, e);
    assert "| a |" + "\n" == "| a |\n";
    assert "|---|" + "\n" == "|---|\n";
    assert "| 1 |" + "\n" == "| 1 |\n";
  }

  lemma MarkerLine(m: string)
    requires m != [] && !IsSpace(m[0]) && !IsSpace(m[|m| - 1])
    ensures Strip(m + "\n") == m
  {
    StripPadded([], m, "\n", IsSpace);
    assert [] + m + "\n" == m + "\n";
  }

  /** The test-suite's failures: no markers at all, the end marker above the begin
      marker, and the begin marker twice. */
  lemma UpdateErrorExamples()
    ensures var (b, e) := ReadmeTableMarkers("lu_solve", "median", "new");
            UpdateReadmeTable(["# Title" + "\n"], b, e, "| x |") == Failed(NotFoundOrNotUnique) &&
            UpdateReadmeTable([e + "\n", b + "\n"], b, e, "| x |") == Failed(OutOfOrder) &&
            UpdateReadmeTable([b + "\n", b + "\n", e + "\n"], b, e, "| x |") == Failed(NotFoundOrNotUnique)
  {
    var (b, e) := ReadmeTableMarkers("lu_solve", "median", "new");
    assert b[0] == '<' && e[0] == '<';
    PlainLine("# Title", b, e);
    MarkerLine(b);
    MarkerLine(e);
    var missing := ["# Title" + "\n"];
    assert !IsMarkerLine(missing, b, 0);
    assert !HasUniqueMarker(missing, b);
    UpdateFailsUnlessUnique(missing, b, e, "| x |");
    var swapped := [e + "\n", b + "\n"];
    assert OnlyMarkerAt(swapped, b, 1) && OnlyMarkerAt(swapped, e, 0);
    UpdateFailsOutOfOrder(swapped, b, e, "| x |", 1, 0);
    var twice := [b + "\n", b + "\n", e + "\n"];
    assert IsMarkerLine(twice, b, 0) && IsMarkerLine(twice, b, 1);
    assert !HasUniqueMarker(twice, b);
    UpdateFailsUnlessUnique(twice, b, e, "| x |");
  }
}
