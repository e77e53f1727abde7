/** Quoting of strings for the gnuplot script that the benchmark plotter writes
    (`_gp_quote`, scripts/criterion_dim_plot.py): the text goes between single quotes
    with every backslash doubled and every single quote preceded by a backslash. */
module GnuplotQuoting {
  import opened LaErrors

  /** `s.replace(c, repl)` for a one-character pattern: every occurrence of c, left to
      right, becomes `repl`. */
  function ReplaceChar(s: string, c: char, repl: string): (r: string)
    ensures c !in s ==> r == s
    decreases |s|
  {
    if s == [] then [] else (if s[0] == c then repl else [s[0]]) + ReplaceChar(s[1..], c, repl)
  }

  /** Replacing in a concatenation replaces in each part. */
  lemma {:induction false} ReplaceConcat(a: string, b: string, c: char, repl: string)
    ensures ReplaceChar(a + b, c, repl) == ReplaceChar(a, c, repl) + ReplaceChar(b, c, repl)
    decreases |a|
  {
    if a == [] {
      assert a + b == b;
    } else {
      assert (a + b)[0] == a[0] && (a + b)[1..] == a[1..] + b;
      ReplaceConcat(a[1..], b, c, repl);
    }
  }

  /** `_gp_quote`, as written: backslashes are replaced first, then quotes. */
  function GpQuote(s: string): string {
    "'" + ReplaceChar(ReplaceChar(s, '\\', "\\\\"), '\'', "\\'") + "'"
  }

  /** The escape of one character. */
  function EscapeChar(c: char): string {
    if c == '\\' then "\\\\" else if c == '\'' then "\\'" else [c]
  }

  /** A single left-to-right pass that escapes each character on its own. */
  function Escape(s: string): string
    decreases |s|
  {
    if s == [] then [] else EscapeChar(s[0]) + Escape(s[1..])
  }

  /** Because backslashes are doubled before the quotes get theirs, the backslash added in
      front of a quote is never doubled: the two replacements escape each character of
      the input once. */
  lemma {:induction false} GpQuoteEscapesOnce(s: string)
    ensures GpQuote(s) == "'" + Escape(s) + "'"
  {
    ReplaceTwice(s);
  }

  lemma {:induction false} ReplaceTwice(s: string)
    ensures ReplaceChar(ReplaceChar(s, '\\', "\\\\"), '\'', "\\'") == Escape(s)
    decreases |s|
  {
    if s != [] {
      var piece := if s[0] == '\\' then "\\\\" else [s[0]];
      assert ReplaceChar(s, '\\', "\\\\") == piece + ReplaceChar(s[1..], '\\', "\\\\");
      ReplaceConcat(piece, ReplaceChar(s[1..], '\\', "\\\\"), '\'', "\\'");
      assert ReplaceChar(piece, '\'', "\\'") == EscapeChar(s[0]) by {
        if s[0] == '\\' {
          assert piece[1..] == "\\";
          assert piece[1..][1..] == [];
        } else {
          assert piece[1..] == [];
        }
      }
      ReplaceTwice(s[1..]);
    }
  }

  function Cons(c: char, rest: Option<string>): Option<string> {
    if rest.Some? then Some([c] + rest.value) else None
  }

  /** Reads back an escaped body: `\\` stands for a backslash and `\'` for a quote; any
      other backslash or a bare quote makes the body ill-formed. */
  function Unescape(t: string): Option<string>
    decreases |t|
  {
    if t == [] then Some([])
    else if t[0] == '\\' then
      if |t| >= 2 && (t[1] == '\\' || t[1] == '\'') then Cons(t[1], Unescape(t[2..])) else None
    else if t[0] == '\'' then None
    else Cons(t[0], Unescape(t[1..]))
  }

  /** The partner of `GpQuote`: strips the surrounding quotes and unescapes the body. */
  function Unquote(q: string): Option<string> {
    if |q| >= 2 && q[0] == '\'' && q[|q| - 1] == '\'' then Unescape(q[1..|q| - 1]) else None
  }

  lemma {:induction false} UnescapeEscape(s: string)
    ensures Unescape(Escape(s)) == Some(s)
    decreases |s|
  {
    if s != [] {
      var e := Escape(s);
      var head := EscapeChar(s[0]);
      assert e == head + Escape(s[1..]);
      UnescapeEscape(s[1..]);
      if s[0] == '\\' || s[0] == '\'' {
        assert e[0] == '\\' && e[1] == s[0] && e[2..] == Escape(s[1..]);
      } else {
        assert e[0] == s[0] && e[1..] == Escape(s[1..]);
      }
      assert s == [s[0]] + s[1..];
    }
  }

  /** Unquoting a quoted string gives it back, so no two strings share a quoted form. */
  lemma GpQuoteRoundTrip(s: string)
    ensures Unquote(GpQuote(s)) == Some(s)
  {
    GpQuoteEscapesOnce(s);
    var q := GpQuote(s);
    assert q[1..|q| - 1] == Escape(s);
    UnescapeEscape(s);
  }

  lemma GpQuoteInjective(s: string, t: string)
    requires GpQuote(s) == GpQuote(t)
    ensures s == t
  {
    GpQuoteRoundTrip(s);
    GpQuoteRoundTrip(t);
  }

  /** A character that quoting leaves alone. */
  predicate Plain(c: char) {
    c != '\\' && c != '\''
  }

  /** The test-suite's first case, "plain": a text with nothing to escape is only put
      between quotes. */
  lemma GpQuotePlain(s: string)
    requires '\\' !in s && '\'' !in s
    ensures GpQuote(s) == "'" + s + "'"
  {
  }

  lemma EscapeThree(x: char, y: char, z: char)
    ensures Escape([x, y, z]) == EscapeChar(x) + EscapeChar(y) + EscapeChar(z)
  {
    assert [z][1..] == [];
    assert Escape([z]) == EscapeChar(z);
    assert [y, z][1..] == [z];
    assert Escape([y, z]) == EscapeChar(y) + EscapeChar(z);
    assert [x, y, z][1..] == [y, z];
  }

  /** The two escapes of the quoting tests: a quote gets a backslash (a'b becomes
      'a\'b') and a backslash is doubled (a\b becomes 'a\\b'). */
  lemma GpQuoteEscapes(a: char, b: char)
    requires Plain(a) && Plain(b)
    ensures GpQuote([a, '\'', b]) == ['\'', a, '\\', '\'', b, '\'']
    ensures GpQuote([a, '\\', b]) == ['\'', a, '\\', '\\', b, '\'']
  {
    GpQuoteEscapesOnce([a, '\'', b]);
    EscapeThree(a, '\'', b);
    GpQuoteEscapesOnce([a, '\\', b]);
    EscapeThree(a, '\\', b);
  }

  /** A backslash before a quote: both are escaped, each once. */
  lemma GpQuoteBackslashQuote(a: char, b: char)
    requires Plain(a) && Plain(b)
    ensures GpQuote([a, '\\', '\'', b]) == ['\'', a, '\\', '\\', '\\', '\'', b, '\'']
  {
    var s := [a, '\\', '\''];
    GpQuoteEscapesOnce(s + [b]);
    EscapeConcat(s, [b]);
    EscapeThree(a, '\\', '\'');
    assert [b][1..] == [];
    assert s + [b] == [a, '\\', '\'', b];
  }

  lemma {:induction false} EscapeConcat(s: string, t: string)
    ensures Escape(s + t) == Escape(s) + Escape(t)
    decreases |s|
  {
    if s == [] {
      assert s + t == t;
    } else {
      assert (s + t)[0] == s[0] && (s + t)[1..] == s[1..] + t;
      EscapeConcat(s[1..], t);
    }
  }

  /** How gnuplot itself reads a single-quoted string (gnuplot manual, section "Syntax",
      quote marks): a backslash is an ordinary character and two single quotes stand for
      one. `None` when the text is not exactly one such string. */
  function GnuplotSingleQuoted(q: string): Option<string> {
    if q != [] && q[0] == '\'' then GnuplotBody(q[1..]) else None
  }

  function GnuplotBody(t: string): Option<string>
    decreases |t|
  {
    if t == [] then None
    else if t[0] == '\'' then
      if |t| == 1 then Some([])
      else if t[1] == '\'' then Cons('\'', GnuplotBody(t[2..]))
      else None
    else Cons(t[0], GnuplotBody(t[1..]))
  }

  /** The quoting as written is not what gnuplot reads back: in a'b the escaped quote
      closes the string early, and in a\b the backslash comes back doubled. */
  lemma GpQuoteMisreadByGnuplot(a: char, b: char)
    requires Plain(a) && Plain(b)
    ensures GnuplotSingleQuoted(GpQuote([a, '\'', b])) == None
    ensures GnuplotSingleQuoted(GpQuote([a, '\\', b])) == Some([a, '\\', '\\', b])
  {
    GpQuoteEscapes(a, b);
    var t := [a, '\\', '\'', b, '\''];
    assert GpQuote([a, '\'', b])[1..] == t;
    assert t[1..] == ['\\', '\'', b, '\''] && t[1..][1..] == ['\'', b, '\''];
    assert GnuplotBody(t[1..][1..]) == None;
    assert GnuplotBody(t[1..]) == None;
    assert GnuplotBody(t) == None;
    var doubled := [a, '\\', '\\', b];
    assert '\'' !in doubled;
    assert GnuplotQuote(doubled) == ['\'', a, '\\', '\\', b, '\''];
    GnuplotQuoteRoundTrip(doubled);
    assert GpQuote([a, '\\', b]) == GnuplotQuote(doubled);
  }

  /** Quoting for gnuplot's single-quoted strings: each quote doubled, backslashes left
      alone. */
  function GnuplotQuote(s: string): string {
    "'" + ReplaceChar(s, '\'', "''") + "'"
  }

  lemma {:induction false} GnuplotBodyOfDoubled(s: string)
    ensures GnuplotBody(ReplaceChar(s, '\'', "''") + "'") == Some(s)
    decreases |s|
  {
    var t := ReplaceChar(s, '\'', "''") + "'";
    if s == [] {
      assert t == "'";
    } else {
      var rest := ReplaceChar(s[1..], '\'', "''") + "'";
      GnuplotBodyOfDoubled(s[1..]);
      if s[0] == '\'' {
        assert t == "''" + rest;
        assert t[2..] == rest;
      } else {
        assert t == [s[0]] + rest;
        assert t[1..] == rest;
      }
      assert s == [s[0]] + s[1..];
    }
  }

  /** gnuplot reads back exactly the string that `GnuplotQuote` quoted. */
  lemma GnuplotQuoteRoundTrip(s: string)
    ensures GnuplotSingleQuoted(GnuplotQuote(s)) == Some(s)
  {
    var q := GnuplotQuote(s);
    assert q[1..] == ReplaceChar(s, '\'', "''") + "'";
    GnuplotBodyOfDoubled(s);
  }
}
