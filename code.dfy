/** Code parts of a template (`_compile`, lines 101-121): how a directive is
    classified, how `autowrite` turns a bare name or string literal into a
    `write(...)` call, and how the statement text is re-indented to the current
    block depth. */
module Code {
  import opened Wrappers
  import opened Text

  /** The index of the first line boundary in `s`, or `|s|`. */
  function FirstBreak(s: string): (j: nat)
    ensures j <= |s|
    ensures forall i :: 0 <= i < j ==> !IsLineBreak(s[i])
    ensures j < |s| ==> IsLineBreak(s[j])
    decreases |s|
  {
    if s == [] || IsLineBreak(s[0]) then 0 else 1 + FirstBreak(s[1..])
  }

  /** Where the line after a boundary at `j` starts: `\r\n` is one boundary. */
  function NextLine(s: string, j: nat): (k: nat)
    requires j < |s|
    ensures j < k <= |s|
  {
    if s[j] == '\r' && j + 1 < |s| && s[j + 1] == '\n' then j + 2 else j + 1
  }

  /** A boundary is whitespace, so a text ending in a non-whitespace character
      has more text after its first boundary. */
  lemma NextLineBeforeEnd(s: string)
    requires |s| > 0 && !IsSpace(s[|s| - 1]) && FirstBreak(s) < |s|
    ensures NextLine(s, FirstBreak(s)) < |s|
  {
    var j := FirstBreak(s);
    assert IsLineBreak(s[j]);
    if s[j] == '\r' && j + 1 < |s| && s[j + 1] == '\n' {
      assert j + 1 < |s| - 1;
    } else {
      assert j < |s| - 1;
    }
  }

  /** `s.splitlines()`: the lines of `s` without their terminators; a final
      terminator does not start an empty last line. */
  function SplitLines(s: string): seq<string>
    decreases |s|
  {
    if s == [] then []
    else
      var j := FirstBreak(s);
      if j == |s| then [s]
      else
        var k := NextLine(s, j);
        [s[..j]] + SplitLines(s[k..])
  }

  predicate NoLineBreak(line: string) {
    forall k :: 0 <= k < |line| ==> !IsLineBreak(line[k])
  }

  /** No line keeps a line boundary character. */
  lemma {:induction false} SplitLinesNoBreaks(s: string)
    ensures forall i :: 0 <= i < |SplitLines(s)| ==> NoLineBreak(SplitLines(s)[i])
    decreases |s|
  {
    if s != [] {
      var j := FirstBreak(s);
      var lines := SplitLines(s);
      if j == |s| {
        assert lines == [s];
      } else {
        var k := NextLine(s, j);
        var rest := SplitLines(s[k..]);
        SplitLinesNoBreaks(s[k..]);
        assert lines == [s[..j]] + rest;
        forall i | 0 <= i < |lines|
          ensures NoLineBreak(lines[i])
        {
          if i > 0 {
            assert lines[i] == rest[i - 1];
          }
        }
      }
    }
  }

  function Last<T>(xs: seq<T>): T
    requires |xs| > 0
  {
    xs[|xs| - 1]
  }

  /** A code text that ends in a non-whitespace character has a last line, and
      that line ends in the same character: the non-blank line `min` needs. */
  lemma {:induction false} LastLine(s: string)
    requires |s| > 0 && !IsSpace(s[|s| - 1])
    ensures |SplitLines(s)| > 0
    ensures |Last(SplitLines(s))| > 0 && Last(Last(SplitLines(s))) == s[|s| - 1]
    decreases |s|
  {
    var j := FirstBreak(s);
    if j == |s| {
      assert SplitLines(s) == [s];
    } else {
      NextLineBeforeEnd(s);
      var k := NextLine(s, j);
      var rest := s[k..];
      assert rest[|rest| - 1] == s[|s| - 1];
      LastLine(rest);
      assert SplitLines(s) == [s[..j]] + SplitLines(rest);
      assert Last(SplitLines(s)) == Last(SplitLines(rest));
    }
  }

  /** The boundaries `splitlines` drops, one per line: `\r\n` or a single
      boundary character, and "" for a last line that has none. */
  function LineEnds(s: string): seq<string>
    decreases |s|
  {
    if s == [] then []
    else
      var j := FirstBreak(s);
      if j == |s| then [""]
      else
        var k := NextLine(s, j);
        [s[j..k]] + LineEnds(s[k..])
  }

  predicate IsTerminator(t: string) {
    t == "\r\n" || (|t| == 1 && IsLineBreak(t[0]))
  }

  /** `lines[0] + ends[0] + lines[1] + ends[1] + ...` */
  function Interleave(lines: seq<string>, ends: seq<string>): string
    requires |lines| == |ends|
    decreases |lines|
  {
    if lines == [] then "" else lines[0] + ends[0] + Interleave(lines[1..], ends[1..])
  }

  /** One line of `splitlines` and the boundary after it. */
  lemma LinesStep(s: string)
    requires s != [] && FirstBreak(s) < |s|
    ensures var j := FirstBreak(s); var k := NextLine(s, j);
      && SplitLines(s) == [s[..j]] + SplitLines(s[k..])
      && LineEnds(s) == [s[j..k]] + LineEnds(s[k..])
  {
  }

  lemma InterleaveCons(line: string, end: string, lines: seq<string>, ends: seq<string>)
    requires |lines| == |ends|
    ensures Interleave([line] + lines, [end] + ends) == line + end + Interleave(lines, ends)
  {
    assert ([line] + lines)[1..] == lines;
    assert ([end] + ends)[1..] == ends;
  }

  /** Nothing is lost by `splitlines`: the lines, each followed by the boundary
      it ended at, give the text back. */
  lemma {:induction false} SplitLinesRoundTrip(s: string)
    ensures |LineEnds(s)| == |SplitLines(s)|
    ensures Interleave(SplitLines(s), LineEnds(s)) == s
    decreases |s|
  {
    if s != [] {
      var j := FirstBreak(s);
      if j == |s| {
        assert SplitLines(s) == [s] && LineEnds(s) == [""];
        assert Interleave([s], [""]) == s + "" + Interleave([], []);
      } else {
        var k := NextLine(s, j);
        var t := s[k..];
        var lines, ends := SplitLines(t), LineEnds(t);
        assert |ends| == |lines| && Interleave(lines, ends) == t by {
          SplitLinesRoundTrip(t);
        }
        assert SplitLines(s) == [s[..j]] + lines && LineEnds(s) == [s[j..k]] + ends by {
          LinesStep(s);
        }
        assert Interleave([s[..j]] + lines, [s[j..k]] + ends) == s[..j] + s[j..k] + t by {
          InterleaveCons(s[..j], s[j..k], lines, ends);
        }
        SliceThree(s, j, k);
      }
    }
  }

  /** The boundary a line ends at is one terminator. */
  lemma BoundaryIsTerminator(s: string, j: nat)
    requires j < |s| && IsLineBreak(s[j])
    ensures IsTerminator(s[j..NextLine(s, j)])
  {
    var k := NextLine(s, j);
    if k == j + 2 {
      assert s[j..k] == [s[j], s[j + 1]];
    } else {
      assert s[j..k] == [s[j]];
    }
  }

  /** Every line but the last ends at one boundary, `\r\n` taken as one; the
      last line ends at a boundary or at the end of a non-empty text. */
  lemma {:induction false} LineEndsAreBoundaries(s: string)
    ensures |LineEnds(s)| > 0 <==> s != []
    ensures forall i :: 0 <= i < |LineEnds(s)| - 1 ==> IsTerminator(LineEnds(s)[i])
    ensures |LineEnds(s)| > 0 ==> Last(LineEnds(s)) == "" || IsTerminator(Last(LineEnds(s)))
    decreases |s|
  {
    if s != [] {
      var j := FirstBreak(s);
      if j < |s| {
        var k := NextLine(s, j);
        var t := s[k..];
        var first := s[j..k];
        BoundaryIsTerminator(s, j);
        LineEndsAreBoundaries(t);
        var ends := LineEnds(t);
        var all := LineEnds(s);
        assert all == [first] + ends;
        forall i | 0 <= i < |all| - 1
          ensures IsTerminator(all[i])
        {
          if i > 0 {
            assert all[i] == ends[i - 1];
          }
        }
        if ends == [] {
          assert Last(all) == first;
        } else {
          assert Last(all) == Last(ends);
        }
      } else {
        assert LineEnds(s) == [""];
      }
    }
  }

  /** A final boundary does not start an empty last line: a last line without a
      boundary after it is not empty. */
  lemma {:induction false} NoEmptyLastLine(s: string)
    ensures |LineEnds(s)| == |SplitLines(s)|
    ensures |LineEnds(s)| > 0 && Last(LineEnds(s)) == "" ==> Last(SplitLines(s)) != ""
    decreases |s|
  {
    SplitLinesRoundTrip(s);
    if s != [] {
      var j := FirstBreak(s);
      if j == |s| {
        assert SplitLines(s) == [s] && LineEnds(s) == [""];
      } else {
        var k := NextLine(s, j);
        var t := s[k..];
        NoEmptyLastLine(t);
        assert SplitLines(s) == [s[..j]] + SplitLines(t);
        assert LineEnds(s) == [s[j..k]] + LineEnds(t);
        if t == [] {
          assert LineEnds(t) == [];
          assert LineEnds(s) == [s[j..k]];
        }
      }
    }
  }

  /** A lone `\r` boundary is never followed by `\n`: `\r\n` is one boundary,
      so no empty line ending at `\n` comes right after it. */
  lemma {:induction false} LineEndsCrLf(s: string)
    ensures |LineEnds(s)| == |SplitLines(s)|
    ensures forall i :: 0 <= i < |LineEnds(s)| - 1 && LineEnds(s)[i] == "\r" ==>
      !(SplitLines(s)[i + 1] == "" && LineEnds(s)[i + 1] == "\n")
    decreases |s|
  {
    SplitLinesRoundTrip(s);
    if s != [] {
      var j := FirstBreak(s);
      if j < |s| {
        var k := NextLine(s, j);
        var t := s[k..];
        LineEndsCrLf(t);
        var lines, ends := SplitLines(s), LineEnds(s);
        assert lines == [s[..j]] + SplitLines(t);
        assert ends == [s[j..k]] + LineEnds(t);
        if ends[0] == "\r" && |ends| > 1 {
          assert s[j] == '\r' && k == j + 1;
          assert t != [] && t[0] != '\n';
          var j' := FirstBreak(t);
          assert lines[1] == t[..j'];
          if j' == 0 && j' < |t| {
            assert ends[1] == t[0..NextLine(t, 0)];
          }
        }
        forall i | 1 <= i < |ends| - 1 && ends[i] == "\r"
          ensures !(lines[i + 1] == "" && ends[i + 1] == "\n")
        {
          assert ends[i] == LineEnds(t)[i - 1] && ends[i + 1] == LineEnds(t)[i];
          assert lines[i + 1] == SplitLines(t)[i];
        }
      }
    }
  }

  function Min(a: nat, b: nat): nat {
    if a <= b then a else b
  }

  /** `min(len(l) - len(l.lstrip()) for l in lines if l.strip())`, with None where
      Python's `min` would find no line to take. */
  function MinIndent(lines: seq<string>): Option<nat>
    decreases |lines|
  {
    if lines == [] then None
    else
      var rest := MinIndent(lines[1..]);
      if IsBlank(lines[0]) then rest
      else match rest
        case None => Some(LeadingSpace(lines[0]))
        case Some(k) => Some(Min(LeadingSpace(lines[0]), k))
  }

  /** The indentation found is absent exactly when every line is blank, and is
      otherwise the least indentation of a non-blank line. */
  lemma {:induction false} MinIndentFacts(lines: seq<string>)
    ensures var m := MinIndent(lines);
      && (m.None? <==> forall i :: 0 <= i < |lines| ==> IsBlank(lines[i]))
      && (m.Some? ==> forall i :: 0 <= i < |lines| && !IsBlank(lines[i]) ==> m.value <= LeadingSpace(lines[i]))
      && (m.Some? ==> exists i :: 0 <= i < |lines| && !IsBlank(lines[i]) && m.value == LeadingSpace(lines[i]))
    decreases |lines|
  {
    if lines != [] {
      var tail := lines[1..];
      MinIndentFacts(tail);
      assert forall i :: 1 <= i < |lines| ==> lines[i] == tail[i - 1];
      var rest := MinIndent(tail);
      if !IsBlank(lines[0]) && rest.Some? {
        var m := Min(LeadingSpace(lines[0]), rest.value);
        assert MinIndent(lines) == Some(m);
        if m != LeadingSpace(lines[0]) {
          var i :| 0 <= i < |tail| && !IsBlank(tail[i]) && rest.value == LeadingSpace(tail[i]);
          assert lines[i + 1] == tail[i];
        }
      } else if IsBlank(lines[0]) && rest.Some? {
        var i :| 0 <= i < |tail| && !IsBlank(tail[i]) && rest.value == LeadingSpace(tail[i]);
        assert lines[i + 1] == tail[i];
      }
    }
  }

  /** `'\t' * offset + l[margin:]` */
  function ReindentLine(l: string, offset: nat, margin: nat): string {
    Tabs(offset) + l[Min(margin, |l|)..]
  }

  lemma LStripTabs(n: nat, x: string)
    ensures LStrip(Tabs(n) + x) == LStrip(x)
    decreases n
  {
    if n > 0 {
      assert (Tabs(n) + x)[1..] == Tabs(n - 1) + x;
      LStripTabs(n - 1, x);
    } else {
      assert Tabs(n) + x == x;
    }
  }

  lemma LStripDrop(l: string, m: nat)
    requires m <= LeadingSpace(l)
    ensures LStrip(l[m..]) == LStrip(l)
    decreases m
  {
    if m > 0 {
      assert IsSpace(l[0]);
      assert LStrip(l) == LStrip(l[1..]);
      assert l[m..] == l[1..][m - 1..];
      LStripDrop(l[1..], m - 1);
    }
  }

  lemma ReindentLineLast(l: string, offset: nat, margin: nat)
    requires !IsBlank(l) && margin <= LeadingSpace(l)
    ensures var r := ReindentLine(l, offset, margin); |r| > 0 && Last(r) == Last(l)
  {
    var r := ReindentLine(l, offset, margin);
    assert Last(r) == Last(l[margin..]);
  }

  /** What re-indenting does to one line: `offset` tabs in front, the text after
      the indentation and the line's blankness unchanged, and for a non-blank line
      exactly `margin` leading whitespace characters gone. */
  predicate LineReindented(r: string, l: string, offset: nat, margin: nat) {
    && |r| >= offset && r[..offset] == Tabs(offset)
    && (IsBlank(r) <==> IsBlank(l))
    && LStrip(r) == LStrip(l)
    && (!IsBlank(l) ==> LeadingSpace(r) == offset + LeadingSpace(l) - margin)
  }

  lemma BlankStripsEmpty(s: string)
    requires IsBlank(s)
    ensures LStrip(s) == []
  {
  }

  lemma ReindentBlank(l: string, offset: nat, k: nat)
    requires IsBlank(l) && k <= |l|
    ensures var r := Tabs(offset) + l[k..]; IsBlank(r) && LStrip(r) == [] && LStrip(l) == []
  {
    var r := Tabs(offset) + l[k..];
    forall i | 0 <= i < |r|
      ensures IsSpace(r[i])
    {
      if i >= offset {
        assert r[i] == l[k + i - offset];
      }
    }
    BlankStripsEmpty(r);
    BlankStripsEmpty(l);
  }

  lemma ReindentNonBlank(l: string, offset: nat, k: nat)
    requires !IsBlank(l) && k <= LeadingSpace(l)
    ensures var r := Tabs(offset) + l[k..];
      && LStrip(r) == LStrip(l) && !IsBlank(r) && LeadingSpace(r) == offset + LeadingSpace(l) - k
  {
    var r := Tabs(offset) + l[k..];
    LStripTabs(offset, l[k..]);
    LStripDrop(l, k);
  }

  lemma ReindentLineFacts(l: string, offset: nat, margin: nat)
    requires IsBlank(l) || margin <= LeadingSpace(l)
    ensures LineReindented(ReindentLine(l, offset, margin), l, offset, margin)
  {
    var k := Min(margin, |l|);
    var r := ReindentLine(l, offset, margin);
    assert r[..offset] == Tabs(offset);
    if IsBlank(l) {
      ReindentBlank(l, offset, k);
    } else {
      ReindentNonBlank(l, offset, k);
    }
  }

  /** The common left margin of a code text: the least indentation of its
      non-blank lines (line 118). The text ends in a non-whitespace character, so
      such a line exists and Python's `min` has something to take. */
  function Margin(code: string): nat
    requires |code| > 0 && !IsSpace(code[|code| - 1])
  {
    LastLine(code);
    MinIndentFacts(SplitLines(code));
    assert !IsBlank(Last(SplitLines(code)));
    MinIndent(SplitLines(code)).value
  }

  /** The margin is the least indentation of the non-blank lines, and some
      non-blank line has exactly that indentation. */
  lemma MarginIsLeast(code: string)
    requires |code| > 0 && !IsSpace(code[|code| - 1])
    ensures var lines := SplitLines(code); var m := Margin(code);
      && (forall i :: 0 <= i < |lines| && !IsBlank(lines[i]) ==> m <= LeadingSpace(lines[i]))
      && (exists i :: 0 <= i < |lines| && !IsBlank(lines[i]) && m == LeadingSpace(lines[i]))
  {
    LastLine(code);
    MinIndentFacts(SplitLines(code));
  }

  function ReindentAll(lines: seq<string>, offset: nat, margin: nat): (r: seq<string>)
    ensures |r| == |lines|
    decreases |lines|
  {
    if lines == [] then [] else [ReindentLine(lines[0], offset, margin)] + ReindentAll(lines[1..], offset, margin)
  }

  lemma {:induction false} ReindentAllEach(lines: seq<string>, offset: nat, margin: nat, i: nat)
    requires i < |lines|
    ensures ReindentAll(lines, offset, margin)[i] == ReindentLine(lines[i], offset, margin)
    decreases |lines|
  {
    if i > 0 {
      ReindentAllEach(lines[1..], offset, margin, i - 1);
    }
  }

  /** The lines of a code text, each indented to `offset` tabs after the common
      margin is removed (lines 117-119). */
  function ReindentLines(code: string, offset: nat): seq<string>
    requires |code| > 0 && !IsSpace(code[|code| - 1])
  {
    ReindentAll(SplitLines(code), offset, Margin(code))
  }

  /** Every re-indented line is the source line with the margin cut off and
      `offset` tabs put in front. */
  lemma ReindentLinesEach(code: string, offset: nat, i: nat)
    requires |code| > 0 && !IsSpace(code[|code| - 1])
    requires i < |SplitLines(code)|
    ensures |ReindentLines(code, offset)| == |SplitLines(code)|
    ensures ReindentLines(code, offset)[i] == ReindentLine(SplitLines(code)[i], offset, Margin(code))
  {
    ReindentAllEach(SplitLines(code), offset, Margin(code), i);
  }

  /** There is a last re-indented line, and it ends in the code's last character. */
  lemma ReindentLinesLast(code: string, offset: nat)
    requires |code| > 0 && !IsSpace(code[|code| - 1])
    ensures var r := ReindentLines(code, offset);
      |r| == |SplitLines(code)| > 0 && |Last(r)| > 0 && Last(Last(r)) == code[|code| - 1]
  {
    var lines := SplitLines(code);
    var margin := Margin(code);
    LastLine(code);
    MarginIsLeast(code);
    ReindentLinesEach(code, offset, |lines| - 1);
    ReindentLineLast(Last(lines), offset, margin);
  }

  /** Exact re-indentation: every emitted line starts with `offset` tabs, keeps its
      text after the indentation and its blankness, keeps its indentation relative
      to every other non-blank line, and some non-blank line is left with no
      indentation beyond the tabs, so the whole common margin is removed. */
  lemma ReindentLinesShape(code: string, offset: nat)
    requires |code| > 0 && !IsSpace(code[|code| - 1])
    ensures var r := ReindentLines(code, offset); var lines := SplitLines(code);
      && (forall i :: 0 <= i < |r| ==> LineReindented(r[i], lines[i], offset, Margin(code)))
      && (forall i, j :: 0 <= i < |r| && 0 <= j < |r| && !IsBlank(r[i]) && !IsBlank(r[j]) ==>
            LeadingSpace(r[i]) - LeadingSpace(r[j]) == LeadingSpace(lines[i]) - LeadingSpace(lines[j]))
      && (exists i :: 0 <= i < |r| && !IsBlank(r[i]) && LeadingSpace(r[i]) == offset)
  {
    var r := ReindentLines(code, offset);
    var lines := SplitLines(code);
    var margin := Margin(code);
    MarginIsLeast(code);
    ReindentLinesLast(code, offset);
    forall i | 0 <= i < |lines|
      ensures LineReindented(r[i], lines[i], offset, margin)
    {
      ReindentLinesEach(code, offset, i);
      ReindentLineFacts(lines[i], offset, margin);
    }
    var k :| 0 <= k < |lines| && !IsBlank(lines[k]) && margin == LeadingSpace(lines[k]);
    assert LineReindented(r[k], lines[k], offset, margin);
  }

  lemma JoinLast(xs: seq<string>, sep: string)
    requires |xs| > 0 && |Last(xs)| > 0
    ensures |JoinWith(xs, sep)| > 0 && Last(JoinWith(xs, sep)) == Last(Last(xs))
    decreases |xs|
  {
    if |xs| > 1 {
      JoinLast(xs[1..], sep);
      assert Last(xs[1..]) == Last(xs);
    }
  }

  /** `'\n'.join(...)` of the re-indented lines. */
  function Reindent(code: string, offset: nat): string
    requires |code| > 0 && !IsSpace(code[|code| - 1])
  {
    JoinWith(ReindentLines(code, offset), "\n")
  }

  /** The re-indented text ends in the code's last character, so it ends with `:`
      (and opens a block) exactly when the code does. */
  lemma ReindentEnds(code: string, offset: nat)
    requires |code| > 0 && !IsSpace(code[|code| - 1])
    ensures var r := Reindent(code, offset);
      |r| > 0 && Last(r) == Last(code) && (EndsWithColon(r) <==> EndsWithColon(code))
  {
    ReindentLinesLast(code, offset);
    JoinLast(ReindentLines(code, offset), "\n");
  }

  lemma JoinFirst(xs: seq<string>, sep: string, n: nat)
    requires |xs| > 0 && |xs[0]| >= n
    ensures |JoinWith(xs, sep)| >= n && JoinWith(xs, sep)[..n] == xs[0][..n]
  {
    if |xs| > 1 {
      assert JoinWith(xs, sep) == xs[0] + (sep + JoinWith(xs[1..], sep));
    }
  }

  /** The re-indented text starts with `offset` tabs. */
  lemma ReindentIndent(code: string, offset: nat)
    requires |code| > 0 && !IsSpace(code[|code| - 1])
    ensures var r := Reindent(code, offset); |r| >= offset && r[..offset] == Tabs(offset)
  {
    var lines := ReindentLines(code, offset);
    ReindentLinesShape(code, offset);
    assert LineReindented(lines[0], SplitLines(code)[0], offset, Margin(code));
    JoinFirst(lines, "\n", offset);
  }

  /** The string prefixes listed in the `autowrite` pattern (line 43). */
  const StringPrefixes: seq<string> :=
    ["r", "u", "R", "U", "f", "F", "fr", "Fr", "fR", "FR", "rf", "rF", "Rf", "RF"]

  predicate IsQuote(c: char) {
    c == '\'' || c == '"'
  }

  predicate IsRawOrFormat(c: char) {
    c == 'r' || c == 'R' || c == 'f' || c == 'F'
  }

  /** One of the one-character prefixes. */
  predicate IsPrefixChar(c: char) {
    IsRawOrFormat(c) || c == 'u' || c == 'U'
  }

  /** `^(r|u|...|RF)?['"]`: a string literal, possibly prefixed, starts the text.
      The two-character prefixes are the raw-and-format pairs in either order. */
  predicate OpensStringLiteral(s: string) {
    || (|s| > 0 && IsQuote(s[0]))
    || (|s| > 1 && IsPrefixChar(s[0]) && IsQuote(s[1]))
    || (|s| > 2 && IsRawOrFormat(s[0]) && IsRawOrFormat(s[1])
        && (s[0] == 'r' || s[0] == 'R' <==> s[1] == 'f' || s[1] == 'F') && IsQuote(s[2]))
  }

  /** The same test read straight off the prefix list of the pattern. */
  ghost predicate OpensStringLiteralByList(s: string) {
    || (|s| > 0 && IsQuote(s[0]))
    || exists p :: p in StringPrefixes && |p| < |s| && s[..|p|] == p && IsQuote(s[|p|])
  }

  lemma PrefixListShape(p: string)
    requires p in StringPrefixes
    ensures (|p| == 1 && IsPrefixChar(p[0]))
      || (|p| == 2 && IsRawOrFormat(p[0]) && IsRawOrFormat(p[1]) && (p[0] == 'r' || p[0] == 'R' <==> p[1] == 'f' || p[1] == 'F'))
  {
  }

  lemma PrefixCharListed(c: char)
    requires IsPrefixChar(c)
    ensures [c] in StringPrefixes
  {
    assert [c] == StringPrefixes[0] || [c] == StringPrefixes[1] || [c] == StringPrefixes[2]
        || [c] == StringPrefixes[3] || [c] == StringPrefixes[4] || [c] == StringPrefixes[5];
  }

  lemma PrefixPairListed(a: char, b: char)
    requires IsRawOrFormat(a) && IsRawOrFormat(b) && (a == 'r' || a == 'R' <==> b == 'f' || b == 'F')
    ensures [a, b] in StringPrefixes
  {
    assert [a, b] == StringPrefixes[6] || [a, b] == StringPrefixes[7] || [a, b] == StringPrefixes[8]
        || [a, b] == StringPrefixes[9] || [a, b] == StringPrefixes[10] || [a, b] == StringPrefixes[11]
        || [a, b] == StringPrefixes[12] || [a, b] == StringPrefixes[13];
  }

  /** The quantifier-free test above accepts exactly the texts the pattern's
      prefix list accepts. */
  lemma OpensStringLiteralMatchesList(s: string)
    ensures OpensStringLiteral(s) <==> OpensStringLiteralByList(s)
  {
    if |s| > 1 && IsPrefixChar(s[0]) && IsQuote(s[1]) {
      PrefixCharListed(s[0]);
      assert s[..1] == [s[0]];
    }
    if |s| > 2 && IsRawOrFormat(s[0]) && IsRawOrFormat(s[1])
       && (s[0] == 'r' || s[0] == 'R' <==> s[1] == 'f' || s[1] == 'F') && IsQuote(s[2]) {
      PrefixPairListed(s[0], s[1]);
      assert s[..2] == [s[0], s[1]];
    }
    if OpensStringLiteralByList(s) && !(|s| > 0 && IsQuote(s[0])) {
      var p :| p in StringPrefixes && |p| < |s| && s[..|p|] == p && IsQuote(s[|p|]);
      PrefixListShape(p);
      assert s[0] == p[0];
      if |p| == 2 {
        assert s[1] == p[1];
      }
    }
  }

  predicate IsWordChar(c: char) {
    ('a' <= c <= 'z') || ('A' <= c <= 'Z') || ('0' <= c <= '9') || c == '_' || c == '[' || c == ']' || IsQuote(c)
  }

  predicate AllWordChars(s: string) {
    |s| > 0 && forall i :: 0 <= i < |s| ==> IsWordChar(s[i])
  }

  /** `Templite.autowrite.match(s)`: the second alternative `^[a-zA-Z0-9_\[\]'"]+$`
      also matches before a final newline, as `$` does. */
  predicate Autowrite(s: string) {
    || OpensStringLiteral(s)
    || AllWordChars(s)
    || (|s| > 1 && s[|s| - 1] == '\n' && AllWordChars(s[..|s| - 1]))
  }

  /** How `_compile` treats a code part, decided by its text alone. */
  datatype Directive =
    | Blank                  // whitespace only: dropped
    | Close(reopens: bool)   // leading `:` closes a block; a trailing `:` opens the next one
    | Expr                   // matches `autowrite`: becomes `write(...)`
    | Stmt(opens: bool)      // any other statement; a trailing `:` opens a block

  function Classify(part: string): Directive {
    var code := RStrip(part);
    if code == [] then Blank
    else
      var stripped := LStrip(code);
      if stripped[0] == ':' then Close(EndsWithColon(stripped[1..]))
      else if Autowrite(stripped) then Expr
      else Stmt(EndsWithColon(code))
  }

  /** The change of block depth a directive causes. */
  function Delta(dir: Directive): int {
    match dir
    case Blank => 0
    case Close(reopens) => if reopens then 0 else -1
    case Expr => 0
    case Stmt(opens) => if opens then 1 else 0
  }
}
