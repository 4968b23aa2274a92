/** The delimiter scanner of `Templite._compile`: the source is cut by the
    regular expression `start(.*?)end` (DOTALL) into alternating literal and
    code parts, and each part has its escaped delimiters restored. */
module Scanner {
  import opened Wrappers
  import opened Text

  /** `Templite.__init__` accepts only delimiters of exactly two characters. */
  type Delimiter = s: string | |s| == 2 witness "{%"

  datatype Delimiters = Delimiters(start: Delimiter, end: Delimiter)

  /** The class attribute `Templite.delimiters`. */
  const DefaultDelimiters := Delimiters("{%", "%}")

  /** The text holds a start delimiter with an end delimiter somewhere after it,
      i.e. a region the regular expression would match. */
  predicate HasDirective(t: string, d: Delimiters) {
    exists j: nat, k: nat | j + 2 <= k && k + 2 <= |t| :: OccursAt(t, d.start, j) && OccursAt(t, d.end, k)
  }

  /** The leftmost match of `start(.*?)end`, as the positions `(p, q)` of its two
      delimiters: `p` is the first start delimiter and `q` the first end delimiter
      that begins after it. When no end delimiter follows the first start
      delimiter, no later start delimiter has one either, so there is no match. */
  function NextDirective(s: string, d: Delimiters): (r: Option<(nat, nat)>)
    ensures r.Some? ==> var (p, q) := r.value;
      p + 2 <= q && q + 2 <= |s| && s[p..p + 2] == d.start && s[q..q + 2] == d.end
      && (forall j :: 0 <= j < p ==> !OccursAt(s, d.start, j))
      && (forall j :: p + 2 <= j < q ==> !OccursAt(s, d.end, j))
    ensures r.None? <==> !HasDirective(s, d)
  {
    match Find(s, d.start, 0)
    case None => None
    case Some(p) =>
      match Find(s, d.end, p + 2)
      case None => None
      case Some(q) =>
        assert OccursAt(s, d.start, p) && OccursAt(s, d.end, q);
        Some((p, q))
  }

  /** `re.split(start(.*?)end, s)` with its one capturing group: literal parts at
      even indices, code parts at odd indices. */
  function Split(s: string, d: Delimiters): (parts: seq<string>)
    ensures |parts| % 2 == 1
    decreases |s|
  {
    match NextDirective(s, d)
    case None => [s]
    case Some((p, q)) => [s[..p], s[p + 2..q]] + Split(s[q + 2..], d)
  }

  /** The inverse of `Split`: `lit0 + start + code1 + end + lit2 + ...` */
  function JoinParts(parts: seq<string>, d: Delimiters): string
    requires |parts| % 2 == 1
    decreases |parts|
  {
    if |parts| == 1 then parts[0]
    else parts[0] + d.start + parts[1] + d.end + JoinParts(parts[2..], d)
  }

  lemma Reassemble(s: string, p: nat, q: nat, a: string, b: string)
    requires p + 2 <= q && q + 2 <= |s| && s[p..p + 2] == a && s[q..q + 2] == b
    ensures s == s[..p] + a + s[p + 2..q] + b + s[q + 2..]
  {
    assert s == s[..p] + s[p..p + 2] + s[p + 2..q] + s[q..q + 2] + s[q + 2..];
  }

  /** Splitting loses nothing: the parts, put back between the delimiters,
      give the source. */
  lemma {:induction false} SplitRoundTrip(s: string, d: Delimiters)
    ensures JoinParts(Split(s, d), d) == s
    decreases |s|
  {
    match NextDirective(s, d)
    case None =>
    case Some((p, q)) =>
      var rest := Split(s[q + 2..], d);
      SplitRoundTrip(s[q + 2..], d);
      var parts := Split(s, d);
      assert parts == [s[..p], s[p + 2..q]] + rest;
      assert parts[2..] == rest;
      Reassemble(s, p, q, d.start, d.end);
  }

  /** In `t + pat`, the `pat` at the end is the first occurrence of `pat`: none
      starts inside `t`, not even one that runs on into the appended `pat`. */
  predicate FirstAtEnd(t: string, pat: string) {
    forall j :: 0 <= j < |t| ==> !OccursAt(t + pat, pat, j)
  }

  /** The first occurrence, in particular, is not contained in `t`. */
  lemma FirstAtEndExcludes(t: string, pat: string)
    requires |pat| > 0 && FirstAtEnd(t, pat)
    ensures !Contains(t, pat)
  {
    forall j: nat | j + |pat| <= |t|
      ensures !OccursAt(t, pat, j)
    {
      assert !OccursAt(t + pat, pat, j);
      assert (t + pat)[j..j + |pat|] == t[j..j + |pat|];
    }
  }

  /** A slice `s[a..b]` that ends where `pat` occurs, with no occurrence of `pat`
      starting in `[a, b)`, has that occurrence first at its end. */
  lemma FirstAtEndOfSlice(s: string, pat: string, a: nat, b: nat)
    requires a <= b && OccursAt(s, pat, b)
    requires forall j :: a <= j < b ==> !OccursAt(s, pat, j)
    ensures FirstAtEnd(s[a..b], pat)
  {
    var t := s[a..b];
    assert t + pat == s[a..b + |pat|];
    forall j | 0 <= j < |t|
      ensures !OccursAt(t + pat, pat, j)
    {
      SliceOccurrence(s, pat, a, |t| + |pat|, j);
    }
  }

  /** What the leftmost lazy match guarantees of the parts: in every code part the
      end delimiter that closes it is the first one after the start delimiter, in
      every literal part before the last the start delimiter that follows it is
      the first one, and the last literal part holds no complete directive. */
  predicate WellSplit(parts: seq<string>, d: Delimiters) {
    && |parts| % 2 == 1
    && (forall i :: 0 <= i < |parts| && i % 2 == 1 ==> FirstAtEnd(parts[i], d.end))
    && (forall i :: 0 <= i < |parts| - 1 && i % 2 == 0 ==> FirstAtEnd(parts[i], d.start))
    && !HasDirective(parts[|parts| - 1], d)
  }

  lemma WellSplitCons(lit: string, code: string, rest: seq<string>, d: Delimiters)
    requires FirstAtEnd(lit, d.start) && FirstAtEnd(code, d.end) && WellSplit(rest, d)
    ensures WellSplit([lit, code] + rest, d)
  {
    var parts := [lit, code] + rest;
    forall i | 2 <= i < |parts|
      ensures parts[i] == rest[i - 2]
    {
    }
  }

  lemma WellSplitTail(parts: seq<string>, d: Delimiters)
    requires WellSplit(parts, d) && |parts| > 1
    ensures WellSplit(parts[2..], d)
    ensures FirstAtEnd(parts[0], d.start) && FirstAtEnd(parts[1], d.end)
  {
    var rest := parts[2..];
    forall i | 0 <= i < |rest|
      ensures rest[i] == parts[i + 2]
    {
    }
  }

  /** The parts of every split satisfy `WellSplit`. */
  lemma {:induction false} SplitShape(s: string, d: Delimiters)
    ensures WellSplit(Split(s, d), d)
    decreases |s|
  {
    match NextDirective(s, d)
    case None =>
      assert Split(s, d) == [s];
    case Some((p, q)) =>
      var rest := Split(s[q + 2..], d);
      SplitShape(s[q + 2..], d);
      assert s[0..p] == s[..p];
      FirstAtEndOfSlice(s, d.start, 0, p);
      FirstAtEndOfSlice(s, d.end, p + 2, q);
      WellSplitCons(s[..p], s[p + 2..q], rest, d);
      assert Split(s, d) == [s[..p], s[p + 2..q]] + rest;
  }

  /** The leftmost lazy match seen part by part: no code part contains the end
      delimiter, and no literal part before the last contains the start
      delimiter. */
  lemma SplitPartsFree(s: string, d: Delimiters)
    ensures var parts := Split(s, d);
      && (forall i :: 0 <= i < |parts| && i % 2 == 1 ==> !Contains(parts[i], d.end))
      && (forall i :: 0 <= i < |parts| - 1 && i % 2 == 0 ==> !Contains(parts[i], d.start))
  {
    var parts := Split(s, d);
    SplitShape(s, d);
    forall i | 0 <= i < |parts| && i % 2 == 1
      ensures !Contains(parts[i], d.end)
    {
      FirstAtEndExcludes(parts[i], d.end);
    }
    forall i | 0 <= i < |parts| - 1 && i % 2 == 0
      ensures !Contains(parts[i], d.start)
    {
      FirstAtEndExcludes(parts[i], d.start);
    }
  }

  /** `Find` returns a position once it is an occurrence with none before it. */
  lemma FindFirst(s: string, pat: string, from: nat, p: nat)
    requires |pat| > 0 && from <= p && OccursAt(s, pat, p)
    requires forall j :: from <= j < p ==> !OccursAt(s, pat, j)
    ensures Find(s, pat, from) == Some(p)
  {
  }

  /** An occurrence inside a slice is an occurrence in the text, and back. */
  lemma SliceOccurrence(s: string, pat: string, a: nat, c: nat, j: nat)
    requires a + c <= |s| && j + |pat| <= c
    ensures OccursAt(s[a..a + c], pat, j) <==> OccursAt(s, pat, a + j)
  {
    var u := s[a..a + c];
    var v, w := u[j..j + |pat|], s[a + j..a + j + |pat|];
    forall k | 0 <= k < |pat|
      ensures v[k] == w[k]
    {
      assert v[k] == u[j + k] == s[a + j + k];
    }
    assert v == w;
  }

  /** A text laid out as literal, start delimiter, code, end delimiter, rest is
      matched at exactly those two delimiters. */
  lemma DirectiveAt(lit: string, code: string, rest: string, d: Delimiters)
    requires FirstAtEnd(lit, d.start) && FirstAtEnd(code, d.end)
    ensures var s := lit + d.start + code + d.end + rest;
      NextDirective(s, d) == Some((|lit|, |lit| + 2 + |code|))
  {
    var s := lit + d.start + code + d.end + rest;
    var p, q := |lit|, |lit| + 2 + |code|;
    assert s[..p + 2] == lit + d.start;
    assert s[p..p + 2] == d.start;
    assert s[0..p + 2] == lit + d.start;
    forall j | 0 <= j < p
      ensures !OccursAt(s, d.start, j)
    {
      SliceOccurrence(s, d.start, 0, p + 2, j);
    }
    FindFirst(s, d.start, 0, p);
    assert s[p + 2..q + 2] == code + d.end;
    assert s[q..q + 2] == d.end;
    forall j | p + 2 <= j < q
      ensures !OccursAt(s, d.end, j)
    {
      SliceOccurrence(s, d.end, p + 2, |code| + 2, j - (p + 2));
    }
    FindFirst(s, d.end, p + 2, q);
  }

  /** One step of `Split` on a text laid out as in `DirectiveAt`. */
  lemma SplitAt(lit: string, code: string, rest: string, d: Delimiters)
    requires FirstAtEnd(lit, d.start) && FirstAtEnd(code, d.end)
    ensures Split(lit + d.start + code + d.end + rest, d) == [lit, code] + Split(rest, d)
  {
    var s := lit + d.start + code + d.end + rest;
    DirectiveAt(lit, code, rest, d);
    match NextDirective(s, d)
    case Some((p, q)) =>
      assert s[..p] == lit;
      assert s[p + 2..q] == code;
      assert s[q + 2..] == rest;
  }

  lemma SplitWhole(s: string, d: Delimiters)
    requires !HasDirective(s, d)
    ensures Split(s, d) == [s]
  {
    assert NextDirective(s, d).None?;
  }

  /** `WellSplit` pins the split down: the only well-split parts that join to
      `s` are the parts of `Split(s)`. */
  lemma {:induction false} SplitUnique(parts: seq<string>, d: Delimiters)
    requires WellSplit(parts, d)
    ensures Split(JoinParts(parts, d), d) == parts
    decreases |parts|
  {
    if |parts| == 1 {
      SplitWhole(parts[0], d);
    } else {
      WellSplitTail(parts, d);
      SplitUnique(parts[2..], d);
      SplitUniqueStep(parts, d);
    }
  }

  lemma SplitUniqueStep(parts: seq<string>, d: Delimiters)
    requires |parts| % 2 == 1 && |parts| > 1
    requires FirstAtEnd(parts[0], d.start) && FirstAtEnd(parts[1], d.end)
    requires Split(JoinParts(parts[2..], d), d) == parts[2..]
    ensures Split(JoinParts(parts, d), d) == parts
  {
    SplitAt(parts[0], parts[1], JoinParts(parts[2..], d), d);
    assert parts == [parts[0], parts[1]] + parts[2..];
  }

  /** `'\\'.join(delim)`: the delimiter with a backslash between its two characters. */
  function Escaped(delim: Delimiter): string {
    [delim[0], '\\', delim[1]]
  }

  /** Lines 93-94: escaped start delimiters, then escaped end delimiters, become
      the delimiters themselves. */
  function Unescape(part: string, d: Delimiters): string {
    ReplaceAll(ReplaceAll(part, Escaped(d.start), d.start), Escaped(d.end), d.end)
  }

  /** A delimiter whose escaped form cannot be confused with the delimiter itself
      where escaped delimiters meet the surrounding text. */
  predicate PlainDelimiter(delim: Delimiter) {
    delim[0] != delim[1] && delim[0] != '\\' && delim[1] != '\\'
  }

  lemma ShiftOccurrence(s: string, pat: string, i: nat)
    requires |s| > 0
    ensures OccursAt(s[1..], pat, i) <==> OccursAt(s, pat, i + 1)
  {
    if i + 1 + |pat| <= |s| {
      assert s[1..][i..i + |pat|] == s[i + 1..i + 1 + |pat|];
    }
  }

  /** Where no occurrence starts at the front, `replace` keeps the first character. */
  lemma ReplaceAllStep(s: string, pat: string, rep: string)
    requires |pat| > 0 && |s| >= |pat| && !OccursAt(s, pat, 0)
    ensures ReplaceAll(s, pat, rep) == [s[0]] + ReplaceAll(s[1..], pat, rep)
  {
    assert s[..|pat|] != pat;
  }

  lemma {:induction false} ReplaceAllSkips(p: string, tail: string, pat: string, rep: string)
    requires |pat| > 0
    requires forall i :: 0 <= i < |p| ==> !OccursAt(p + tail, pat, i)
    ensures ReplaceAll(p + tail, pat, rep) == p + ReplaceAll(tail, pat, rep)
    decreases |p|
  {
    if p == [] {
      assert p + tail == tail;
    } else {
      var s := p + tail;
      var s' := p[1..] + tail;
      assert s[1..] == s';
      forall i | 0 <= i < |p[1..]|
        ensures !OccursAt(s', pat, i)
      {
        ShiftOccurrence(s, pat, i);
      }
      ReplaceAllSkips(p[1..], tail, pat, rep);
      if |s| < |pat| {
        assert ReplaceAll(s, pat, rep) == s;
        assert ReplaceAll(tail, pat, rep) == tail;
      } else {
        var x := ReplaceAll(tail, pat, rep);
        ReplaceAllStep(s, pat, rep);
        calc {
          ReplaceAll(s, pat, rep);
          [s[0]] + ReplaceAll(s', pat, rep);
          [p[0]] + (p[1..] + x);
          { assert [p[0]] + (p[1..] + x) == ([p[0]] + p[1..]) + x; assert [p[0]] + p[1..] == p; }
          p + x;
        }
      }
    }
  }

  /** No escaped form `x\y` starts inside a text free of it when what follows the
      text is empty or begins with `x`. */
  lemma EscapedNotBefore(p: string, tail: string, delim: Delimiter)
    requires PlainDelimiter(delim) && !Contains(p, Escaped(delim))
    requires tail == [] || tail[0] == delim[0]
    ensures forall i :: 0 <= i < |p| ==> !OccursAt(p + tail, Escaped(delim), i)
  {
    var pat := Escaped(delim);
    forall i | 0 <= i < |p|
      ensures !OccursAt(p + tail, pat, i)
    {
      if i + 3 <= |p| {
        assert (p + tail)[i..i + 3] == p[i..i + 3];
        assert !OccursAt(p, pat, i);
      } else if tail == [] {
        NoOccurrenceAt(p + tail, pat, i, 0);
      } else if i + 1 == |p| {
        assert (p + tail)[i + 1] == tail[0];
        NoOccurrenceAt(p + tail, pat, i, 1);
      } else {
        assert (p + tail)[i + 2] == tail[0];
        NoOccurrenceAt(p + tail, pat, i, 2);
      }
    }
  }

  /** Replacing an escaped form `x\y` by `xy` restores exactly the escaped
      delimiters of a text whose pieces between them hold no escaped form. */
  lemma {:induction false} ReplaceEscapedPieces(pieces: seq<string>, delim: Delimiter)
    requires PlainDelimiter(delim)
    requires forall i :: 0 <= i < |pieces| ==> !Contains(pieces[i], Escaped(delim))
    ensures ReplaceAll(JoinWith(pieces, Escaped(delim)), Escaped(delim), delim) == JoinWith(pieces, delim)
    decreases |pieces|
  {
    var pat := Escaped(delim);
    if |pieces| == 1 {
      EscapedNotBefore(pieces[0], [], delim);
      ReplaceAllSkips(pieces[0], [], pat, delim);
      assert pieces[0] + [] == pieces[0];
    } else if |pieces| > 1 {
      var rest := JoinWith(pieces[1..], pat);
      ReplaceEscapedPieces(pieces[1..], delim);
      EscapedNotBefore(pieces[0], pat + rest, delim);
      ReplaceAllSkips(pieces[0], pat + rest, pat, delim);
      assert (pat + rest)[..|pat|] == pat;
      assert (pat + rest)[|pat|..] == rest;
      assert pieces[0] + pat + rest == pieces[0] + (pat + rest);
      assert JoinWith(pieces, delim) == pieces[0] + delim + JoinWith(pieces[1..], delim);
    }
  }

  lemma ContainsSplitTwo(a: string, b: string, pat: string)
    requires |pat| == 2 && !Contains(a, pat) && !Contains(b, pat)
    requires a == [] || b == [] || [a[|a| - 1], b[0]] != pat
    ensures !Contains(a + b, pat)
  {
    forall i: nat | i + 2 <= |a + b|
      ensures !OccursAt(a + b, pat, i)
    {
      if i + 2 <= |a| {
        assert a[i..i + 2] == (a + b)[i..i + 2];
        assert !OccursAt(a, pat, i);
      } else if i >= |a| {
        assert b[i - |a|..i - |a| + 2] == (a + b)[i..i + 2];
        assert !OccursAt(b, pat, i - |a|);
      } else {
        assert (a + b)[i..i + 2] == [a[|a| - 1], b[0]];
      }
    }
  }

  /** A text made of delimiter-free pieces joined by escaped delimiters contains
      no delimiter: escaping hides every one of them from the scanner. */
  lemma {:induction false} EscapedTextHasNoDelimiter(pieces: seq<string>, delim: Delimiter)
    requires PlainDelimiter(delim)
    requires forall i :: 0 <= i < |pieces| ==> !Contains(pieces[i], delim)
    ensures !Contains(JoinWith(pieces, Escaped(delim)), delim)
    decreases |pieces|
  {
    var pat := Escaped(delim);
    if |pieces| > 1 {
      var rest := JoinWith(pieces[1..], pat);
      EscapedTextHasNoDelimiter(pieces[1..], delim);
      forall i: nat | i + 2 <= |pat|
        ensures !OccursAt(pat, delim, i)
      {
        NoOccurrenceAt(pat, delim, i, 1 - i);
      }
      ContainsSplitTwo(pat, rest, delim);
      ContainsSplitTwo(pieces[0], pat + rest, delim);
      assert pieces[0] + pat + rest == pieces[0] + (pat + rest);
    }
  }

  /** A text free of a two-character delimiter whose characters differ has the
      delimiter appended to it first at its end. */
  lemma NoContainsFirstAtEnd(t: string, delim: Delimiter)
    requires delim[0] != delim[1] && !Contains(t, delim)
    ensures FirstAtEnd(t, delim)
  {
    forall j | 0 <= j < |t|
      ensures !OccursAt(t + delim, delim, j)
    {
      if j + 2 <= |t| {
        assert (t + delim)[j..j + 2] == t[j..j + 2];
        assert !OccursAt(t, delim, j);
      } else {
        assert (t + delim)[j + 1] == delim[0];
        NoOccurrenceAt(t + delim, delim, j, 1);
      }
    }
  }

  /** An escaped end delimiter inside a directive does not close it: the code part
      runs on to the real end delimiter, and unescaping gives the end delimiter
      back to the code. */
  lemma EscapedEndStaysInCode(a: string, pieces: seq<string>, b: string, d: Delimiters)
    requires PlainDelimiter(d.end) && FirstAtEnd(a, d.start)
    requires forall i :: 0 <= i < |pieces| ==> !Contains(pieces[i], d.end) && !Contains(pieces[i], Escaped(d.end))
    requires !Contains(JoinWith(pieces, Escaped(d.end)), Escaped(d.start))
    ensures var c := JoinWith(pieces, Escaped(d.end));
      var parts := Split(a + d.start + c + d.end + b, d);
      |parts| >= 3 && parts[1] == c && Unescape(c, d) == JoinWith(pieces, d.end)
  {
    var c := JoinWith(pieces, Escaped(d.end));
    EscapedTextHasNoDelimiter(pieces, d.end);
    NoContainsFirstAtEnd(c, d.end);
    SplitAt(a, c, b, d);
    ReplaceAllAbsent(c, Escaped(d.start), d.start);
    ReplaceEscapedPieces(pieces, d.end);
  }

  /** With a delimiter whose two characters are equal, such as `}}`, an escaped
      delimiter written next to a piece that starts with the same character holds
      the delimiter itself. */
  lemma EscapedRepeatedDelimiterShows()
    ensures Contains(JoinWith(["a", "}b"], Escaped("}}")), "}}")
  {
    var t := JoinWith(["a", "}b"], Escaped("}}"));
    assert t == "a}\\}}b";
    assert t[3..5] == "}}";
    assert OccursAt(t, "}}", 3);
  }

  lemma EscapeBreaksFirstEnd()
    ensures FirstAtEnd("x}\\", "}}")
  {
    var t := "x}\\}}";
    assert "x}\\" + "}}" == t;
    NoOccurrenceAt(t, "}}", 0, 0);
    NoOccurrenceAt(t, "}}", 1, 1);
    NoOccurrenceAt(t, "}}", 2, 0);
  }

  lemma SplitShort(t: string, d: Delimiters)
    requires |t| < 4
    ensures Split(t, d) == [t]
  {
    SplitWhole(t, d);
  }

  /** With the pair `{{`, `}}`, an escaped end delimiter written right before the
      real one does not stay in the code: the split happens before unescaping, so
      the code part stops inside the escape and a stray `}` becomes literal text. */
  lemma EscapedRepeatedDelimiterSplits()
    ensures Split("{{x}\\}}}", Delimiters("{{", "}}")) == ["", "x}\\", "}"]
  {
    var d := Delimiters("{{", "}}");
    var lit, code, rest := "", "x}\\", "}";
    EscapeBreaksFirstEnd();
    var src := lit + d.start + code + d.end + rest;
    assert src == "{{x}\\}}}";
    SplitAt(lit, code, rest, d);
    SplitShort(rest, d);
  }
}
