/** Literal parts of a template (`_compile`, lines 96-100): line continuations are
    removed, backslashes and double quotes are escaped, and the text is wrapped in
    a `write("""...""")` call indented to the current block depth. */
module Literal {
  import opened Wrappers
  import opened Text

  predicate IsNewline(c: char) {
    c == '\r' || c == '\n'
  }

  predicate IsBlankChar(c: char) {
    c == ' ' || c == '\t'
  }

  /** The `[ \t]*` tail of a continuation: leading spaces and tabs dropped. */
  function DropBlanks(s: string): (r: string)
    ensures |r| <= |s| && r == s[|s| - |r|..]
    ensures r == [] || !IsBlankChar(r[0])
    decreases |s|
  {
    if s != [] && IsBlankChar(s[0]) then DropBlanks(s[1..]) else s
  }

  /** A backslash directly followed by a newline character. */
  predicate HasContinuation(s: string) {
    exists i :: 0 <= i < |s| - 1 && s[i] == '\\' && IsNewline(s[i + 1])
  }

  /** `re.sub(r'\\(\r\n|\r|\n)[ \t]*', '', s)`: scanning left to right, each
      backslash-newline (with `\r\n` preferred over `\r`) is removed together with
      the spaces and tabs after it. */
  function SkipContinuations(s: string): (r: string)
    ensures |r| <= |s|
    decreases |s|
  {
    if |s| == 0 then s
    else if s[0] == '\\' && |s| >= 2 && IsNewline(s[1]) then
      var n := if s[1] == '\r' && |s| >= 3 && s[2] == '\n' then 3 else 2;
      SkipContinuations(DropBlanks(s[n..]))
    else [s[0]] + SkipContinuations(s[1..])
  }

  lemma {:induction false} ContinuationShortens(s: string)
    requires HasContinuation(s)
    ensures |SkipContinuations(s)| < |s|
    decreases |s|
  {
    if !(s[0] == '\\' && |s| >= 2 && IsNewline(s[1])) {
      var i :| 0 <= i < |s| - 1 && s[i] == '\\' && IsNewline(s[i + 1]);
      assert s[1..][i - 1] == s[i] && s[1..][i] == s[i + 1];
      ContinuationShortens(s[1..]);
    }
  }

  lemma NoContinuationTail(s: string)
    requires |s| > 0 && !HasContinuation(s)
    ensures !HasContinuation(s[1..])
  {
    forall i | 0 <= i < |s[1..]| - 1
      ensures !(s[1..][i] == '\\' && IsNewline(s[1..][i + 1]))
    {
      assert s[1..][i] == s[i + 1] && s[1..][i + 1] == s[i + 2];
    }
  }

  lemma {:induction false} NoContinuationUnchanged(s: string)
    requires !HasContinuation(s)
    ensures SkipContinuations(s) == s
    decreases |s|
  {
    if |s| > 0 {
      NoContinuationTail(s);
      NoContinuationUnchanged(s[1..]);
    }
  }

  /** Continuation removal leaves a literal unchanged exactly when it holds no
      backslash-newline. */
  lemma SkipContinuationsUnchangedIff(s: string)
    ensures SkipContinuations(s) == s <==> !HasContinuation(s)
  {
    if HasContinuation(s) {
      ContinuationShortens(s);
    } else {
      NoContinuationUnchanged(s);
    }
  }

  /** The line ends the continuation pattern accepts. */
  predicate IsLineEnd(nl: string) {
    nl == "\n" || nl == "\r" || nl == "\r\n"
  }

  predicate AllBlank(w: string) {
    forall i :: 0 <= i < |w| ==> IsBlankChar(w[i])
  }

  lemma {:induction false} DropBlanksPrefix(w: string, b: string)
    requires AllBlank(w) && (b == [] || !IsBlankChar(b[0]))
    ensures DropBlanks(w + b) == b
    decreases |w|
  {
    if w == [] {
      assert w + b == b;
    } else {
      assert (w + b)[1..] == w[1..] + b;
      DropBlanksPrefix(w[1..], b);
    }
  }

  /** One step of continuation removal where no continuation starts. */
  lemma SkipKeeps(s: string)
    requires |s| > 0 && !(s[0] == '\\' && |s| >= 2 && IsNewline(s[1]))
    ensures SkipContinuations(s) == [s[0]] + SkipContinuations(s[1..])
  {
  }

  /** One step of continuation removal where a continuation starts. */
  lemma SkipDrops(s: string, n: nat)
    requires |s| >= 2 && s[0] == '\\' && IsNewline(s[1])
    requires n == if s[1] == '\r' && |s| >= 3 && s[2] == '\n' then 3 else 2
    ensures SkipContinuations(s) == SkipContinuations(DropBlanks(s[n..]))
  {
  }

  /** One step of continuation removal on a character put in front of a text. */
  lemma SkipKeepsCons(c: char, u: string)
    requires !(c == '\\' && |u| >= 1 && IsNewline(u[0]))
    ensures SkipContinuations([c] + u) == [c] + SkipContinuations(u)
  {
    var s := [c] + u;
    assert s[0] == c && s[1..] == u;
    if |u| >= 1 {
      assert s[1] == u[0];
    }
    SkipKeeps(s);
  }

  /** Text free of continuations is kept as it is in front of whatever follows,
      as long as what follows does not start with a newline. */
  lemma {:induction false} SkipContinuationsClean(a: string, t: string)
    requires !HasContinuation(a) && (t == [] || !IsNewline(t[0]))
    ensures SkipContinuations(a + t) == a + SkipContinuations(t)
    decreases |a|
  {
    if a == [] {
      assert a + t == t;
    } else {
      var u := a[1..] + t;
      assert !(a[0] == '\\' && |u| >= 1 && IsNewline(u[0])) by {
        if |a| >= 2 {
          assert u[0] == a[1];
          assert !(a[0] == '\\' && IsNewline(a[1]));
        } else if |t| >= 1 {
          assert u[0] == t[0];
        }
      }
      assert SkipContinuations([a[0]] + u) == [a[0]] + SkipContinuations(u) by {
        SkipKeepsCons(a[0], u);
      }
      assert SkipContinuations(u) == a[1..] + SkipContinuations(t) by {
        NoContinuationTail(a);
        SkipContinuationsClean(a[1..], t);
      }
      ConcatAssoc([a[0]], a[1..], t);
      ConcatAssoc([a[0]], a[1..], SkipContinuations(t));
      assert [a[0]] + a[1..] == a;
    }
  }

  /** A single continuation: the backslash, the line end and the spaces and tabs
      after it are removed, and nothing else. */
  lemma ContinuationAt(nl: string, w: string, b: string)
    requires IsLineEnd(nl) && AllBlank(w) && (b == [] || !IsBlankChar(b[0]))
    requires nl == "\r" && w == [] && b != [] ==> b[0] != '\n'
    ensures SkipContinuations("\\" + nl + w + b) == SkipContinuations(b)
  {
    var t := w + b;
    var s := "\\" + nl + t;
    assert "\\" + nl + w + b == s;
    var n := |nl| + 1;
    assert s[n..] == t;
    assert s[0] == '\\' && s[1] == nl[0];
    if nl == "\r" && |s| >= 3 {
      assert s[2] == t[0];
      if w != [] {
        assert t[0] == w[0];
      } else {
        assert t[0] == b[0];
      }
    }
    if nl == "\r\n" {
      assert s[2] == '\n';
    }
    SkipDrops(s, n);
    DropBlanksPrefix(w, b);
  }

  /** What continuation removal deletes: a backslash, one line end and the
      spaces and tabs after it; the text before is kept. */
  lemma ContinuationRemoved(a: string, nl: string, w: string, b: string)
    requires !HasContinuation(a) && IsLineEnd(nl) && AllBlank(w)
    requires b == [] || !IsBlankChar(b[0])
    requires nl == "\r" && w == [] && b != [] ==> b[0] != '\n'
    ensures SkipContinuations(a + "\\" + nl + w + b) == a + SkipContinuations(b)
  {
    var t := "\\" + nl + w + b;
    assert a + "\\" + nl + w + b == a + t;
    SkipContinuationsClean(a, t);
    ContinuationAt(nl, w, b);
  }

  /** `s.replace('\\', '\\\\').replace('"', '\\"')` */
  function EscapeBody(s: string): string {
    ReplaceAll(ReplaceAll(s, "\\", "\\\\"), "\"", "\\\"")
  }

  /** The same escaping, one character at a time. */
  function EscapeChars(s: string): string
    decreases |s|
  {
    if s == [] then []
    else (if s[0] == '\\' then "\\\\" else if s[0] == '"' then "\\\"" else [s[0]]) + EscapeChars(s[1..])
  }

  /** Replacing a one-character pattern: the first character is replaced or kept. */
  lemma ReplaceSingleHead(s: string, pat: string, rep: string)
    requires |pat| == 1 && |s| > 0
    ensures ReplaceAll(s, pat, rep) == (if s[0] == pat[0] then rep else [s[0]]) + ReplaceAll(s[1..], pat, rep)
  {
    if s[0] == pat[0] {
      assert s[..1] == pat;
    } else {
      assert s[..1] != pat;
    }
  }

  /** Every occurrence of the character `c` replaced by `rep`, one character at a time. */
  function ReplaceChar(s: string, c: char, rep: string): string
    decreases |s|
  {
    if s == [] then [] else (if s[0] == c then rep else [s[0]]) + ReplaceChar(s[1..], c, rep)
  }

  /** With a one-character pattern, `str.replace` works character by character. */
  lemma {:induction false} ReplaceAllSingle(s: string, c: char, rep: string)
    ensures ReplaceAll(s, [c], rep) == ReplaceChar(s, c, rep)
    decreases |s|
  {
    if s != [] {
      ReplaceSingleHead(s, [c], rep);
      ReplaceAllSingle(s[1..], c, rep);
    }
  }

  lemma {:induction false} ReplaceCharConcat(a: string, b: string, c: char, rep: string)
    ensures ReplaceChar(a + b, c, rep) == ReplaceChar(a, c, rep) + ReplaceChar(b, c, rep)
    decreases |a|
  {
    if a == [] {
      assert a + b == b;
    } else {
      var h := if a[0] == c then rep else [a[0]];
      var x, y := ReplaceChar(a[1..], c, rep), ReplaceChar(b, c, rep);
      assert (a + b)[1..] == a[1..] + b;
      ReplaceCharConcat(a[1..], b, c, rep);
      assert h + (x + y) == (h + x) + y;
    }
  }

  /** Escaping the backslashes, then the quotes, character by character. */
  lemma {:induction false} EscapeInTwoPasses(s: string)
    ensures ReplaceChar(ReplaceChar(s, '\\', "\\\\"), '"', "\\\"") == EscapeChars(s)
    decreases |s|
  {
    if s != [] {
      var h := if s[0] == '\\' then "\\\\" else [s[0]];
      var rest := ReplaceChar(s[1..], '\\', "\\\\");
      ReplaceCharConcat(h, rest, '"', "\\\"");
      EscapeInTwoPasses(s[1..]);
      if s[0] == '\\' {
        assert ReplaceChar(h, '"', "\\\"") == h by {
          assert ReplaceChar(h[1..], '"', "\\\"") == h[1..];
        }
      } else {
        assert ReplaceChar(h, '"', "\\\"") == (if s[0] == '"' then "\\\"" else [s[0]]) by {
          assert ReplaceChar(h[1..], '"', "\\\"") == [];
        }
      }
    }
  }

  /** The two successive `replace` calls amount to escaping each backslash and each
      double quote on its own: the second call never sees a quote the first made. */
  lemma EscapeBodyIsCharwise(s: string)
    ensures EscapeBody(s) == EscapeChars(s)
  {
    ReplaceAllSingle(s, '\\', "\\\\");
    ReplaceAllSingle(ReplaceChar(s, '\\', "\\\\"), '"', "\\\"");
    EscapeInTwoPasses(s);
  }

  /** The body of a Python string literal in which a backslash only ever appears
      as `\\` or `\"` and no double quote stands unescaped, so the literal ends
      exactly at the closing `"""`. */
  predicate WellQuoted(b: string)
    decreases |b|
  {
    || b == []
    || (b[0] == '\\' && |b| >= 2 && (b[1] == '\\' || b[1] == '"') && WellQuoted(b[2..]))
    || (b[0] != '\\' && b[0] != '"' && WellQuoted(b[1..]))
  }

  /** The string value Python reads from a well-quoted literal body. */
  function Unquote(b: string): string
    requires WellQuoted(b)
    decreases |b|
  {
    if b == [] then []
    else if b[0] == '\\' then [b[1]] + Unquote(b[2..])
    else [b[0]] + Unquote(b[1..])
  }

  /** Escaping round-trips: the emitted literal is well quoted and reads back as
      the text that was escaped. */
  lemma {:induction false} UnquoteEscapeChars(s: string)
    ensures WellQuoted(EscapeChars(s)) && Unquote(EscapeChars(s)) == s
    decreases |s|
  {
    if s != [] {
      UnquoteEscapeChars(s[1..]);
      var rest := EscapeChars(s[1..]);
      var e := EscapeChars(s);
      if s[0] == '\\' || s[0] == '"' {
        assert e[2..] == rest;
      } else {
        assert e[1..] == rest;
      }
      assert [s[0]] + s[1..] == s;
    }
  }

  /** What the generated `write` call of a non-empty literal part is given. */
  function LiteralBody(part: string): (b: string)
    ensures WellQuoted(b) && Unquote(b) == SkipContinuations(part)
  {
    EscapeBodyIsCharwise(SkipContinuations(part));
    UnquoteEscapeChars(SkipContinuations(part));
    EscapeBody(SkipContinuations(part))
  }

  const WriteOpen := "write(\"\"\""
  const WriteClose := "\"\"\")"

  /** The token a literal part contributes (lines 96-100): nothing for an empty
      part, otherwise `offset` tabs and a `write` of the escaped text. */
  function LiteralToken(part: string, offset: nat): Option<string> {
    if part == [] then None else Some(Tabs(offset) + WriteOpen + LiteralBody(part) + WriteClose)
  }

  /** A literal part yields a token exactly when it is not empty, and the token is
      `offset` tabs and a `write` of a well-quoted literal whose value is the part
      with its continuations removed. */
  lemma LiteralTokenShape(part: string, offset: nat)
    ensures var r := LiteralToken(part, offset);
      && (r.None? <==> part == [])
      && (r.Some? ==>
        var t := r.value;
        && |t| >= offset + |WriteOpen| + |WriteClose|
        && var b := t[offset + |WriteOpen|..|t| - |WriteClose|];
        && t == Tabs(offset) + WriteOpen + b + WriteClose
        && WellQuoted(b) && Unquote(b) == SkipContinuations(part))
  {
    if part != [] {
      var b := LiteralBody(part);
      var t := Tabs(offset) + WriteOpen + b + WriteClose;
      assert t[offset + |WriteOpen|..|t| - |WriteClose|] == b;
    }
  }
}
