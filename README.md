# templite: the template compiler and its code cache

Templite turns a template into Python source. A template is text with
directives between two delimiters, `{%` and `%}` by default. `Templite._compile`
does the following:

- It cuts the template into alternating literal and code parts.
- It restores escaped delimiters. An escaped delimiter is written with a
  backslash between its two characters, as in `{\%`.
- Each non-empty literal part becomes a `write("""...""")` line.
  Line continuations are removed from it first, and backslashes and double
  quotes are escaped.
- Each code part is handled as follows:
  - a blank part is dropped;
  - a leading `:` closes the current block;
  - a bare name or a string literal is wrapped in `write(...)`;
  - what remains is re-indented to the current block depth with tabs;
  - a trailing `:` opens a block.
- The lines, after an encoding header, are joined by newlines.

`Templite.__init__` does the rest:

- It identifies the template by the absolute path of its file or by the hash
  of its text.
- It checks that both delimiters are two characters long.
- When caching is on and the entry is current, it takes the generated code
  from the class-wide cache. Otherwise it compiles the code and, when caching
  is on, stores it.

The template language has one delimiter pair per template, and no comment
directive or trim marker. A delimiter is escaped by a backslash between its two
characters. Expression output comes only from the `autowrite` rule.

The model is in seven modules:

| file | module | contents |
|---|---|---|
| `wrappers.dfy` | `Wrappers` | `Option` and `Result` |
| `text.dfy` | `Text` | Python's `isspace`, `strip`, `str.replace`, `join`, `find`, `str(n)` |
| `scanner.dfy` | `Scanner` | the delimiter split (`re.split` with the lazy pattern) and the unescaping of delimiters |
| `literal.dfy` | `Literal` | continuation removal, escaping, and the `write("""...""")` token |
| `code.dfy` | `Code` | `splitlines`, the margin and re-indentation, the `autowrite` pattern, and the directive kinds |
| `compiler.dfy` | `Compiler` | one loop step, the whole compilation as a function and as the loop method `Compile`, and the theorems about block nesting |
| `templite.dfy` | `Templite` | `__init__` as the function `LoadSpec` and as the method `Load` over the class `CodeCache`, and the cache theorems |

`_compile` is a loop that updates `offset` and `tokens`. It is modelled by the
method `Compiler.Compile`, which keeps the loop, its `continue`s and its
`raise`s. `Compile` is proved equal to `Compiler.CompileSpec`, a recursive
function over the parts. The per-part string transforms are pure functions,
as they are in the source.
Inside the loop, a code part is handled by calling the functions
`Compiler.CodeStep` (lines 102-116) and `Compiler.Emit` (lines 117-121), the
same functions the properties are stated about.

The cache is a dictionary that `__init__` mutates. It is modelled by the class
`Templite.CodeCache`, whose `entries` map `Templite.Load` reassigns. `Load` is
proved equal to the function `Templite.LoadSpec`. When both a text and a file name
are given, `__init__` keys the template by the file but compiles the text
(line 78), and `LoadSpec` does the same.

## Model

| member | source | states |
|---|---|---|
| Text.RStrip | templite/__init__.py:103 | `rstrip` keeps a prefix that is empty or ends in a non-whitespace character, and it removes only whitespace |
| Text.LStrip | templite/__init__.py:106 | `lstrip` keeps a suffix that is empty or starts with a non-whitespace character, and it removes only whitespace |
| Text.LeadingSpace | templite/__init__.py:118 | `len(l) - len(l.lstrip())` counts the leading whitespace characters; it stops at the first non-whitespace character and equals the length exactly when the line is blank |
| Text.Find | templite/__init__.py:89 | the first occurrence of a pattern at or after a position, with no occurrence before it; none when there is no occurrence |
| Text.ReplaceAllAbsent | templite/__init__.py:93-94 | `str.replace` leaves a text without the pattern unchanged |
| Text.ParseNatToString | templite/__init__.py:124 | the count in the "not terminated" message reads back as the number of open blocks |
| Compiler.CompileMessage | templite/__init__.py:109-110 | the "no block statement to terminate" message ends with the whole directive, delimiters included; the "block statement(s) not terminated" message is the open count in decimal digits followed by the rest of the message |
| Scanner.NextDirective | templite/__init__.py:89 | the leftmost match of `start(.*?)end`: no start delimiter begins before `p`, and no end delimiter begins between `p + 2` and `q`; there is no match exactly when no start delimiter is followed by an end delimiter |
| Scanner.Split | templite/__init__.py:92 | the split yields an odd number of parts, with literal parts at even indices |
| Scanner.SplitRoundTrip | templite/__init__.py:89-92 | joining the parts back as `lit0 + start + code1 + end + lit2 + ...` gives the source |
| Scanner.SplitShape | templite/__init__.py:89-92 | the end delimiter after each code part is the first one to begin inside the part or right after it, even for a delimiter like `}}` that overlaps itself; the same holds for the start delimiter after each literal part but the last; the last literal holds no complete directive |
| Scanner.SplitUnique | templite/__init__.py:89-92 | these conditions pin the split down: any parts meeting them, joined with the delimiters, split back into exactly those parts |
| Scanner.ReplaceEscapedPieces | templite/__init__.py:93-94 | for a plain delimiter (two different characters, neither a backslash), when the pieces hold no escaped form, replacing the escaped form turns exactly the escaped delimiters back into delimiters |
| Scanner.EscapedTextHasNoDelimiter | templite/__init__.py:93-94 | for a plain delimiter (two different characters, neither a backslash), text whose delimiters (start or end) are all escaped contains no such delimiter, so the scanner does not see them |
| Scanner.EscapedEndStaysInCode | templite/__init__.py:89-94 | for a plain end delimiter, an escaped end delimiter inside a directive does not close it: the code part runs on to the real end delimiter, and unescaping gives the code its end delimiters back |
| Scanner.SplitPartsFree | templite/__init__.py:89-92 | no code part contains the end delimiter, and no literal part before the last contains the start delimiter |
| Scanner.EscapedRepeatedDelimiterShows | templite/__init__.py:93-94 | for a delimiter with two equal characters such as `}}`, the text `a}\}}b` (pieces `a` and `}b` joined by the escaped form) holds the delimiter itself |
| Scanner.EscapedRepeatedDelimiterSplits | templite/__init__.py:92-94 | with the pair `{{`, `}}`, the template `{{x}\}}}` splits into `""`, `x}\` and `}`: the escaped end delimiter does not stay in the code, because the split comes before unescaping |
| Scanner.Unescape | templite/__init__.py:93-94 | escaped start delimiters, then escaped end delimiters, are replaced by the delimiters; what this restores is stated by `ReplaceEscapedPieces`, `Compiler.UnescapeEscapedStart` and `EscapedEndStaysInCode` |
| Text.ReplaceAll | templite/__init__.py:93-94 | `str.replace`, left to right and without overlap; its properties are stated by `ReplaceAllAbsent`, `Scanner.ReplaceEscapedPieces` and `Literal.ReplaceAllSingle` |
| Literal.SkipContinuations | templite/__init__.py:90 | continuation removal never lengthens the text |
| Literal.ContinuationRemoved | templite/__init__.py:98 | continuation removal deletes a backslash, one line end (`\n`, `\r` or `\r\n`) and the spaces and tabs after it, and keeps the text before it as it is |
| Literal.SkipContinuationsUnchangedIff | templite/__init__.py:98 | continuation removal changes a literal exactly when the literal contains a backslash-newline |
| Literal.ContinuationShortens | templite/__init__.py:98 | a literal with a backslash-newline gets strictly shorter |
| Literal.NoContinuationUnchanged | templite/__init__.py:98 | a literal without a backslash-newline is left as it is |
| Literal.ReplaceAllSingle | templite/__init__.py:99 | `replace` with a one-character pattern acts character by character |
| Literal.EscapeBodyIsCharwise | templite/__init__.py:99 | the two `replace` calls escape each backslash and each double quote separately; the second call never sees a quote the first one made |
| Literal.UnquoteEscapeChars | templite/__init__.py:99-100 | escaping round-trips: the escaped text is a well-quoted literal body, and decoding its two escapes (`\\` and `\"`) gives back the text |
| Literal.LiteralBody | templite/__init__.py:98-100 | the text placed inside `"""..."""` is well quoted, and decoding its escapes gives the part with its continuations removed |
| Literal.LiteralTokenShape | templite/__init__.py:95-100 | an empty literal part emits no token; any other part emits `offset` tabs and a `write` of a well-quoted literal whose decoded value is the part without continuations |
| Literal.EscapeBody | templite/__init__.py:99 | the two `replace` calls; `EscapeBodyIsCharwise` and `UnquoteEscapeChars` state what they do |
| Literal.LiteralToken | templite/__init__.py:95-100 | the token of a literal part; `LiteralTokenShape` states its form |
| Code.FirstBreak | templite/__init__.py:117 | the first line boundary: no boundary before it |
| Code.SplitLinesRoundTrip | templite/__init__.py:117 | `splitlines` loses nothing: each line followed by the boundary it ended at, in order, gives the text back |
| Code.LineEndsAreBoundaries | templite/__init__.py:117 | every line but the last ends at one boundary (`\r\n` counted as one, or a single boundary character); the last ends at a boundary or at the end of the text; there are lines exactly when the text is not empty |
| Code.NoEmptyLastLine | templite/__init__.py:117 | a final boundary does not start an empty last line |
| Code.LineEndsCrLf | templite/__init__.py:117 | a lone `\r` boundary is never followed by an empty line ending at `\n`: `\r\n` is one boundary |
| Code.SplitLinesNoBreaks | templite/__init__.py:117 | no line produced by `splitlines` contains a line-boundary character |
| Code.LastLine | templite/__init__.py:117-118 | code ending in a non-whitespace character has a last line, and that line ends in the same character, so `min` has a non-blank line to take |
| Code.MinIndentFacts | templite/__init__.py:118 | there is no minimum exactly when every line is blank; otherwise the minimum is at most the indentation of every non-blank line and equals that of one of them |
| Code.MarginIsLeast | templite/__init__.py:118 | the margin is the least indentation among the non-blank lines of the code |
| Code.ReindentLineFacts | templite/__init__.py:119 | a re-indented line starts with `offset` tabs, keeps its text after the indentation and its blankness, and loses exactly `margin` leading whitespace characters |
| Code.ReindentLinesEach | templite/__init__.py:117-119 | line `i` of the output is line `i` of the code with the margin removed and `offset` tabs added |
| Code.ReindentLinesShape | templite/__init__.py:117-119 | exact indentation: the relative indentation between non-blank lines is kept, and some non-blank line is left at exactly `offset` |
| Code.ReindentEnds | templite/__init__.py:119-120 | the re-indented code ends in the code's last character, so it ends with `:` exactly when the code does |
| Code.ReindentIndent | templite/__init__.py:119 | the re-indented code starts with `offset` tabs |
| Code.SplitLines | templite/__init__.py:117 | `str.splitlines`; `SplitLinesRoundTrip`, `LineEndsAreBoundaries`, `NoEmptyLastLine`, `LineEndsCrLf`, `SplitLinesNoBreaks` and `LastLine` state its properties |
| Code.MinIndent | templite/__init__.py:118 | `min` over the non-blank lines, `None` for Python's `ValueError` on an empty sequence; `MinIndentFacts` states its properties |
| Code.Margin | templite/__init__.py:118 | the margin of code that has a non-blank line; `MarginIsLeast` states it |
| Code.ReindentLine | templite/__init__.py:119 | one line with the margin cut and `offset` tabs added; `ReindentLineFacts` states its properties |
| Code.Reindent | templite/__init__.py:117-119 | the re-indented code; `ReindentLinesEach`, `ReindentLinesShape`, `ReindentEnds` and `ReindentIndent` state its properties |
| Code.OpensStringLiteral | templite/__init__.py:43 | the first alternative of `autowrite`; `OpensStringLiteralMatchesList` states it |
| Code.Autowrite | templite/__init__.py:43 | `autowrite.match`: an optional string prefix and a quote at the start, or a part made only of letters, digits, `_`, brackets and quotes, where `$` also allows one final newline |
| Code.Classify | templite/__init__.py:102-121 | the kind of a code part; `Compiler.CodeStepEffect` and `Compiler.CodeStepWrites` state how each kind is handled |
| Code.Delta | templite/__init__.py:107-121 | the depth change of each kind; `Compiler.NestNet` and `Compiler.CompileOutcome` state its effect |
| Code.OpensStringLiteralMatchesList | templite/__init__.py:42-43 | the quantifier-free string-prefix test accepts exactly the texts that start with a listed prefix, or none, followed by a quote |
| Compiler.CodeStep | templite/__init__.py:102-116 | code handed on for re-indentation ends in a non-whitespace character, so it has a non-blank line |
| Compiler.CodeStepEffect | templite/__init__.py:102-116 | a code part fails exactly when it closes a block at depth 0, and then it reports the whole directive; a blank part or a plain close writes nothing; a close is written one level out; the new depth is the old one moved by the directive's `Delta`; an autowritten part never opens a block |
| Compiler.CodeStepWrites | templite/__init__.py:103-116 | what is written: an autowritten part as `write(` + its stripped text + `)` at the same depth, a statement as its right-stripped text, and a reopening close as the text after its colon, one level out |
| Compiler.Emit | templite/__init__.py:117-121 | the re-indented token and the new depth; `EmitShape` states them |
| Compiler.EmitShape | templite/__init__.py:117-121 | the emitted token starts with the tabs of its depth, and the depth grows by one exactly when the code ends in `:` |
| Compiler.ProcessPartEffect | templite/__init__.py:92-122 | a literal part never fails and never changes the depth, and it appends its `write` line exactly when it is not empty; a code part fails exactly when it closes a block at depth 0, and otherwise moves the depth by its `Delta`; it appends nothing when `CodeStep` skips it, and exactly its code re-indented by `Emit` when `CodeStep` writes it |
| Compiler.ProcessPart | templite/__init__.py:92-122 | one pass of the loop body; `ProcessPartEffect` states its depth, its errors and the token it appends, and `StepNest` ties its depth to the nesting |
| Compiler.RunFrom | templite/__init__.py:92-122 | the loop from part `i` on; `RunFromNest` states its outcome |
| Compiler.CompileSpec | templite/__init__.py:85-126 | the whole of `_compile`; `CompileOutcome` states its outcome and `Compile` computes it |
| Compiler.StepNest | templite/__init__.py:92-122 | one part moves the loop state as its directive moves the nesting depth |
| Compiler.RunFromNest | templite/__init__.py:92-122 | the loop fails exactly when a close finds no open block, and only with that error; otherwise it ends at the depth the nesting reaches; tokens are only appended |
| Compiler.NestNet | templite/__init__.py:107-111 | nesting succeeds exactly when every close finds a positive running depth, and it ends at the start depth plus the net change |
| Compiler.DepthNeverNegative | templite/__init__.py:107-111 | when every close finds an open block, the running block depth is never negative |
| Compiler.PartTokens | templite/__init__.py:95-121 | the tokens one part writes at a given depth; `PartTokensShape` states them |
| Compiler.PartTokensShape | templite/__init__.py:95-121 | a part writes at most one token: a literal exactly when it is not empty, a directive exactly when it is an expression, a statement, or a close that reopens a block at a positive depth; the token is indented by the depth before the part, one level less for a close |
| Compiler.TokensFrom | templite/__init__.py:92-122 | the tokens of the parts in order, each at the depth the nesting of the directives before it reaches |
| Compiler.RunFromTokens | templite/__init__.py:92-122 | a successful run appends exactly `TokensFrom` of its parts |
| Compiler.CompileTokens | templite/__init__.py:85-126 | successful output is the encoding header followed, one per line, by the tokens of the parts in source order, each indented by the depth the nesting reaches before it |
| Compiler.CompileOutcome | templite/__init__.py:85-126 | "no block statement to terminate" exactly when some close finds no open block; "block statement(s) not terminated", with the open count, exactly when the closes match but blocks remain open; success exactly when the directives are well nested, and the output then starts with the encoding header |
| Compiler.LiteralOnlyTemplate | templite/__init__.py:87-100 | a template without a start delimiter compiles to the header alone when its unescaped text is empty, and otherwise to the header and one `write` whose decoded value is that text without continuations |
| Compiler.UnescapeEscapedStart | templite/__init__.py:93-94 | for a plain start delimiter, in a template whose start delimiters are all escaped there is no start delimiter, and unescaping gives the pieces joined by the real start delimiter, with the escaped end delimiters the pieces hold restored |
| Compiler.EscapedStartStaysLiteral | templite/__init__.py:89-100 | for a plain start delimiter, such a template compiles to a single `write` whose decoded value is that unescaped text without continuations: escaped start delimiters are never evaluated |
| Compiler.EscapedStartKeepsText | templite/__init__.py:89-100 | for a plain start delimiter, when the pieces add no escaped end delimiter and no continuation, that `write` writes exactly the pieces joined by the start delimiter |
| Compiler.Compile | templite/__init__.py:85-126 | the `for` loop over the parts, with its `continue` and `raise` exits, computes `CompileSpec` |
| Templite.FindOrigin | templite/__init__.py:52-59 | the key, modification time and file of a template; `LoadNeedsSource` and `CacheIgnoresDelimiters` state its use |
| Templite.ChooseDelimiters | templite/__init__.py:65-69 | the delimiter check; `LoadChecksDelimiters` states it |
| Templite.LoadSpec | templite/__init__.py:47-83 | `__init__` as a function of the cache; the `Load` lemmas below state its outcomes |
| Templite.LoadNeedsSource | templite/__init__.py:52-59 | without a text and without a non-empty file name, loading fails and the cache is untouched |
| Templite.LoadChecksDelimiters | templite/__init__.py:65-69 | given delimiters are rejected exactly when one of them is not two characters long; the cache is then untouched; otherwise the template uses them |
| Templite.LoadHit | templite/__init__.py:72-75 | with caching on, an entry under the key with the same modification time is reused as it is, and the cache is untouched |
| Templite.LoadMiss | templite/__init__.py:77-83 | otherwise the source is compiled; an error leaves the cache as it was; a success returns the generated code and, with caching on, stores it with the modification time under the key, changing no other entry |
| Templite.LoadTwice | templite/__init__.py:72-83 | a second identical load with caching on returns the same template from the cache and leaves the cache unchanged |
| Templite.CacheIgnoresDelimiters | templite/__init__.py:52-75 | the key of a text is its hash alone: a cached text loaded again with other delimiters or another encoding gets the code compiled for the first ones |
| Templite.LoadKeepsCacheSound | templite/__init__.py:72-83 | every cache entry, and every template returned, holds code that some compilation produced |
| Templite.CodeCache.constructor | templite/__init__.py:45 | the cache starts empty |
| Templite.Load | templite/__init__.py:47-83 | the imperative `__init__` returns the template or error of `LoadSpec` and leaves the cache as `LoadSpec` says |

## Left out

- Python's `compile()` of the generated code (line 129). It is a call into the interpreter. The model ends at the generated code string, and a template holds that string where the source holds the code object.
- `render` and everything it injects: the namespace, `write`, `relpath`, `abspath`, `cwd`, `include` and the callable bindings (lines 131-176). These run arbitrary host code and do file I/O.
- Printing the generated code to the `generated_code` stream (lines 127-128), and the `generated_code` attribute. This is output only.
- File and OS access. `os.path.abspath`, `os.path.getmtime`, reading the template file and `hash(text)` are the fields of the `Host` parameter of `Load`. Encoding errors while reading are not modelled.
- A missing file: `getmtime` raises `OSError` before anything else happens. Only the `ValueError` and `SyntaxError` paths are modelled.
- The command line interface (lines 179-233), `templite/__main__.py`, `templite/tests.py` and `setup.py`. These are glue and packaging.
- The cache is one object passed to `Load`; it stands for the single class attribute `Templite.cache`. Concurrent access is not modelled.
- Delimiters given as something other than a pair of strings. The model takes `Option<(string, string)>`; `None` stands for any falsy value.
- Templite.LoadKeepsCacheSound: the invariant says that a cached code string came from some compilation, not from the compilation of the key's current source. The model keeps no history of sources, and the key is an opaque hash or path.
- Delimiters that are not plain: two equal characters (`{{`, `}}`, `%%`) or a backslash. `__init__` accepts them (lines 65-69), but the escape is not reliable for them, as `Scanner.EscapedRepeatedDelimiterShows` and `Scanner.EscapedRepeatedDelimiterSplits` show. The escape lemmas are stated for plain delimiters only.
- How Python reads the `write("""...""")` literal. The model decodes only the two escapes the compiler writes (`\\` and `\"`). Python also turns `\r\n` and `\r` inside the literal into `\n`, and `compile()` rejects a NUL character; neither is modelled.
- Templite.LoadMiss: when `compile()` rejects the generated code (line 129), `__init__` raises before the cache is written. The model has no `compile()`, so its `Load` succeeds and caches that code.
