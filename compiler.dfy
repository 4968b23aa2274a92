/** `Templite._compile` (lines 85-126): the parts of the source are turned, in
    order, into lines of generated Python while one block-depth counter,
    `offset`, tracks the open blocks. The model ends at the generated code
    string, before Python's `compile`. */
module Compiler {
  import opened Wrappers
  import opened Text
  import opened Scanner
  import opened Literal
  import opened Code

  /** The two `SyntaxError`s `_compile` raises. */
  datatype CompileError =
    | NoBlockToTerminate(directive: string)   // a `:` directive at depth 0 (line 109)
    | BlocksNotTerminated(count: nat)         // blocks left open at the end (line 124)

  /** The exception text Python shows for each error. */
  function CompileMessage(e: CompileError): (msg: string)
    ensures e.NoBlockToTerminate? ==>
      |msg| >= |e.directive| && msg[|msg| - |e.directive|..] == e.directive
    ensures e.BlocksNotTerminated? ==>
      exists n :: 0 < n < |msg|
        && (forall i :: 0 <= i < n ==> '0' <= msg[i] <= '9')
        && ParseDecimal(msg[..n]) == e.count
        && msg[n..] == " block statement(s) not terminated"
  {
    match e
    case NoBlockToTerminate(directive) =>
      var msg := "no block statement to terminate: " + directive;
      assert msg[|msg| - |directive|..] == directive;
      msg
    case BlocksNotTerminated(count) =>
      var digits := NatToString(count);
      var msg := digits + " block statement(s) not terminated";
      ParseNatToString(count);
      assert msg[..|digits|] == digits;
      assert msg[|digits|..] == " block statement(s) not terminated";
      msg
  }

  /** The first token: the encoding declaration (line 87). */
  function Header(encoding: string): string {
    "# -*- coding: " + encoding + " -*-"
  }

  /** A code text the re-indentation can take: it ends in a non-whitespace
      character, so it has a non-blank line. */
  predicate Emittable(code: string) {
    |code| > 0 && !IsSpace(code[|code| - 1])
  }

  /** What a code part asks for: nothing written and a new depth (the `continue`
      paths), or a code text to re-indent at a depth (the fall-through to line 117). */
  datatype Action = Skip(depth: nat) | Write(code: string, depth: nat)

  /** Lines 102-116 for one (unescaped) code part at depth `offset`. */
  function CodeStep(part: string, offset: nat, d: Delimiters): (r: Result<Action, CompileError>)
    ensures r.Ok? && r.value.Write? ==> Emittable(r.value.code)
  {
    var code := RStrip(part);
    if code == [] then Ok(Skip(offset))
    else
      var stripped := LStrip(code);
      if stripped[0] == ':' then
        if offset == 0 then Err(NoBlockToTerminate(d.start + part + d.end))
        else
          var rest := stripped[1..];
          if !EndsWithColon(rest) then Ok(Skip(offset - 1))
          else Ok(Write(rest, offset - 1))
      else if Autowrite(stripped) then
        var w := "write(" + stripped + ")";
        assert w[|w| - 1] == ')';
        Ok(Write(w, offset))
      else Ok(Write(code, offset))
  }

  /** The effect of a code part is decided by its directive kind: a closing
      directive at depth 0 is the only error, and it reports the whole directive;
      a blank part or a plain close writes nothing; a close that reopens is
      written one level out; and the depth after the part is the old depth moved
      by the directive's `Delta`, counting the block a written text ending in `:`
      opens. */
  lemma CodeStepEffect(part: string, offset: nat, d: Delimiters)
    ensures var r := CodeStep(part, offset, d); var dir := Classify(part);
      && (r.Err? <==> dir.Close? && offset == 0)
      && (r.Err? ==> r.error == NoBlockToTerminate(d.start + part + d.end))
      && (r.Ok? ==> (r.value.Skip? <==> dir == Blank || dir == Close(false)))
      && (r.Ok? && r.value.Skip? ==> r.value.depth as int == offset + Delta(dir))
      && (r.Ok? && r.value.Write? ==>
            && r.value.depth == (if dir.Close? then offset - 1 else offset)
            && r.value.depth + (if EndsWithColon(r.value.code) then 1 else 0) == offset + Delta(dir))
  {
    var code := RStrip(part);
    if code != [] {
      var stripped := LStrip(code);
      if stripped[0] != ':' && Autowrite(stripped) {
        var w := "write(" + stripped + ")";
        assert !EndsWithColon(w) by {
          assert w[|w| - 1] == ')';
        }
      }
    }
  }

  /** What a code part writes: an autowritten part as `write(...)` around its
      stripped text, a statement as its right-stripped text, and a reopening close
      as the text after its colon, one level out. */
  lemma CodeStepWrites(part: string, offset: nat, d: Delimiters)
    ensures var r := CodeStep(part, offset, d); var dir := Classify(part);
      && (dir == Expr ==> r == Ok(Write("write(" + LStrip(RStrip(part)) + ")", offset)))
      && (dir.Stmt? ==> r == Ok(Write(RStrip(part), offset)))
      && (dir == Close(true) && offset > 0 ==>
            |LStrip(RStrip(part))| > 0 && r == Ok(Write(LStrip(RStrip(part))[1..], offset - 1)))
  {
    var code := RStrip(part);
    if code != [] {
      var stripped := LStrip(code);
      if stripped[0] == ':' {
        var rest := stripped[1..];
        assert Classify(part) == Close(EndsWithColon(rest));
        if offset > 0 {
          assert CodeStep(part, offset, d) == if EndsWithColon(rest) then Ok(Write(rest, offset - 1)) else Ok(Skip(offset - 1));
        }
      } else if Autowrite(stripped) {
        assert Classify(part) == Expr;
        assert CodeStep(part, offset, d) == Ok(Write("write(" + stripped + ")", offset));
      } else {
        assert Classify(part) == Stmt(EndsWithColon(code));
        assert CodeStep(part, offset, d) == Ok(Write(code, offset));
      }
    }
  }

  /** What re-indenting a code text yields: a token and the depth after it. */
  datatype Emission = Emission(token: string, offset: nat)

  /** Lines 117-121: re-indent the code at `offset`, open a block if it ends in `:`. */
  function Emit(code: string, offset: nat): Emission
    requires Emittable(code)
  {
    var t := Reindent(code, offset);
    Emission(t, if EndsWithColon(t) then offset + 1 else offset)
  }

  /** The emitted token starts with the tabs of its depth, and it opens a block
      exactly when the code text ends in `:`. */
  lemma EmitShape(code: string, offset: nat)
    requires Emittable(code)
    ensures var e := Emit(code, offset);
      && |e.token| >= offset && e.token[..offset] == Tabs(offset)
      && e.offset == (if EndsWithColon(code) then offset + 1 else offset)
  {
    ReindentIndent(code, offset);
    ReindentEnds(code, offset);
  }

  /** The loop state of `_compile`: the depth `offset` and the `tokens` list. */
  datatype State = State(offset: nat, tokens: seq<string>)

  /** The state before the first part: depth 0 and the encoding declaration. */
  function Start(encoding: string): State {
    State(0, [Header(encoding)])
  }

  /** One iteration of the `for` loop (lines 93-122) on part number `i`. */
  function ProcessPart(st: State, i: nat, raw: string, d: Delimiters): Result<State, CompileError> {
    var part := Unescape(raw, d);
    if i % 2 == 0 then
      match LiteralToken(part, st.offset)
      case None => Ok(st)
      case Some(t) => Ok(State(st.offset, st.tokens + [t]))
    else
      match CodeStep(part, st.offset, d)
      case Err(e) => Err(e)
      case Ok(Skip(depth)) => Ok(State(depth, st.tokens))
      case Ok(Write(code, depth)) =>
        var e := Emit(code, depth);
        Ok(State(e.offset, st.tokens + [e.token]))
  }

  /** A literal part never fails and never changes the depth, and it appends its
      `write` line unless it is empty; a code part fails exactly when it closes a
      block at depth 0, otherwise moves the depth by its directive's `Delta`, and
      appends its re-indented code exactly when `CodeStep` has code to write. */
  lemma ProcessPartEffect(st: State, i: nat, raw: string, d: Delimiters)
    ensures var r := ProcessPart(st, i, raw, d); var part := Unescape(raw, d);
      var c := CodeStep(part, st.offset, d);
      && (i % 2 == 0 ==> r.Ok? && r.value.offset == st.offset)
      && (i % 2 == 0 ==> r.value.tokens == st.tokens + (if part == [] then [] else [LiteralToken(part, st.offset).value]))
      && (i % 2 == 1 ==> (r.Err? <==> Classify(part).Close? && st.offset == 0))
      && (i % 2 == 1 && r.Ok? ==> r.value.offset as int == st.offset + Delta(Classify(part)))
      && (i % 2 == 1 && c.Ok? && c.value.Skip? ==> r.Ok? && r.value.tokens == st.tokens)
      && (i % 2 == 1 && c.Ok? && c.value.Write? ==>
            r.Ok? && r.value.tokens == st.tokens + [Emit(c.value.code, c.value.depth).token])
      && (r.Err? ==> r.error == NoBlockToTerminate(d.start + part + d.end))
      && (r.Ok? ==> st.tokens <= r.value.tokens)
  {
    if i % 2 == 1 {
      var part := Unescape(raw, d);
      match CodeStep(part, st.offset, d)
      case Err(_) =>
        CodeStepEffect(part, st.offset, d);
      case Ok(Skip(_)) =>
        CodeStepEffect(part, st.offset, d);
      case Ok(Write(code, at)) =>
        CodeStepEffect(part, st.offset, d);
        EmitShape(code, at);
    }
  }

  /** The parts from number `i` on, processed in order from state `st`; the first
      error raised ends the run. */
  function RunFrom(st: State, parts: seq<string>, d: Delimiters, i: nat): Result<State, CompileError>
    requires i <= |parts|
    decreases |parts| - i
  {
    if i == |parts| then Ok(st)
    else
      match ProcessPart(st, i, parts[i], d)
      case Err(e) => Err(e)
      case Ok(next) => RunFrom(next, parts, d, i + 1)
  }

  /** What `_compile` produces: the tokens joined by newlines, unless an error is
      raised inside the loop or blocks are left open (lines 123-126). */
  function CompileSpec(source: string, d: Delimiters, encoding: string): Result<string, CompileError> {
    var parts := Split(source, d);
    match RunFrom(Start(encoding), parts, d, 0)
    case Err(e) => Err(e)
    case Ok(st) => if st.offset != 0 then Err(BlocksNotTerminated(st.offset)) else Ok(JoinWith(st.tokens, "\n"))
  }

  /** The directive kinds of the code parts from number `i` on, in order. */
  function DirectivesFrom(parts: seq<string>, d: Delimiters, i: nat): seq<Directive>
    decreases |parts| - i
  {
    if i >= |parts| then []
    else if i % 2 == 1 then [Classify(Unescape(parts[i], d))] + DirectivesFrom(parts, d, i + 1)
    else DirectivesFrom(parts, d, i + 1)
  }

  /** The directive kinds of a template, in source order. */
  function Directives(source: string, d: Delimiters): seq<Directive> {
    DirectivesFrom(Split(source, d), d, 0)
  }

  /** The block depth a directive sequence leads to from `depth`, or None when a
      close finds no open block. */
  function Nest(dirs: seq<Directive>, depth: nat): Option<nat>
    decreases |dirs|
  {
    if dirs == [] then Some(depth)
    else if dirs[0].Close? && depth == 0 then None
    else Nest(dirs[1..], depth + Delta(dirs[0]))
  }

  lemma NestCons(dir: Directive, rest: seq<Directive>, depth: nat)
    ensures Nest([dir] + rest, depth) ==
      if dir.Close? && depth == 0 then None else Nest(rest, depth + Delta(dir))
  {
    assert ([dir] + rest)[1..] == rest;
  }

  /** The sum of the depth changes of a directive sequence. */
  function NetDelta(dirs: seq<Directive>): int
    decreases |dirs|
  {
    if dirs == [] then 0 else Delta(dirs[0]) + NetDelta(dirs[1..])
  }

  /** Every close finds an open block: the depth before it is positive. */
  predicate ClosesMatched(dirs: seq<Directive>) {
    forall k :: 0 <= k < |dirs| && dirs[k].Close? ==> NetDelta(dirs[..k]) > 0
  }

  /** Every close finds an open block and every block is closed. */
  predicate WellNested(dirs: seq<Directive>) {
    ClosesMatched(dirs) && NetDelta(dirs) == 0
  }

  lemma PrefixTail(dirs: seq<Directive>, k: nat)
    requires 0 < k <= |dirs|
    ensures NetDelta(dirs[..k]) == Delta(dirs[0]) + NetDelta(dirs[1..][..k - 1])
  {
    assert dirs[..k][1..] == dirs[1..][..k - 1];
  }

  /** Nesting from `depth` succeeds exactly when every close finds the running
      depth positive, and it ends at `depth` plus the net change. */
  lemma {:induction false} NestNet(dirs: seq<Directive>, depth: nat)
    ensures Nest(dirs, depth).Some? <==>
      forall k :: 0 <= k < |dirs| && dirs[k].Close? ==> depth + NetDelta(dirs[..k]) > 0
    ensures Nest(dirs, depth).Some? ==> Nest(dirs, depth).value == depth + NetDelta(dirs)
    decreases |dirs|
  {
    if dirs != [] {
      assert NetDelta(dirs[..0]) == 0 by {
        assert dirs[..0] == [];
      }
      if !(dirs[0].Close? && depth == 0) {
        var next: nat := depth + Delta(dirs[0]);
        var rest := dirs[1..];
        NestNet(rest, next);
        forall k | 0 < k <= |dirs|
          ensures depth + NetDelta(dirs[..k]) == next + NetDelta(rest[..k - 1])
        {
          PrefixTail(dirs, k);
        }
        if Nest(dirs, depth).Some? {
          forall k | 0 <= k < |dirs| && dirs[k].Close?
            ensures depth + NetDelta(dirs[..k]) > 0
          {
            if k > 0 {
              assert rest[k - 1] == dirs[k];
            }
          }
        } else {
          var k' :| 0 <= k' < |rest| && rest[k'].Close? && next + NetDelta(rest[..k']) <= 0;
          assert dirs[k' + 1] == rest[k'];
          assert depth + NetDelta(dirs[..k' + 1]) <= 0;
        }
        assert dirs == [dirs[0]] + rest;
      }
    }
  }

  lemma {:induction false} NetDeltaSnoc(dirs: seq<Directive>, x: Directive)
    ensures NetDelta(dirs + [x]) == NetDelta(dirs) + Delta(x)
    decreases |dirs|
  {
    if dirs == [] {
      assert dirs + [x] == [x];
    } else {
      assert (dirs + [x])[1..] == dirs[1..] + [x];
      NetDeltaSnoc(dirs[1..], x);
    }
  }

  /** When every close finds an open block, the running depth is never negative. */
  lemma DepthNeverNegative(dirs: seq<Directive>)
    requires ClosesMatched(dirs)
    ensures forall k :: 0 <= k <= |dirs| ==> NetDelta(dirs[..k]) >= 0
  {
    var k := 0;
    while k < |dirs|
      invariant 0 <= k <= |dirs|
      invariant forall j :: 0 <= j <= k ==> NetDelta(dirs[..j]) >= 0
    {
      assert dirs[..k + 1] == dirs[..k] + [dirs[k]];
      NetDeltaSnoc(dirs[..k], dirs[k]);
      k := k + 1;
    }
  }

  /** The directive kinds part number `i` contributes: its own kind when it is a
      code part, none when it is a literal. */
  function OwnDirectives(i: nat, raw: string, d: Delimiters): seq<Directive> {
    if i % 2 == 1 then [Classify(Unescape(raw, d))] else []
  }

  /** One part moves the state as its directive moves the nesting depth. */
  lemma StepNest(st: State, i: nat, raw: string, d: Delimiters, rest: seq<Directive>)
    ensures var p := ProcessPart(st, i, raw, d); var n := Nest(OwnDirectives(i, raw, d) + rest, st.offset);
      && (p.Ok? ==> n == Nest(rest, p.value.offset) && st.tokens <= p.value.tokens)
      && (p.Err? ==> n.None? && p.error.NoBlockToTerminate?)
  {
    ProcessPartEffect(st, i, raw, d);
    if i % 2 == 1 {
      NestStep(Classify(Unescape(raw, d)), rest, st.offset, ProcessPart(st, i, raw, d));
    } else {
      assert OwnDirectives(i, raw, d) + rest == rest;
    }
  }

  /** A step that fails exactly when `dir` closes at depth 0, and otherwise moves
      the depth by `Delta(dir)`, follows the nesting of `dir`. */
  lemma NestStep(dir: Directive, rest: seq<Directive>, depth: nat, r: Result<State, CompileError>)
    requires r.Err? <==> dir.Close? && depth == 0
    requires r.Ok? ==> r.value.offset as int == depth + Delta(dir)
    ensures r.Ok? ==> Nest([dir] + rest, depth) == Nest(rest, r.value.offset)
    ensures r.Err? ==> Nest([dir] + rest, depth).None?
  {
    NestCons(dir, rest, depth);
  }

  lemma DirectivesFromStep(parts: seq<string>, d: Delimiters, i: nat)
    requires i < |parts|
    ensures DirectivesFrom(parts, d, i) == OwnDirectives(i, parts[i], d) + DirectivesFrom(parts, d, i + 1)
  {
  }

  /** Running the parts from number `i` follows the nesting of their directives:
      it fails exactly when a close finds no open block, failing then with that
      directive's error; otherwise it ends at the depth the nesting reaches; and it
      only ever appends tokens. */
  lemma {:induction false} RunFromNest(st: State, parts: seq<string>, d: Delimiters, i: nat)
    requires i <= |parts|
    ensures var r := RunFrom(st, parts, d, i); var n := Nest(DirectivesFrom(parts, d, i), st.offset);
      && (r.Ok? <==> n.Some?)
      && (r.Ok? ==> r.value.offset == n.value && st.tokens <= r.value.tokens)
      && (r.Err? ==> r.error.NoBlockToTerminate?)
    decreases |parts| - i
  {
    if i < |parts| {
      var p := ProcessPart(st, i, parts[i], d);
      DirectivesFromStep(parts, d, i);
      StepNest(st, i, parts[i], d, DirectivesFrom(parts, d, i + 1));
      if p.Ok? {
        RunFromNest(p.value, parts, d, i + 1);
      }
    }
  }

  /** The tokens part number `i` writes when the block depth before it is
      `depth`: a non-empty literal gives its `write` line at that depth, and a code
      part gives its code re-indented at the depth `CodeStep` says, when it has code
      to write. */
  function PartTokens(i: nat, raw: string, d: Delimiters, depth: nat): seq<string> {
    var part := Unescape(raw, d);
    if i % 2 == 0 then
      if part == [] then [] else [LiteralToken(part, depth).value]
    else
      match CodeStep(part, depth, d)
      case Ok(Write(code, at)) => [Emit(code, at).token]
      case _ => []
  }

  /** A part writes at most one token. A literal writes one exactly when it is not
      empty. A directive writes one exactly when it is an expression or a statement,
      or a close that reopens a block at a positive depth. The token is indented by
      the depth before the part, one level less for a close. */
  lemma PartTokensShape(i: nat, raw: string, d: Delimiters, depth: nat)
    ensures var ts := PartTokens(i, raw, d, depth); var part := Unescape(raw, d); var dir := Classify(part);
      && |ts| <= 1
      && (i % 2 == 0 ==> (|ts| == 1 <==> part != []))
      && (i % 2 == 1 ==> (|ts| == 1 <==> dir == Expr || dir.Stmt? || (dir == Close(true) && depth > 0)))
      && (|ts| == 1 && (i % 2 == 0 || !dir.Close?) ==> |ts[0]| >= depth && ts[0][..depth] == Tabs(depth))
      && (|ts| == 1 && i % 2 == 1 && dir.Close? ==>
            depth > 0 && |ts[0]| >= depth - 1 && ts[0][..depth - 1] == Tabs(depth - 1))
  {
    var part := Unescape(raw, d);
    if i % 2 == 0 {
      LiteralTokenShape(part, depth);
      if part != [] {
        var t := LiteralToken(part, depth).value;
        assert t[..depth] == Tabs(depth);
      }
    } else {
      CodeStepEffect(part, depth, d);
      var c := CodeStep(part, depth, d);
      if c.Ok? && c.value.Write? {
        EmitShape(c.value.code, c.value.depth);
      }
    }
  }

  /** The tokens of the parts from number `i` on: each part's tokens at the depth
      the nesting of the directives before it reaches from `depth`, in part order,
      up to the first close that finds no open block. */
  function TokensFrom(parts: seq<string>, d: Delimiters, i: nat, depth: nat): seq<string>
    decreases |parts| - i
  {
    if i >= |parts| then []
    else
      match Nest(OwnDirectives(i, parts[i], d), depth)
      case None => []
      case Some(next) => PartTokens(i, parts[i], d, depth) + TokensFrom(parts, d, i + 1, next)
  }

  /** A part that succeeds appends exactly its own tokens and ends at the depth
      its directive's nesting reaches. */
  lemma PartStep(st: State, i: nat, raw: string, d: Delimiters)
    ensures var r := ProcessPart(st, i, raw, d);
      r.Ok? ==> (r.value.tokens == st.tokens + PartTokens(i, raw, d, st.offset)
                 && Nest(OwnDirectives(i, raw, d), st.offset) == Some(r.value.offset))
  {
    if i % 2 == 0 {
      LiteralPartStep(st, i, raw, d);
    } else {
      CodePartStep(st, i, raw, d);
    }
  }

  lemma LiteralPartStep(st: State, i: nat, raw: string, d: Delimiters)
    requires i % 2 == 0
    ensures var r := ProcessPart(st, i, raw, d);
      && r.Ok? && r.value.tokens == st.tokens + PartTokens(i, raw, d, st.offset)
      && Nest(OwnDirectives(i, raw, d), st.offset) == Some(r.value.offset)
  {
    assert OwnDirectives(i, raw, d) == [];
  }

  lemma CodePartStep(st: State, i: nat, raw: string, d: Delimiters)
    requires i % 2 == 1
    ensures var r := ProcessPart(st, i, raw, d);
      r.Ok? ==> (r.value.tokens == st.tokens + PartTokens(i, raw, d, st.offset)
                 && Nest(OwnDirectives(i, raw, d), st.offset) == Some(r.value.offset))
  {
    match CodeStep(Unescape(raw, d), st.offset, d)
    case Err(e) =>
      assert ProcessPart(st, i, raw, d) == Err(e);
    case Ok(Skip(at)) =>
      SkipPartStep(st, i, raw, d, at);
    case Ok(Write(code, at)) =>
      WritePartStep(st, i, raw, d, code, at);
  }

  lemma SkipPartStep(st: State, i: nat, raw: string, d: Delimiters, at: nat)
    requires i % 2 == 1 && CodeStep(Unescape(raw, d), st.offset, d) == Ok(Skip(at))
    ensures ProcessPart(st, i, raw, d) == Ok(State(at, st.tokens))
    ensures PartTokens(i, raw, d, st.offset) == []
    ensures Nest(OwnDirectives(i, raw, d), st.offset) == Some(at)
  {
    var part := Unescape(raw, d);
    assert OwnDirectives(i, raw, d) == [Classify(part)];
    SkipNest(part, st.offset, d, at);
  }

  lemma SkipNest(part: string, depth: nat, d: Delimiters, at: nat)
    requires CodeStep(part, depth, d) == Ok(Skip(at))
    ensures Nest([Classify(part)], depth) == Some(at)
  {
    var dir := Classify(part);
    assert !(dir.Close? && depth == 0) && at == depth + Delta(dir) by {
      CodeStepEffect(part, depth, d);
    }
    NestOne(dir, depth);
  }

  lemma WritePartStep(st: State, i: nat, raw: string, d: Delimiters, code: string, at: nat)
    requires i % 2 == 1 && CodeStep(Unescape(raw, d), st.offset, d) == Ok(Write(code, at))
    ensures Emittable(code)
    ensures var e := Emit(code, at);
      && ProcessPart(st, i, raw, d) == Ok(State(e.offset, st.tokens + [e.token]))
      && PartTokens(i, raw, d, st.offset) == [e.token]
      && Nest(OwnDirectives(i, raw, d), st.offset) == Some(e.offset)
  {
    assert OwnDirectives(i, raw, d) == [Classify(Unescape(raw, d))];
    WriteNest(Unescape(raw, d), st.offset, d, code, at);
  }

  lemma WriteNest(part: string, depth: nat, d: Delimiters, code: string, at: nat)
    requires CodeStep(part, depth, d) == Ok(Write(code, at))
    ensures Emittable(code)
    ensures Nest([Classify(part)], depth) == Some(Emit(code, at).offset)
  {
    var dir := Classify(part);
    var opens := if EndsWithColon(code) then 1 else 0;
    assert !(dir.Close? && depth == 0) && at + opens == depth + Delta(dir) by {
      CodeStepEffect(part, depth, d);
    }
    assert Emittable(code) && Emit(code, at).offset == at + opens by {
      EmitShape(code, at);
    }
    NestOne(dir, depth);
  }

  lemma NestOne(dir: Directive, depth: nat)
    ensures Nest([dir], depth) == if dir.Close? && depth == 0 then None else Some(depth + Delta(dir))
  {
    NestCons(dir, [], depth);
    assert [dir] + [] == [dir];
  }

  /** A run that succeeds appends exactly the tokens of its parts, each written at
      the depth the nesting reaches before it. */
  lemma {:induction false} RunFromTokens(st: State, parts: seq<string>, d: Delimiters, i: nat)
    requires i <= |parts|
    ensures var r := RunFrom(st, parts, d, i);
      r.Ok? ==> r.value.tokens == st.tokens + TokensFrom(parts, d, i, st.offset)
    decreases |parts| - i
  {
    if i < |parts| {
      match ProcessPart(st, i, parts[i], d)
      case Err(_) =>
      case Ok(next) =>
        PartStep(st, i, parts[i], d);
        assert RunFrom(st, parts, d, i) == RunFrom(next, parts, d, i + 1);
        assert TokensFrom(parts, d, i, st.offset)
          == PartTokens(i, parts[i], d, st.offset) + TokensFrom(parts, d, i + 1, next.offset);
        RunFromTokens(next, parts, d, i + 1);
        ConcatAssoc(st.tokens, PartTokens(i, parts[i], d, st.offset), TokensFrom(parts, d, i + 1, next.offset));
    }
  }

  /** Generated code is the encoding declaration followed, one per line, by the
      tokens of the template's parts in source order, each indented by the depth
      the nesting of the directives before it reaches. */
  lemma CompileTokens(source: string, d: Delimiters, encoding: string)
    ensures var r := CompileSpec(source, d, encoding);
      r.Ok? ==> r.value == JoinWith([Header(encoding)] + TokensFrom(Split(source, d), d, 0, 0), "\n")
  {
    RunFromTokens(Start(encoding), Split(source, d), d, 0);
  }

  /** The outcome of `_compile` is decided by the nesting of the template's
      directives: a close without an open block raises "no block statement to
      terminate"; otherwise blocks left open raise "block statement(s) not
      terminated" with their number; otherwise the generated code, which starts
      with the encoding declaration, is returned. */
  lemma CompileOutcome(source: string, d: Delimiters, encoding: string)
    ensures var r := CompileSpec(source, d, encoding); var dirs := Directives(source, d);
      && (r.Err? && r.error.NoBlockToTerminate? <==> !ClosesMatched(dirs))
      && (r.Err? && r.error.BlocksNotTerminated? <==> ClosesMatched(dirs) && NetDelta(dirs) != 0)
      && (r.Err? && r.error.BlocksNotTerminated? ==> r.error.count as int == NetDelta(dirs))
      && (r.Ok? <==> WellNested(dirs))
      && (r.Ok? ==> |r.value| >= |Header(encoding)| && r.value[..|Header(encoding)|] == Header(encoding))
  {
    var parts := Split(source, d);
    var dirs := Directives(source, d);
    RunFromNest(Start(encoding), parts, d, 0);
    NestNet(dirs, 0);
    var run := RunFrom(Start(encoding), parts, d, 0);
    if run.Ok? {
      var tokens := run.value.tokens;
      assert tokens[0] == Header(encoding);
      JoinFirst(tokens, "\n", |Header(encoding)|);
    }
  }

  /** `out` is the header line followed by one `write` of a well-quoted literal
      whose value is `value`. */
  predicate WritesLiteral(out: string, encoding: string, value: string) {
    var n := |Header(encoding)| + 1 + |WriteOpen|;
    && |out| >= n + |WriteClose|
    && var b := out[n..|out| - |WriteClose|];
    && out == Header(encoding) + "\n" + WriteOpen + b + WriteClose
    && WellQuoted(b) && Unquote(b) == value
  }

  lemma NoStartNoSplit(s: string, d: Delimiters)
    requires !Contains(s, d.start)
    ensures Split(s, d) == [s]
  {
    match Find(s, d.start, 0)
    case None =>
    case Some(p) =>
      assert false;
  }

  /** The state after the first part when it is a literal. */
  function AfterLiteral(encoding: string, text: string): State {
    if text == [] then Start(encoding) else State(0, [Header(encoding), LiteralToken(text, 0).value])
  }

  lemma FirstLiteral(source: string, d: Delimiters, encoding: string)
    ensures ProcessPart(Start(encoding), 0, source, d) == Ok(AfterLiteral(encoding, Unescape(source, d)))
  {
    var text := Unescape(source, d);
    if text != [] {
      var t := LiteralToken(text, 0).value;
      assert [Header(encoding)] + [t] == [Header(encoding), t];
    }
  }

  lemma RunSingle(st: State, x: string, d: Delimiters)
    ensures RunFrom(st, [x], d, 0) == ProcessPart(st, 0, x, d)
  {
    var p := ProcessPart(st, 0, x, d);
    if p.Ok? {
      assert RunFrom(p.value, [x], d, 1) == p;
    }
  }

  lemma JoinTwo(a: string, b: string, sep: string)
    ensures JoinWith([a, b], sep) == a + sep + b
  {
    assert [a, b][1..] == [b];
  }

  /** A template without a start delimiter runs as its one literal part. */
  lemma LiteralOnlyRun(source: string, d: Delimiters, encoding: string)
    requires !Contains(source, d.start)
    ensures var text := Unescape(source, d);
      CompileSpec(source, d, encoding) ==
        Ok(if text == [] then Header(encoding) else Header(encoding) + "\n" + LiteralToken(text, 0).value)
  {
    NoStartNoSplit(source, d);
    RunSingle(Start(encoding), source, d);
    FirstLiteral(source, d, encoding);
    var text := Unescape(source, d);
    if text != [] {
      JoinTwo(Header(encoding), LiteralToken(text, 0).value, "\n");
    }
  }

  lemma WritesLiteralOf(encoding: string, t: string, b: string, value: string)
    requires t == WriteOpen + b + WriteClose
    requires WellQuoted(b) && Unquote(b) == value
    ensures WritesLiteral(Header(encoding) + "\n" + t, encoding, value)
  {
    var out := Header(encoding) + "\n" + t;
    var n := |Header(encoding)| + 1 + |WriteOpen|;
    assert out[n..|out| - |WriteClose|] == b;
    assert out == Header(encoding) + "\n" + WriteOpen + b + WriteClose;
  }

  lemma WritesLiteralToken(encoding: string, text: string)
    requires text != []
    ensures WritesLiteral(Header(encoding) + "\n" + LiteralToken(text, 0).value, encoding, SkipContinuations(text))
  {
    var b := LiteralBody(text);
    assert Tabs(0) == [];
    WritesLiteralOf(encoding, LiteralToken(text, 0).value, b, SkipContinuations(text));
  }

  /** A template without a start delimiter is one literal: it compiles, to the
      header alone when its text is empty, and otherwise to the header and one
      `write` of its text with the continuations removed. */
  lemma LiteralOnlyTemplate(source: string, d: Delimiters, encoding: string)
    requires !Contains(source, d.start)
    ensures var out := CompileSpec(source, d, encoding); var text := Unescape(source, d);
      && out.Ok?
      && (text == [] ==> out.value == Header(encoding))
      && (text != [] ==> WritesLiteral(out.value, encoding, SkipContinuations(text)))
  {
    LiteralOnlyRun(source, d, encoding);
    var text := Unescape(source, d);
    if text != [] {
      WritesLiteralToken(encoding, text);
    }
  }

  /** Restoring the escaped start delimiters of such a text gives the pieces
      joined by the real delimiter; only the escaped end delimiters the pieces
      themselves hold are restored on top of that. */
  lemma UnescapeEscapedStart(pieces: seq<string>, d: Delimiters)
    requires PlainDelimiter(d.start)
    requires forall i :: 0 <= i < |pieces| ==> !Contains(pieces[i], d.start) && !Contains(pieces[i], Escaped(d.start))
    ensures var source := JoinWith(pieces, Escaped(d.start));
      && !Contains(source, d.start)
      && Unescape(source, d) == ReplaceAll(JoinWith(pieces, d.start), Escaped(d.end), d.end)
  {
    EscapedTextHasNoDelimiter(pieces, d.start);
    ReplaceEscapedPieces(pieces, d.start);
  }

  /** Start delimiters written escaped stay text: a template made of pieces with
      neither a start delimiter nor an escaped one, joined by escaped start
      delimiters, compiles to a single `write` of the pieces joined by the real
      start delimiter (with escaped end delimiters restored and continuations
      removed, as for every literal part). */
  lemma EscapedStartStaysLiteral(pieces: seq<string>, d: Delimiters, encoding: string)
    requires PlainDelimiter(d.start)
    requires forall i :: 0 <= i < |pieces| ==> !Contains(pieces[i], d.start) && !Contains(pieces[i], Escaped(d.start))
    ensures var source := JoinWith(pieces, Escaped(d.start));
      var text := ReplaceAll(JoinWith(pieces, d.start), Escaped(d.end), d.end);
      var out := CompileSpec(source, d, encoding);
      && out.Ok?
      && (text == [] ==> out.value == Header(encoding))
      && (text != [] ==> WritesLiteral(out.value, encoding, SkipContinuations(text)))
  {
    UnescapeEscapedStart(pieces, d);
    LiteralOnlyTemplate(JoinWith(pieces, Escaped(d.start)), d, encoding);
  }

  /** When the joined text has no escaped end delimiter and no line continuation,
      the single `write` writes exactly the pieces joined by the start delimiter. */
  lemma EscapedStartKeepsText(pieces: seq<string>, d: Delimiters, encoding: string)
    requires PlainDelimiter(d.start)
    requires forall i :: 0 <= i < |pieces| ==> !Contains(pieces[i], d.start) && !Contains(pieces[i], Escaped(d.start))
    requires !Contains(JoinWith(pieces, d.start), Escaped(d.end)) && !HasContinuation(JoinWith(pieces, d.start))
    ensures var value := JoinWith(pieces, d.start);
      var out := CompileSpec(JoinWith(pieces, Escaped(d.start)), d, encoding);
      && out.Ok?
      && (value == [] ==> out.value == Header(encoding))
      && (value != [] ==> WritesLiteral(out.value, encoding, value))
  {
    PlainTextKept(JoinWith(pieces, d.start), d);
    EscapedStartStaysLiteral(pieces, d, encoding);
  }

  /** Text with no escaped end delimiter and no continuation passes through the
      literal clean-up unchanged. */
  lemma PlainTextKept(value: string, d: Delimiters)
    requires !Contains(value, Escaped(d.end)) && !HasContinuation(value)
    ensures ReplaceAll(value, Escaped(d.end), d.end) == value
    ensures SkipContinuations(value) == value
  {
    ReplaceAllAbsent(value, Escaped(d.end), d.end);
    NoContinuationUnchanged(value);
  }

  /** `Templite._compile`: the loop over the parts of the source. */
  method Compile(source: string, d: Delimiters, encoding: string) returns (r: Result<string, CompileError>)
    ensures r == CompileSpec(source, d, encoding)
  {
    var offset: nat := 0;
    var tokens := [Header(encoding)];
    var parts := Split(source, d);
    for i := 0 to |parts|
      invariant RunFrom(State(offset, tokens), parts, d, i) == RunFrom(Start(encoding), parts, d, 0)
    {
      var part := Unescape(parts[i], d);
      if i % 2 == 0 {
        if part == [] {
          continue;
        }
        part := SkipContinuations(part);
        part := EscapeBody(part);
        part := Tabs(offset) + WriteOpen + part + WriteClose;
      } else {
        var step := CodeStep(part, offset, d);
        if step.Err? {
          return Err(step.error);
        }
        if step.value.Skip? {
          offset := step.value.depth;
          continue;
        }
        var emitted := Emit(step.value.code, step.value.depth);
        part, offset := emitted.token, emitted.offset;
      }
      tokens := tokens + [part];
    }
    if offset != 0 {
      return Err(BlocksNotTerminated(offset));
    }
    return Ok(JoinWith(tokens, "\n"));
  }
}
