/** `Templite.__init__` (lines 47-83): a template is identified by its file path
    or by the hash of its text, its delimiters are checked, and its generated code
    is taken from the class-wide cache when the cached entry is current, or else
    compiled (and cached when caching is on). */
module Templite {
  import opened Wrappers
  import opened Scanner
  import opened Compiler

  /** The key of a cache entry: the absolute path of a template file, or the hash
      of a template text. */
  datatype CacheKey = PathKey(path: string) | HashKey(hash: int)

  /** `cache[key] = (mtime, code)`: the modification time the code was compiled
      from (None for a text) and the generated code. */
  datatype CacheEntry = CacheEntry(mtime: Option<int>, code: string)

  /** The exceptions `__init__` raises itself or passes on from `_compile`. */
  datatype LoadError =
    | MissingSource                 // neither text nor filename (line 59)
    | BadDelimiterLength            // a delimiter not two characters long (line 68)
    | Syntax(error: CompileError)   // raised by `_compile`

  /** What the operating system and the interpreter answer for this template:
      `os.path.abspath(filename)`, `os.path.getmtime` of it, the text the file
      holds, and `hash(text)`. */
  datatype Host = Host(absPath: string, mtime: int, fileText: string, textHash: int)

  /** Where a template comes from: its cache key, the modification time stored
      with it, and the `file` attribute. */
  datatype Origin = Origin(key: CacheKey, mtime: Option<int>, file: Option<string>)

  /** A loaded template: the attributes `__init__` sets, with `code` the generated
      code string `_compile` hands to Python's `compile`. */
  datatype Template = Template(file: Option<string>, encoding: string, caching: bool, delimiters: Delimiters, code: string)

  /** Lines 52-59: a non-empty file name wins over a text; with neither there is
      no template. */
  function FindOrigin(text: Option<string>, filename: Option<string>, host: Host): Option<Origin> {
    if filename.Some? && filename.value != "" then Some(Origin(PathKey(host.absPath), Some(host.mtime), Some(host.absPath)))
    else if text.Some? then Some(Origin(HashKey(host.textHash), None, None))
    else None
  }

  /** Lines 65-69: the class delimiters unless others are given, which must both be
      two characters long. */
  function ChooseDelimiters(delimiters: Option<(string, string)>): Result<Delimiters, LoadError> {
    if delimiters.None? then Ok(DefaultDelimiters)
    else
      var (start, end) := delimiters.value;
      if |start| != 2 || |end| != 2 then Err(BadDelimiterLength) else Ok(Delimiters(start, end))
  }

  /** Line 73: the cache holds code for this key compiled at this modification time. */
  predicate IsCurrent(entries: map<CacheKey, CacheEntry>, o: Origin) {
    o.key in entries && entries[o.key].mtime == o.mtime
  }

  /** The outcome of `__init__`: the template or the error, and the cache after it. */
  datatype LoadOutcome = LoadOutcome(result: Result<Template, LoadError>, entries: map<CacheKey, CacheEntry>)

  /** `Templite(text, filename, encoding, delimiters, caching)` run against the cache
      `entries`. The text compiled is `text` whenever one is given, and the file's
      text only otherwise (line 78). */
  function LoadSpec(entries: map<CacheKey, CacheEntry>, text: Option<string>, filename: Option<string>,
                    encoding: string, delimiters: Option<(string, string)>, caching: bool, host: Host): LoadOutcome
  {
    match FindOrigin(text, filename, host)
    case None => LoadOutcome(Err(MissingSource), entries)
    case Some(o) =>
      match ChooseDelimiters(delimiters)
      case Err(e) => LoadOutcome(Err(e), entries)
      case Ok(d) =>
        if caching && IsCurrent(entries, o) then
          LoadOutcome(Ok(Template(o.file, encoding, caching, d, entries[o.key].code)), entries)
        else
          var source := if text.Some? then text.value else host.fileText;
          match CompileSpec(source, d, encoding)
          case Err(e) => LoadOutcome(Err(Syntax(e)), entries)
          case Ok(code) =>
            var t := Template(o.file, encoding, caching, d, code);
            LoadOutcome(Ok(t), if caching then entries[o.key := CacheEntry(o.mtime, code)] else entries)
  }

  /** Without a text and without a file name, loading fails and the cache is
      untouched. */
  lemma LoadNeedsSource(entries: map<CacheKey, CacheEntry>, filename: Option<string>,
                        encoding: string, delimiters: Option<(string, string)>, caching: bool, host: Host)
    requires filename.None? || filename.value == ""
    ensures LoadSpec(entries, None, filename, encoding, delimiters, caching, host) == LoadOutcome(Err(MissingSource), entries)
  {
  }

  /** Given a source, loading fails on delimiters that are not both two characters
      long, before the cache is consulted, and the cache is untouched. */
  lemma LoadChecksDelimiters(entries: map<CacheKey, CacheEntry>, text: Option<string>, filename: Option<string>,
                             encoding: string, start: string, end: string, caching: bool, host: Host)
    requires text.Some? || (filename.Some? && filename.value != "")
    ensures var out := LoadSpec(entries, text, filename, encoding, Some((start, end)), caching, host);
      && (out.result == Err(BadDelimiterLength) <==> |start| != 2 || |end| != 2)
      && (out.result == Err(BadDelimiterLength) ==> out.entries == entries)
      && (out.result.Ok? ==> out.result.value.delimiters == Delimiters(start, end))
  {
  }

  /** A current cache entry is used as it is, nothing is compiled, and the cache is
      untouched. */
  lemma LoadHit(entries: map<CacheKey, CacheEntry>, text: Option<string>, filename: Option<string>,
                encoding: string, delimiters: Option<(string, string)>, host: Host)
    requires FindOrigin(text, filename, host).Some? && ChooseDelimiters(delimiters).Ok?
    requires IsCurrent(entries, FindOrigin(text, filename, host).value)
    ensures var out := LoadSpec(entries, text, filename, encoding, delimiters, true, host);
      && out.entries == entries
      && out.result.Ok? && out.result.value.code == entries[FindOrigin(text, filename, host).value.key].code
  {
  }

  /** Otherwise the source is compiled: a compile error is raised and leaves the
      cache as it was; a success yields the generated code and, when caching, stores
      it with the modification time under the key, every other entry unchanged. */
  lemma LoadMiss(entries: map<CacheKey, CacheEntry>, text: Option<string>, filename: Option<string>,
                 encoding: string, delimiters: Option<(string, string)>, caching: bool, host: Host)
    requires FindOrigin(text, filename, host).Some? && ChooseDelimiters(delimiters).Ok?
    requires !(caching && IsCurrent(entries, FindOrigin(text, filename, host).value))
    ensures var out := LoadSpec(entries, text, filename, encoding, delimiters, caching, host);
      var o := FindOrigin(text, filename, host).value;
      var c := CompileSpec(if text.Some? then text.value else host.fileText, ChooseDelimiters(delimiters).value, encoding);
      && (out.result.Err? <==> c.Err?)
      && (c.Err? ==> out.result.error == Syntax(c.error) && out.entries == entries)
      && (c.Ok? ==> out.result.value.code == c.value)
      && (c.Ok? && caching ==> o.key in out.entries && out.entries[o.key] == CacheEntry(o.mtime, c.value))
      && (forall k :: k != o.key ==> (k in out.entries <==> k in entries))
      && (forall k :: k != o.key && k in entries ==> out.entries[k] == entries[k])
      && (!caching ==> out.entries == entries)
  {
  }

  /** Loading the same template a second time with caching on gives the same code
      as the first load, straight from the cache, and leaves the cache as the first
      load left it. */
  lemma LoadTwice(entries: map<CacheKey, CacheEntry>, text: Option<string>, filename: Option<string>,
                  encoding: string, delimiters: Option<(string, string)>, host: Host)
    requires LoadSpec(entries, text, filename, encoding, delimiters, true, host).result.Ok?
    ensures var first := LoadSpec(entries, text, filename, encoding, delimiters, true, host);
      var second := LoadSpec(first.entries, text, filename, encoding, delimiters, true, host);
      && second == first
  {
    var o := FindOrigin(text, filename, host).value;
    var first := LoadSpec(entries, text, filename, encoding, delimiters, true, host);
    assert IsCurrent(first.entries, o);
  }

  /** The cache key does not hold the delimiters or the encoding: once a text is
      cached, loading the same text (the same hash) with other delimiters returns
      the code compiled for the first ones. */
  lemma CacheIgnoresDelimiters(entries: map<CacheKey, CacheEntry>, text: string, encoding: string,
                               delimiters: Option<(string, string)>, other: Option<(string, string)>,
                               encoding2: string, host: Host)
    requires LoadSpec(entries, Some(text), None, encoding, delimiters, true, host).result.Ok?
    requires ChooseDelimiters(other).Ok?
    ensures var first := LoadSpec(entries, Some(text), None, encoding, delimiters, true, host);
      var second := LoadSpec(first.entries, Some(text), None, encoding2, other, true, host);
      && second.result.Ok? && second.result.value.code == first.result.value.code
  {
    var first := LoadSpec(entries, Some(text), None, encoding, delimiters, true, host);
    assert IsCurrent(first.entries, Origin(HashKey(host.textHash), None, None));
  }

  /** The code produced by some successful compilation. */
  ghost predicate Compiled(code: string) {
    exists source: string, d: Delimiters, encoding: string :: CompileSpec(source, d, encoding) == Ok(code)
  }

  /** Every cached entry holds compiled code. */
  ghost predicate CacheSound(entries: map<CacheKey, CacheEntry>) {
    forall k :: k in entries ==> Compiled(entries[k].code)
  }

  /** Loading keeps the cache sound, and every template it returns holds code some
      compilation produced. */
  lemma LoadKeepsCacheSound(entries: map<CacheKey, CacheEntry>, text: Option<string>, filename: Option<string>,
                            encoding: string, delimiters: Option<(string, string)>, caching: bool, host: Host)
    requires CacheSound(entries)
    ensures var out := LoadSpec(entries, text, filename, encoding, delimiters, caching, host);
      && CacheSound(out.entries)
      && (out.result.Ok? ==> Compiled(out.result.value.code))
  {
    var out := LoadSpec(entries, text, filename, encoding, delimiters, caching, host);
    if FindOrigin(text, filename, host).Some? && ChooseDelimiters(delimiters).Ok? {
      var o := FindOrigin(text, filename, host).value;
      var d := ChooseDelimiters(delimiters).value;
      if !(caching && IsCurrent(entries, o)) {
        var source := if text.Some? then text.value else host.fileText;
        var c := CompileSpec(source, d, encoding);
        if c.Ok? {
          assert Compiled(c.value) by {
            assert CompileSpec(source, d, encoding) == Ok(c.value);
          }
        }
      }
    }
  }

  /** The class attribute `Templite.cache`, shared by every template. */
  class CodeCache {
    var entries: map<CacheKey, CacheEntry>

    constructor()
      ensures entries == map[]
    {
      entries := map[];
    }
  }

  /** `Templite.__init__`, against the shared cache. */
  method Load(cache: CodeCache, text: Option<string>, filename: Option<string>, encoding: string,
              delimiters: Option<(string, string)>, caching: bool, host: Host) returns (r: Result<Template, LoadError>)
    modifies cache
    ensures LoadSpec(old(cache.entries), text, filename, encoding, delimiters, caching, host) == LoadOutcome(r, cache.entries)
  {
    var key: CacheKey;
    var mtime: Option<int>;
    var file: Option<string>;
    if filename.Some? && filename.value != "" {
      file := Some(host.absPath);
      key := PathKey(host.absPath);
      mtime := Some(host.mtime);
    } else if text.Some? {
      file, mtime := None, None;
      key := HashKey(host.textHash);
    } else {
      return Err(MissingSource);
    }
    var d := DefaultDelimiters;
    if delimiters.Some? {
      var (start, end) := delimiters.value;
      if |start| != 2 || |end| != 2 {
        return Err(BadDelimiterLength);
      }
      d := Delimiters(start, end);
    }
    if caching && key in cache.entries && cache.entries[key].mtime == mtime {
      return Ok(Template(file, encoding, caching, d, cache.entries[key].code));
    }
    var source := if text.Some? then text.value else host.fileText;
    var code := Compile(source, d, encoding);
    if code.Err? {
      return Err(Syntax(code.error));
    }
    if caching {
      cache.entries := cache.entries[key := CacheEntry(mtime, code.value)];
    }
    return Ok(Template(file, encoding, caching, d, code.value));
  }
}
