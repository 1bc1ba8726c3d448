/** `DocTestParserPlus.parse`: after the standard parser has cut a text
    file into text chunks and examples, the text chunks are read for the
    plugin's directives, which decide which of the following examples are
    skipped:

    - `.. doctest-skip::` skips the next examples, and
      `.. doctest-skip:: win32` does so only on Windows;
    - `.. doctest-requires:: a, b` skips them unless modules `a` and `b`
      can be imported;
    - `.. doctest-skip-all` skips every later example.

    (`..` is the reStructuredText comment; `.txt` files use `#` and `.tex`
    files `%`.) Examples marked `IGNORE_WARNINGS` are wrapped in a context
    manager that silences warnings, and `REMOTE_DATA` examples are skipped
    unless remote data is allowed. Recognising a directive on a line is
    given (three regular expressions parameterised by the comment
    character). */
module DirectiveParser {
  import opened Base
  import opened TextOps
  import opened OptionFlags
  import opened DocTestFinder

  // ---------------------------------------------------------------------------
  // The comment character
  // ---------------------------------------------------------------------------

  /** The index of the last `c` in `s`, or -1. */
  function LastIndexOf(s: string, c: char): (r: int)
    ensures -1 <= r < |s|
    ensures r >= 0 ==> s[r] == c && c !in s[r + 1..]
    ensures r == -1 <==> c !in s
    decreases |s|
  {
    if s == [] then -1
    else if s[|s| - 1] == c then |s| - 1
    else
      assert s[..|s| - 1] + [s[|s| - 1]] == s;
      LastIndexOf(s[..|s| - 1], c)
  }

  /** `os.path.splitext(name)[1]`: from the last dot of the file name to
      the end, unless the name has no dot or only leading dots. */
  function Extension(name: string): (ext: string)
    ensures ext == "" || (ext[0] == '.' && '.' !in ext[1..] && '/' !in ext)
    ensures |ext| <= |name| && name[|name| - |ext|..] == ext
  {
    var sep := LastIndexOf(name, '/');
    var dot := LastIndexOf(name, '.');
    if dot > sep && exists k :: sep < k < dot && name[k] != '.' then
      assert name[dot..][1..] == name[dot + 1..];
      name[dot..]
    else ""
  }

  /** The module-level `comment_characters` table before any ini
      override: `.txt` to `#`, `.tex` to `%`, `.rst` to the pattern of
      `..`. */
  const DefaultCommentChars: map<string, string> := map[".txt" := "#", ".tex" := "%", ".rst" := "\\.\\."]

  function NameExtension(name: Option<string>): string {
    if name.Some? && name.value != "" then Extension(name.value) else ".rst"
  }

  /** The comment character as the code picks it: an unknown extension
      builds its warning with `comment_characters['rst']`, a key the table
      does not hold unless a user added it, so the lookup raises KeyError
      instead of falling back to `.rst`. */
  function CommentCharAsWritten(name: Option<string>, table: map<string, string>): (r: Result<string>)
    ensures NameExtension(name) in table ==> r == Ok(table[NameExtension(name)])
    ensures NameExtension(name) !in table && "rst" !in table ==> r == Err(KeyError("rst"))
  {
    var ext := NameExtension(name);
    if ext in table then Ok(table[ext])
    else if "rst" !in table then Err(KeyError("rst"))
    else if ".rst" in table then Ok(table[".rst"])
    else Err(KeyError(".rst"))
  }

  /** A Markdown file cannot be parsed with the default table. */
  lemma UnknownExtensionRaises(name: string)
    requires Extension(name) == ".md"
    ensures CommentCharAsWritten(Some(name), DefaultCommentChars) == Err(KeyError("rst"))
  {
  }

  /** The comment character as the warning describes it: the one for the
      file's extension, or the reStructuredText one for an unknown or
      missing extension. */
  function CommentChar(name: Option<string>, table: map<string, string>): (r: string)
    requires ".rst" in table
    ensures NameExtension(name) in table ==> r == table[NameExtension(name)]
    ensures NameExtension(name) !in table ==> r == table[".rst"]
  {
    var ext := NameExtension(name);
    if ext in table then table[ext] else table[".rst"]
  }

  /** The corrected choice agrees with the code wherever the code does not
      raise. */
  lemma CommentCharAgrees(name: Option<string>, table: map<string, string>)
    requires ".rst" in table
    ensures CommentCharAsWritten(name, table).Ok? ==> CommentCharAsWritten(name, table).value == CommentChar(name, table)
  {
  }

  // ---------------------------------------------------------------------------
  // The module list of doctest-requires
  // ---------------------------------------------------------------------------

  /** The length of the whitespace run starting at `p`. */
  function SpaceRun(s: string, p: nat): (n: nat)
    requires p <= |s|
    ensures p + n <= |s| && AllSpace(s[p..p + n]) && (p + n == |s| || !IsSpace(s[p + n]))
    decreases |s| - p
  {
    if p < |s| && IsSpace(s[p]) then
      var n := 1 + SpaceRun(s, p + 1);
      assert s[p..p + n] == [s[p]] + s[p + 1..p + n];
      n
    else 0
  }

  predicate Separating(c: char) {
    c == ',' || IsSpace(c)
  }

  /** The length of the match of `\s*[,\s]\s*` at the start of `s`, 0 when
      there is none: a comma with the whitespace around it, or a run of
      whitespace alone. */
  function SeparatorAt(s: string): (n: nat)
    ensures n <= |s|
    ensures forall k :: 0 <= k < n ==> Separating(s[k])
    ensures n == 0 <==> (s == [] || !Separating(s[0]))
  {
    var w := SpaceRun(s, 0);
    if w < |s| && s[w] == ',' then
      var n := w + 1 + SpaceRun(s, w + 1);
      assert forall k :: w + 1 <= k < n ==> s[k] == s[w + 1..n][k - (w + 1)];
      n
    else
      assert forall k :: 0 <= k < w ==> s[k] == s[0..w][k];
      w
  }

  /** `re.split(r'\s*[,\s]\s*', s)`: the pieces between the leftmost
      separator matches. */
  function SplitRequires(s: string): (parts: seq<string>)
    ensures |parts| >= 1
    decreases |s|
  {
    if s == [] then [""]
    else if SeparatorAt(s) > 0 then [""] + SplitRequires(s[SeparatorAt(s)..])
    else
      var rest := SplitRequires(s[1..]);
      [[s[0]] + rest[0]] + rest[1..]
  }

  /** No piece holds a comma or whitespace. */
  lemma {:induction false} SplitRequiresNames(s: string)
    ensures forall i, k :: 0 <= i < |SplitRequires(s)| && 0 <= k < |SplitRequires(s)[i]| ==> !Separating(SplitRequires(s)[i][k])
    decreases |s|
  {
    if s == [] {
    } else if SeparatorAt(s) > 0 {
      SplitRequiresNames(s[SeparatorAt(s)..]);
      var rest := SplitRequires(s[SeparatorAt(s)..]);
      assert SplitRequires(s) == [""] + rest;
    } else {
      SplitRequiresNames(s[1..]);
      var rest := SplitRequires(s[1..]);
      var parts := SplitRequires(s);
      assert parts == [[s[0]] + rest[0]] + rest[1..];
      forall i, k | 0 <= i < |parts| && 0 <= k < |parts[i]|
        ensures !Separating(parts[i][k])
      {
        if i == 0 {
          if k > 0 {
            assert parts[0][k] == rest[0][k - 1];
          }
        } else {
          assert parts[i] == rest[i];
        }
      }
    }
  }

  /** The text without its commas and whitespace. */
  function Squeeze(s: string): (r: string)
    decreases |s|
  {
    if s == [] then []
    else (if Separating(s[0]) then [] else [s[0]]) + Squeeze(s[1..])
  }

  function Concat(parts: seq<string>): string
    decreases |parts|
  {
    if parts == [] then [] else parts[0] + Concat(parts[1..])
  }

  lemma {:induction false} SqueezeSeparators(s: string, n: nat)
    requires n <= |s|
    requires forall k :: 0 <= k < n ==> Separating(s[k])
    ensures Squeeze(s) == Squeeze(s[n..])
    decreases n
  {
    if n > 0 {
      assert s[1..][n - 1..] == s[n..];
      SqueezeSeparators(s[1..], n - 1);
    }
  }

  /** Splitting loses nothing but the separators: the pieces laid end to
      end are the text with its commas and whitespace removed. */
  lemma {:induction false} SplitRequiresKeepsNames(s: string)
    ensures Concat(SplitRequires(s)) == Squeeze(s)
    decreases |s|
  {
    if s == [] {
    } else if SeparatorAt(s) > 0 {
      SplitRequiresKeepsNames(s[SeparatorAt(s)..]);
      SqueezeSeparators(s, SeparatorAt(s));
    } else {
      var rest := SplitRequires(s[1..]);
      SplitRequiresKeepsNames(s[1..]);
      assert Concat(rest) == rest[0] + Concat(rest[1..]);
      var parts := SplitRequires(s);
      assert parts[1..] == rest[1..];
    }
  }

  /** A module name: no comma and no whitespace. */
  predicate IsName(s: string) {
    forall k :: 0 <= k < |s| ==> !Separating(s[k])
  }

  /** A text without separators is one piece. */
  lemma {:induction false} NameAlone(s: string)
    requires IsName(s)
    ensures SplitRequires(s) == [s]
    decreases |s|
  {
    if s != [] {
      NameAlone(s[1..]);
      SplitName(s);
      assert [s[0]] + s[1..] == s;
    }
  }

  /** A name followed by a separator match ends the first piece exactly
      at the separator: the split never cuts inside a name. */
  lemma {:induction false} NameThenSeparator(name: string, rest: string, n: nat)
    requires IsName(name)
    requires 0 < n <= |rest| && SeparatorAt(rest) == n
    ensures SplitRequires(name + rest) == [name] + SplitRequires(rest[n..])
    decreases |name|
  {
    if name == [] {
      SeparatorRun(rest, n);
      assert name + rest == rest;
    } else {
      var s := name + rest;
      assert s[1..] == name[1..] + rest;
      NameThenSeparator(name[1..], rest, n);
      SplitName(s);
      assert [name[0]] + name[1..] == name;
    }
  }

  /** The three spellings in the source's comment (`a a`, `a,a`,
      `a, a`) give the same list of the two names. */
  lemma RequiresSpellings(a: string, b: string, sep: string)
    requires IsName(a) && IsName(b)
    requires sep == " " || sep == "," || sep == ", "
    ensures SplitRequires(a + sep + b) == [a, b]
  {
    Regroup(a, sep, b);
    SpellingSeparator(sep, b);
    TwoNamesSplit(a, b, sep);
  }

  lemma Regroup(x: string, y: string, z: string)
    ensures x + y + z == x + (y + z)
  {
  }

  /** Two names around a separator that is matched whole split into the
      two names. */
  lemma TwoNamesSplit(a: string, b: string, sep: string)
    requires IsName(a) && IsName(b)
    requires 0 < |sep| && SeparatorAt(sep + b) == |sep|
    ensures SplitRequires(a + (sep + b)) == [a, b]
  {
    var t := sep + b;
    assert SplitRequires(a + t) == [a] + SplitRequires(b) by {
      NameThenSeparator(a, t, |sep|);
      assert t[|sep|..] == b;
    }
    assert SplitRequires(b) == [b] by {
      NameAlone(b);
    }
  }

  /** Each of the three separators is matched whole in front of a name. */
  lemma SpellingSeparator(sep: string, b: string)
    requires IsName(b)
    requires sep == " " || sep == "," || sep == ", "
    ensures SeparatorAt(sep + b) == |sep|
  {
    var t := sep + b;
    if sep == ", " {
      assert SpaceRun(t, 2) == 0 by {
        assert |t| > 2 ==> t[2] == b[0];
      }
      assert SpaceRun(t, 1) == 1;
    } else {
      assert SpaceRun(t, 1) == 0 by {
        assert |t| > 1 ==> t[1] == b[0];
      }
    }
  }

  lemma SplitName(s: string)
    requires s != [] && !Separating(s[0])
    ensures SplitRequires(s) == [[s[0]] + SplitRequires(s[1..])[0]] + SplitRequires(s[1..])[1..]
  {
  }

  lemma SeparatorRun(s: string, n: nat)
    requires 0 < n <= |s| && SeparatorAt(s) == n
    ensures SplitRequires(s) == [""] + SplitRequires(s[n..])
  {
  }

  // ---------------------------------------------------------------------------
  // Reading the directives of one text chunk
  // ---------------------------------------------------------------------------

  /** The three directive recognisers, given the comment character and a
      line (each is `re.match`, so it looks at the start of the line). */
  datatype Recognizers = Recognizers(
    /** `<c> doctest-skip-all` */
    skipAll: (string, string) -> bool,
    /** `<c>\s+doctest-skip\s*::(\s+.*)?`, with the optional group */
    skip: (string, string) -> Option<Option<string>>,
    /** `<c>\s+doctest-requires\s*::\s+(.*)`, with the group */
    requiresMods: (string, string) -> Option<string>)

  /** The state `parse` carries from one text chunk to the examples after
      it. */
  datatype Directives = Directives(required: seq<string>, skipNext: bool, skipAll: bool)

  const Initial := Directives([], false, false)

  /** `lines[-2:]`. */
  function LastTwo(lines: seq<string>): (r: seq<string>)
    ensures |r| == if |lines| < 2 then |lines| else 2
  {
    if |lines| >= 2 then lines[|lines| - 2..] else lines
  }

  /** `matches[0] or matches[1]` for the skip directive over the last
      lines. */
  function SkipMatch(last: seq<string>, rec: Recognizers, cc: string): (r: Option<Option<string>>)
    requires |last| <= 2
    ensures |last| > 0 && rec.skip(cc, last[0]).Some? ==> r == rec.skip(cc, last[0])
  {
    if |last| == 0 then None
    else if rec.skip(cc, last[0]).Some? then rec.skip(cc, last[0])
    else if |last| > 1 then rec.skip(cc, last[1])
    else None
  }

  /** `matches[0] or matches[1]` for the requires directive over the last
      lines. */
  function RequiresMatch(last: seq<string>, rec: Recognizers, cc: string): (r: Option<string>)
    requires |last| <= 2
    ensures |last| > 0 && rec.requiresMods(cc, last[0]).Some? ==> r == rec.requiresMods(cc, last[0])
  {
    if |last| == 0 then None
    else if rec.requiresMods(cc, last[0]).Some? then rec.requiresMods(cc, last[0])
    else if |last| > 1 then rec.requiresMods(cc, last[1])
    else None
  }

  /** Either match is found exactly when one of the last lines is that
      directive. */
  lemma MatchesFound(last: seq<string>, rec: Recognizers, cc: string)
    requires |last| <= 2
    ensures SkipMatch(last, rec, cc).Some? <==> exists i :: 0 <= i < |last| && rec.skip(cc, last[i]).Some?
    ensures RequiresMatch(last, rec, cc).Some? <==> exists i :: 0 <= i < |last| && rec.requiresMods(cc, last[i]).Some?
  {
  }

  /** A skip match applies when it has no platform, or names `win32` on
      Windows. */
  predicate SkipApplies(marker: Option<string>, platform: string) {
    marker.None? || (Strip(marker.value) == "win32" && platform == "win32")
  }

  /** `entry.strip().splitlines()`. */
  function ChunkLines(text: string): seq<string> {
    SplitLines(Strip(text))
  }

  /** `any(...)`: some line of the chunk, stripped, is a skip-all
      directive. */
  predicate HasSkipAll(lines: seq<string>, rec: Recognizers, cc: string)
    decreases |lines|
  {
    |lines| > 0 && (rec.skipAll(cc, Strip(lines[0])) || HasSkipAll(lines[1..], rec, cc))
  }

  /** What the last lines of a chunk decide when no line is a skip-all
      directive: an applicable skip directive sets `skip_next`; otherwise a
      requires directive sets `required`. */
  function LastLinesEffect(last: seq<string>, rec: Recognizers, cc: string, platform: string): (r: Directives)
    requires |last| <= 2
    ensures !r.skipAll
    ensures r.skipNext ==> r.required == []
  {
    var skip := SkipMatch(last, rec, cc);
    if skip.Some? && SkipApplies(skip.value, platform) then Directives([], true, false)
    else
      var req := RequiresMatch(last, rec, cc);
      Directives(if req.Some? then SplitRequires(req.value) else [], false, false)
  }

  /** What the lines of one text chunk decide by themselves: the modules
      required and whether to skip the next examples, or that every later
      example is skipped. */
  function ChunkEffect(lines: seq<string>, rec: Recognizers, cc: string, platform: string): (r: Directives)
    ensures r.skipAll <==> HasSkipAll(lines, rec, cc)
    ensures r.skipAll || lines == [] ==> r.required == [] && !r.skipNext
    ensures r.skipNext ==> r.required == []
  {
    if HasSkipAll(lines, rec, cc) then Directives([], false, true)
    else LastLinesEffect(LastTwo(lines), rec, cc, platform)
  }

  /** What one non-empty text chunk does to the state: `required` and
      `skip_next` are reset and then set by the chunk alone, and `skip_all`
      once set stays set. */
  function ScanText(st: Directives, text: string, rec: Recognizers, cc: string, platform: string): (r: Directives)
    ensures r.skipAll <==> st.skipAll || HasSkipAll(ChunkLines(text), rec, cc)
  {
    var effect := ChunkEffect(ChunkLines(text), rec, cc, platform);
    Directives(effect.required, effect.skipNext, st.skipAll || effect.skipAll)
  }

  /** A text chunk forgets the `required` list and the skip of the chunk
      before it: what it leaves is decided by its own lines alone. */
  lemma ScanTextResets(st1: Directives, st2: Directives, text: string, rec: Recognizers, cc: string, platform: string)
    ensures ScanText(st1, text, rec, cc, platform).required == ScanText(st2, text, rec, cc, platform).required
    ensures ScanText(st1, text, rec, cc, platform).skipNext == ScanText(st2, text, rec, cc, platform).skipNext
  {
  }

  /** Only the last two lines of a chunk can hold a skip or requires
      directive that takes effect: chunks whose last two lines agree, and
      that hold no skip-all line, have the same effect. */
  lemma OnlyLastTwoLinesCount(lines1: seq<string>, lines2: seq<string>, rec: Recognizers, cc: string, platform: string)
    requires LastTwo(lines1) == LastTwo(lines2)
    requires !HasSkipAll(lines1, rec, cc) && !HasSkipAll(lines2, rec, cc)
    ensures ChunkEffect(lines1, rec, cc, platform) == ChunkEffect(lines2, rec, cc, platform)
  {
  }

  /** A `doctest-skip` without a platform on the last line sets `skip_next`
      and clears `required` when the line before it is not a skip
      directive. */
  lemma PlainSkipSetsSkipNext(lines: seq<string>, rec: Recognizers, cc: string, platform: string)
    requires |lines| > 0 && rec.skip(cc, lines[|lines| - 1]) == Some(None)
    requires |lines| >= 2 ==> rec.skip(cc, lines[|lines| - 2]).None?
    requires !HasSkipAll(lines, rec, cc)
    ensures ChunkEffect(lines, rec, cc, platform).skipNext
    ensures ChunkEffect(lines, rec, cc, platform).required == []
  {
    var last := LastTwo(lines);
    assert last[|last| - 1] == lines[|lines| - 1];
    if |lines| >= 2 {
      assert last[0] == lines[|lines| - 2];
    }
    assert SkipMatch(last, rec, cc) == Some(None);
  }

  /** `matches[0] or matches[1]` prefers the second-to-last line: a skip
      directive there for another platform hides a plain skip directive on
      the last line, and nothing is skipped. */
  lemma PlatformSkipHidesLaterSkip(lines: seq<string>, rec: Recognizers, cc: string, platform: string, marker: string)
    requires |lines| >= 2 && rec.skip(cc, lines[|lines| - 2]) == Some(Some(marker))
    requires !SkipApplies(Some(marker), platform)
    requires !HasSkipAll(lines, rec, cc)
    ensures !ChunkEffect(lines, rec, cc, platform).skipNext
  {
    var last := LastTwo(lines);
    assert last[0] == lines[|lines| - 2];
  }

  /** A requires directive on the last line, with no skip or requires
      directive on the line before, sets `required` to the names it lists
      unless the line is also an applicable skip directive. */
  lemma RequiresSetsRequired(lines: seq<string>, rec: Recognizers, cc: string, platform: string, mods: string)
    requires |lines| > 0 && rec.requiresMods(cc, lines[|lines| - 1]) == Some(mods)
    requires rec.skip(cc, lines[|lines| - 1]).None?
    requires |lines| >= 2 ==> rec.skip(cc, lines[|lines| - 2]).None? && rec.requiresMods(cc, lines[|lines| - 2]).None?
    requires !HasSkipAll(lines, rec, cc)
    ensures ChunkEffect(lines, rec, cc, platform).required == SplitRequires(mods)
    ensures !ChunkEffect(lines, rec, cc, platform).skipNext
  {
    var last := LastTwo(lines);
    assert last[|last| - 1] == lines[|lines| - 1];
    if |lines| >= 2 {
      assert last[0] == lines[|lines| - 2];
    }
    assert RequiresMatch(last, rec, cc) == Some(mods);
  }

  // ---------------------------------------------------------------------------
  // Examples
  // ---------------------------------------------------------------------------

  /** A `doctest.Example`: the parts `parse` reads or changes. */
  datatype Example = Example(source: string, want: string, options: map<OptionFlag, bool>)

  /** `doctest.Example(source, want)`: the source ends in a newline, so
      does a non-empty `want`, and no option is set. */
  function NewExample(source: string, want: string): (e: Example)
    ensures |e.source| > 0 && e.source[|e.source| - 1] == '\n'
    ensures e.source[..|e.source| - 1] == source || e.source == source
    ensures e.want == "" <==> want == ""
    ensures e.options == map[]
  {
    Example(WithNewline(source), if want == "" then "" else WithNewline(want), map[])
  }

  function WithNewline(s: string): string {
    if |s| > 0 && s[|s| - 1] == '\n' then s else s + "\n"
  }

  /** An item of what the standard parser returns. */
  datatype Entry = Text(text: string) | Ex(example: Example)

  /** `options.get(flag, False)`. */
  function Get(options: map<OptionFlag, bool>, flag: OptionFlag): bool {
    flag in options && options[flag]
  }

  /** The first line of a wrapped source: the context manager that
      silences warnings. */
  const WarningsHeader := "with _doctestplus_ignore_all_warnings():"

  /** The source of an `IGNORE_WARNINGS` example, run inside the context
      manager. */
  function Wrapped(source: string): string {
    WarningsHeader + "\n" + Indent(source, "    ")
  }

  function Lines(text: string): seq<string> {
    SplitOn(text, "\n")
  }

  /** A wrapped source is the header line followed by every line of the
      source, indented by four spaces unless it is blank. */
  lemma WrappedLines(source: string)
    ensures Lines(Wrapped(source)) == [WarningsHeader] + MapPieces(Lines(source), line => PrefixLine(line, "    "))
  {
    assert '\n' !in WarningsHeader;
    SplitLeadingPiece(WarningsHeader, '\n', Indent(source, "    "));
  }

  /** Whether an example is skipped: a skip-all or skip directive is in
      force, a required module is missing, or it needs remote data that is
      not allowed. */
  predicate Skipped(st: Directives, modulesOk: bool, options: map<OptionFlag, bool>, remoteData: string) {
    || st.skipAll || st.skipNext || !modulesOk
    || (remoteData != "any" && Get(options, RemoteData))
  }

  /** The options of an example after `parse`. */
  function MarkSkipped(options: map<OptionFlag, bool>, st: Directives, modulesOk: bool, remoteData: string): map<OptionFlag, bool> {
    if Skipped(st, modulesOk, options, remoteData) then options[Skip := true] else options
  }

  /** `SKIP` is set exactly when the example is skipped or was marked
      `SKIP` already, and no other option changes. */
  lemma MarkSkippedOnlySetsSkip(options: map<OptionFlag, bool>, st: Directives, modulesOk: bool, remoteData: string)
    ensures var r := MarkSkipped(options, st, modulesOk, remoteData);
      && (Get(r, Skip) <==> Get(options, Skip) || Skipped(st, modulesOk, options, remoteData))
      && (forall f :: f != Skip ==> (f in r <==> f in options) && (f in r ==> r[f] == options[f]))
  {
  }

  /** An example as `parse` leaves it under the directives `st`: wrapped
      when it ignores warnings, marked `SKIP` when it is skipped. */
  function Handled(e: Example, st: Directives, modulesOk: bool, remoteData: string): Example {
    Example(
      if Get(e.options, IgnoreWarnings) then Wrapped(e.source) else e.source,
      e.want,
      MarkSkipped(e.options, st, modulesOk, remoteData))
  }

  /** The two updates of an example's options: `SKIP` for the directives
      and missing modules, then `SKIP` for remote data. */
  method SkipOptions(options: map<OptionFlag, bool>, st: Directives, hasRequiredModules: bool, remoteData: string)
      returns (r: map<OptionFlag, bool>)
    ensures r == MarkSkipped(options, st, hasRequiredModules, remoteData)
  {
    r := options;
    if st.skipAll || st.skipNext || !hasRequiredModules {
      r := r[Skip := true];
    }
    if remoteData != "any" && Get(r, RemoteData) {
      r := r[Skip := true];
    }
  }

  /** The handling of one example under the directives in force; the
      required modules go through the finder's cache. */
  method ProcessExample(e: Example, st: Directives, finder: DocTestFinderPlus, remoteData: string)
      returns (r: Example, wrapped: bool)
    requires finder.Valid()
    modifies finder
    ensures finder.Valid()
    ensures finder.queries == old(finder.queries) + Queried(st.required, old(finder.importCache), finder.available)
    ensures wrapped == Get(e.options, IgnoreWarnings)
    ensures r == Handled(e, st, AllAvailable(st.required, finder.available), remoteData)
  {
    r := e;
    wrapped := Get(e.options, IgnoreWarnings);
    if wrapped {
      r := r.(source := Wrapped(r.source));
    }
    var hasRequiredModules := finder.CheckRequiredModules(st.required);
    var options := SkipOptions(r.options, st, hasRequiredModules, remoteData);
    r := r.(options := options);
  }

  // ---------------------------------------------------------------------------
  // parse
  // ---------------------------------------------------------------------------

  /** What `parse` is told besides the text: the recognisers, the comment
      characters by extension, `sys.platform`, the `remote_data` option and
      the source of the context-manager definition. */
  datatype ParseConfig = ParseConfig(
    rec: Recognizers,
    commentChars: map<string, string>,
    platform: string,
    remoteData: string,
    contextSource: string)

  /** The state in force at entry `i`: every non-empty text chunk before
      it read in order. */
  function StateBefore(entries: seq<Entry>, i: nat, cc: string, cfg: ParseConfig): Directives
    requires i <= |entries|
    decreases i
  {
    if i == 0 then Initial
    else
      var st := StateBefore(entries, i - 1, cc, cfg);
      match entries[i - 1]
      case Text(t) => if t == "" then st else ScanText(st, t, cfg.rec, cc, cfg.platform)
      case Ex(_) => st
  }

  /** Once a skip-all directive is read, every later example is skipped. */
  lemma {:induction false} SkipAllPersists(entries: seq<Entry>, i: nat, j: nat, cc: string, cfg: ParseConfig)
    requires i <= j <= |entries|
    requires StateBefore(entries, i, cc, cfg).skipAll
    ensures StateBefore(entries, j, cc, cfg).skipAll
    decreases j - i
  {
    if i == j {
    } else {
      SkipAllStep(entries, i, cc, cfg);
      SkipAllPersists(entries, i + 1, j, cc, cfg);
    }
  }

  lemma SkipAllStep(entries: seq<Entry>, i: nat, cc: string, cfg: ParseConfig)
    requires i < |entries|
    requires StateBefore(entries, i, cc, cfg).skipAll
    ensures StateBefore(entries, i + 1, cc, cfg).skipAll
  {
  }

  /** An entry as `parse` leaves it: text is kept, an example is handled
      under the state in force. */
  function HandledEntry(entry: Entry, st: Directives, available: string -> bool, remoteData: string): Entry {
    match entry
    case Text(_) => entry
    case Ex(e) => Ex(Handled(e, st, AllAvailable(st.required, available), remoteData))
  }

  /** The first `k` entries as `parse` leaves them: each handled under the
      state before it. */
  function HandledPrefix(entries: seq<Entry>, k: nat, cc: string, cfg: ParseConfig, available: string -> bool): (r: seq<Entry>)
    requires k <= |entries|
    ensures |r| == k
  {
    seq(k, j requires 0 <= j < k => HandledEntry(entries[j], StateBefore(entries, j, cc, cfg), available, cfg.remoteData))
  }

  /** `parse` handles one more entry at a time, in order. */
  lemma HandledPrefixNext(entries: seq<Entry>, k: nat, cc: string, cfg: ParseConfig, available: string -> bool)
    requires k < |entries|
    ensures HandledPrefix(entries, k + 1, cc, cfg, available)
      == HandledPrefix(entries, k, cc, cfg, available) + [HandledEntry(entries[k], StateBefore(entries, k, cc, cfg), available, cfg.remoteData)]
  {
    var longer := HandledPrefix(entries, k + 1, cc, cfg, available);
    var shorter := HandledPrefix(entries, k, cc, cfg, available);
    forall j | 0 <= j < k
      ensures longer[j] == shorter[j]
    {
    }
  }

  /** Some example among the first `k` entries ignores warnings. */
  predicate NeedsContext(entries: seq<Entry>, k: nat)
    requires k <= |entries|
    decreases k
  {
    k > 0 && (NeedsContext(entries, k - 1) || (entries[k - 1].Ex? && Get(entries[k - 1].example.options, IgnoreWarnings)))
  }

  lemma {:induction false} NeedsContextSome(entries: seq<Entry>, k: nat)
    requires k <= |entries|
    ensures NeedsContext(entries, k) <==>
      exists j :: 0 <= j < k && entries[j].Ex? && Get(entries[j].example.options, IgnoreWarnings)
    decreases k
  {
    if k > 0 {
      NeedsContextSome(entries, k - 1);
    }
  }

  /** `parse(s, name)` given what the standard parser made of `s`: every
      example is wrapped when it ignores warnings and gets `SKIP` when the
      directives before it, its required modules or its need for remote
      data say so; the definition of the context manager is put in front
      exactly when some example was wrapped. */
  method Parse(entries: seq<Entry>, name: Option<string>, finder: DocTestFinderPlus, cfg: ParseConfig)
      returns (result: seq<Entry>)
    requires ".rst" in cfg.commentChars
    requires finder.Valid()
    modifies finder
    ensures finder.Valid()
    ensures var handled := HandledPrefix(entries, |entries|, CommentChar(name, cfg.commentChars), cfg, finder.available);
      && (NeedsContext(entries, |entries|) ==> result == [Ex(NewExample(cfg.contextSource, ""))] + handled)
      && (!NeedsContext(entries, |entries|) ==> result == handled)
  {
    var cc := CommentChar(name, cfg.commentChars);
    var st := Initial;
    var anyWrapped := false;
    result := [];
    for i := 0 to |entries|
      invariant finder.Valid()
      invariant st == StateBefore(entries, i, cc, cfg)
      invariant anyWrapped == NeedsContext(entries, i)
      invariant result == HandledPrefix(entries, i, cc, cfg, finder.available)
    {
      HandledPrefixNext(entries, i, cc, cfg, finder.available);
      match entries[i]
      case Text(t) =>
        if t != "" {
          st := ScanText(st, t, cfg.rec, cc, cfg.platform);
        }
        result := result + [entries[i]];
      case Ex(e) =>
        var handled, wrapped := ProcessExample(e, st, finder, cfg.remoteData);
        anyWrapped := anyWrapped || wrapped;
        result := result + [Ex(handled)];
    }
    if anyWrapped {
      result := [Ex(NewExample(cfg.contextSource, ""))] + result;
    }
  }

  /** What `parse` returns, entry by entry: each of the original entries,
      handled under the directives before it, after the context-manager
      definition exactly when some example ignores warnings. */
  lemma ParseEntries(entries: seq<Entry>, cc: string, cfg: ParseConfig, available: string -> bool, result: seq<Entry>)
    requires NeedsContext(entries, |entries|) ==>
      result == [Ex(NewExample(cfg.contextSource, ""))] + HandledPrefix(entries, |entries|, cc, cfg, available)
    requires !NeedsContext(entries, |entries|) ==> result == HandledPrefix(entries, |entries|, cc, cfg, available)
    ensures NeedsContext(entries, |entries|) <==>
      exists j :: 0 <= j < |entries| && entries[j].Ex? && Get(entries[j].example.options, IgnoreWarnings)
    ensures NeedsContext(entries, |entries|) ==>
      && |result| == |entries| + 1 && result[0] == Ex(NewExample(cfg.contextSource, ""))
      && forall j :: 0 <= j < |entries| ==>
        result[j + 1] == HandledEntry(entries[j], StateBefore(entries, j, cc, cfg), available, cfg.remoteData)
    ensures !NeedsContext(entries, |entries|) ==>
      && |result| == |entries|
      && forall j :: 0 <= j < |entries| ==>
        result[j] == HandledEntry(entries[j], StateBefore(entries, j, cc, cfg), available, cfg.remoteData)
  {
    NeedsContextSome(entries, |entries|);
    var handled := HandledPrefix(entries, |entries|, cc, cfg, available);
    if NeedsContext(entries, |entries|) {
      forall j | 0 <= j < |entries|
        ensures result[j + 1] == HandledEntry(entries[j], StateBefore(entries, j, cc, cfg), available, cfg.remoteData)
      {
        assert result[j + 1] == handled[j];
      }
    } else {
      forall j | 0 <= j < |entries|
        ensures result[j] == HandledEntry(entries[j], StateBefore(entries, j, cc, cfg), available, cfg.remoteData)
      {
      }
    }
  }

  /** After a `doctest-skip-all` directive every later example is marked
      `SKIP`, whatever else it says. */
  lemma SkipAllSkipsLater(entries: seq<Entry>, i: nat, j: nat, cc: string, cfg: ParseConfig, available: string -> bool)
    requires i <= j < |entries| && entries[j].Ex?
    requires StateBefore(entries, i, cc, cfg).skipAll
    ensures Get(HandledEntry(entries[j], StateBefore(entries, j, cc, cfg), available, cfg.remoteData).example.options, Skip)
  {
    SkipAllPersists(entries, i, j, cc, cfg);
    var st := StateBefore(entries, j, cc, cfg);
    MarkSkippedOnlySetsSkip(entries[j].example.options, st, AllAvailable(st.required, available), cfg.remoteData);
  }

  /** An example with no directive in force, all its modules present and
      no need for remote data it may not have keeps its options. */
  lemma UnskippedKeepsOptions(e: Example, st: Directives, modulesOk: bool, remoteData: string)
    requires !st.skipAll && !st.skipNext && modulesOk
    requires remoteData == "any" || !Get(e.options, RemoteData)
    ensures Handled(e, st, modulesOk, remoteData).options == e.options
    ensures Get(e.options, IgnoreWarnings) ==> Handled(e, st, modulesOk, remoteData).source == Wrapped(e.source)
    ensures !Get(e.options, IgnoreWarnings) ==> Handled(e, st, modulesOk, remoteData) == e
  {
  }
}
