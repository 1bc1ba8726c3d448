# pytest-doctestplus, modelled in Dafny

This project models the core of the pytest-doctestplus plugin and proves
properties of it. The plugin extends Python's doctest support in pytest in
five ways:

- **Output checker.** A replacement for doctest's `OutputChecker` handles
  the `FLOAT_CMP` flag. It compares the numbers in the expected and the
  actual output by value, within a tolerance. This works inside
  `...` ellipses too, through `startswith`, `endswith`, `find` and
  `partial_match`. The same checker honours the `IGNORE_OUTPUT*` flags and
  the `FIX` flag.
- **Option flags.** `get_optionflags` turns the `doctest_optionflags` ini
  list into a flag word.
- **Directive parser.** `DocTestParserPlus.parse` reads the
  `doctest-skip`, `doctest-skip-all` and `doctest-requires` directives in
  text files. It marks the following examples `SKIP`, wraps
  `IGNORE_WARNINGS` examples in a warnings-silencing context, and skips
  `REMOTE_DATA` examples unless remote data is allowed.
- **Module finder.** `DocTestFinderPlus` filters the doctests of a module by
  its `__doctest_skip__` patterns and its `__doctest_requires__` modules.
  `check_required_modules` keeps a cache of import checks.
- **File collection and skip decorators.**
  `DoctestPlus.pytest_collect_file` decides which files become doctest
  items. The `doctest_skip` and `doctest_skipif` decorators record which
  objects to skip.

The modules follow the source files:

- `chunk_match.dfy` and `output_checker.dfy` model `output_checker.py`.
- `option_flags.dfy`, `doctest_finder.dfy`, `collection.dfy` and
  `directive_parser.dfy` model `plugin.py`.
- `skipping.dfy` models `skipping.py`.
- `text_ops.dfy` models the Python string operations they use: `split`,
  `join`, `strip`, `splitlines` and `textwrap.indent`.
- `base.dfy` holds `Option` and `Result`. An `Err` carries the Python
  exception raised (`ValueError`, `KeyError`).

How the model represents the source:

- **Flags.** A flag word is a set of flags. doctest gives every registered
  name its own bit, so `flags & F` is `F in flags` and `|` is union.
- **Given operations.** The parts of the program that are regular
  expressions, float parsing, `fnmatch`, the module importability check
  and the standard library checker are given as function-valued
  parameters or fields. They are not re-implemented.
- **State changed in place.** `SHOULD_SKIP`, the import cache, the caller's
  chunk list in `partial_match` and `_ignore_paths` are fields of classes.
  The methods on those classes update the fields.

## Model

| member | source | states |
|---|---|---|
| TextOps.SplitOn | pytest_doctestplus/output_checker.py:259 | `str.split(sep)` always yields at least one piece |
| TextOps.JoinSplit | pytest_doctestplus/output_checker.py:259 | joining the pieces of a split with the separator gives back the text |
| TextOps.SplitPiecesAvoidSeparator | pytest_doctestplus/output_checker.py:225-229 | no piece of a split on one character contains that character |
| TextOps.SplitJoin | pytest_doctestplus/output_checker.py:225-229 | splitting a join of separator-free pieces gives back the pieces |
| TextOps.LinewiseRewrite | pytest_doctestplus/output_checker.py:225-229 | rewriting each line with a function that adds no line end leaves exactly the rewritten lines |
| TextOps.MapPieces | pytest_doctestplus/output_checker.py:257-260 | the list comprehension: same length, element i is f of piece i |
| TextOps.Words | pytest_doctestplus/output_checker.py:235-236 | `str.split()` gives only non-empty words without whitespace |
| TextOps.JoinedWordsSingleSpaced | pytest_doctestplus/output_checker.py:235-236 | `' '.join` of words has no two adjacent whitespace characters, and its only whitespace is single spaces |
| TextOps.WordsOfJoin | pytest_doctestplus/output_checker.py:235-236 | splitting `' '.join(words)` gives back the words |
| TextOps.WordsOfAllSpace | pytest_doctestplus/output_checker.py:235-236 | a whitespace-only text has no words |
| TextOps.WordsAroundSpace | pytest_doctestplus/output_checker.py:235-236 | the words of a text split at a whitespace character are the words of its two sides |
| TextOps.WordsOfJoinedLines | pytest_doctestplus/output_checker.py:229-236 | lines with the same words, joined at line ends, give texts with the same words |
| TextOps.CollapseWhitespace | pytest_doctestplus/output_checker.py:235-236 | the `NORMALIZE_WHITESPACE` rewrite yields single-spaced text |
| TextOps.CollapseWhitespaceIdempotent | pytest_doctestplus/output_checker.py:235-236 | collapsing whitespace twice is the same as once |
| TextOps.StripLeftRemovesLeadingSpace | pytest_doctestplus/plugin.py:286 | `lstrip` drops exactly a leading whitespace run; the result starts with non-whitespace or is empty |
| TextOps.StripRightRemovesTrailingSpace | pytest_doctestplus/plugin.py:286 | `rstrip` drops exactly a trailing whitespace run; the result ends with non-whitespace or is empty |
| TextOps.StripRemovesOuterSpace | pytest_doctestplus/plugin.py:286 | `strip` yields a slice of the text surrounded by whitespace only, with no outer whitespace left |
| TextOps.SplitLinesJoin | pytest_doctestplus/plugin.py:286 | `splitlines` yields lines without line ends, none for empty text, and joining them (plus a final newline if there was one) gives back the text |
| TextOps.Indent | pytest_doctestplus/plugin.py:20-23 | `indent` prefixes exactly the lines that hold non-whitespace and keeps the line structure |
| OptionFlags.FlagByName | pytest_doctestplus/output_checker.py:19-30 | looking a name up in the registry finds only a flag registered under that name |
| OptionFlags.FlagNameRoundTrip | pytest_doctestplus/output_checker.py:19-30 | every registered flag is found under its own name, so names are distinct |
| OptionFlags.GetOptionflags | pytest_doctestplus/plugin.py:120-125 | succeeds iff every name is registered; the result holds exactly the named flags; otherwise a KeyError for the first unknown name; the empty list gives no flags |
| ChunkMatch.Reverse | pytest_doctestplus/output_checker.py:142 | `[::-1]`: same length, element k is element n-1-k |
| ChunkMatch.StartsWith | pytest_doctestplus/output_checker.py:117-132 | true iff every prefix token is close to the array token at its position; true for an empty prefix; false when the array is shorter |
| ChunkMatch.SuffixIsReversedPrefix | pytest_doctestplus/output_checker.py:134-142 | matching at the end of an array is the same as matching the reversed postfix at the start of the reversed array |
| ChunkMatch.EndsWith | pytest_doctestplus/output_checker.py:134-142 | true iff the postfix matches the last tokens; true for an empty postfix; false when the array is shorter |
| ChunkMatch.Leftmost | pytest_doctestplus/output_checker.py:152-153 | an empty chunk is found at `start`; otherwise the result is -1 or an index |
| ChunkMatch.LeftmostIsLeftmost | pytest_doctestplus/output_checker.py:144-161 | a result of at least 0 is a placement of the chunk inside `[start, end)`, and no placement lies to its left; -1 means there is none |
| ChunkMatch.LeftmostFits | pytest_doctestplus/output_checker.py:154-160 | a found chunk lies between `start` and `end` |
| ChunkMatch.Find | pytest_doctestplus/output_checker.py:144-161 | `find` returns the leftmost placement in the window (the loop is proved against it) |
| ChunkMatch.GreedySound | pytest_doctestplus/output_checker.py:203-209 | when the greedy leftmost scan succeeds, the chunks have an in-order, non-overlapping placement |
| ChunkMatch.GreedyComplete | pytest_doctestplus/output_checker.py:203-209 | when any in-order, non-overlapping placement exists, the greedy scan succeeds |
| ChunkMatch.GreedyIffPlacement | pytest_doctestplus/output_checker.py:203-209 | the greedy scan succeeds iff a placement exists |
| ChunkMatch.PlaceInOrder | pytest_doctestplus/output_checker.py:203-209 | the loop of `partial_match` answers the greedy scan |
| ChunkMatch.PartialMatchCorrect | pytest_doctestplus/output_checker.py:163-209 | `partial_match` holds iff the chunks can be placed in order without overlap, the first at the start and the last at the end of the array |
| ChunkMatch.PartialMatchToPlacement | pytest_doctestplus/output_checker.py:183-209 | every success of `partial_match` yields such an anchored placement |
| ChunkMatch.PlacementToPartialMatch | pytest_doctestplus/output_checker.py:183-209 | every anchored placement makes `partial_match` succeed |
| ChunkMatch.PartialMatchesMonotone | pytest_doctestplus/output_checker.py:106-115 | a looser float comparison never turns a partial match into a failure |
| ChunkMatch.ChunkList.constructor | pytest_doctestplus/output_checker.py:163 | the caller's list of chunks |
| ChunkMatch.PartialMatch | pytest_doctestplus/output_checker.py:163-209 | the answer is the anchored-placement test on the original chunks; the caller's list loses exactly the matched non-empty first and last chunks |
| OutputChecker.StripBlanklineMarkers | pytest_doctestplus/output_checker.py:223-226 | each `<BLANKLINE>` line becomes empty, other lines are kept, and no marker line remains |
| OutputChecker.ClearWhitespaceLines | pytest_doctestplus/output_checker.py:229 | each whitespace-only line of `got` becomes empty, and other lines are kept |
| OutputChecker.WantChunks | pytest_doctestplus/output_checker.py:257-260 | one number chunk per `...`-separated piece of `want`, chunk i being the numbers found in piece i |
| OutputChecker.NormalizeFloats | pytest_doctestplus/output_checker.py:211-273 | the method answers the float-comparison relation |
| OutputChecker.PreparedEqualMatches | pytest_doctestplus/output_checker.py:238-241 | texts equal after the blank-line and whitespace steps always match |
| OutputChecker.MatchesItself | pytest_doctestplus/output_checker.py:221-241 | with `DONT_ACCEPT_BLANKLINE` among the flags, any output matches itself |
| OutputChecker.WhitespaceLineMismatchesItself | pytest_doctestplus/output_checker.py:223-251 | without `DONT_ACCEPT_BLANKLINE` a text need not match itself: a whitespace-only line is emptied in `got` but kept in `want` |
| OutputChecker.BlanklineMarkerMatches | pytest_doctestplus/output_checker.py:221-229 | without `DONT_ACCEPT_BLANKLINE`, a `<BLANKLINE>` line matches an empty or whitespace-only line |
| OutputChecker.ClearingKeepsWords | pytest_doctestplus/output_checker.py:229 | emptying the whitespace-only lines of `got` keeps its words |
| OutputChecker.UnmarkedWantKept | pytest_doctestplus/output_checker.py:223-226 | a `want` without `<BLANKLINE>` lines is unchanged by the marker rewrite |
| OutputChecker.WhitespaceInsensitive | pytest_doctestplus/output_checker.py:221-241 | with `NORMALIZE_WHITESPACE`, texts with the same words match, when `DONT_ACCEPT_BLANKLINE` is set or `want` has no `<BLANKLINE>` line |
| OutputChecker.MatchWithoutEllipsis | pytest_doctestplus/output_checker.py:243-273 | without `ELLIPSIS`, differing texts match iff they agree with numbers masked and their numbers are pairwise close |
| OutputChecker.MatchWithEllipsis | pytest_doctestplus/output_checker.py:243-262 | with `ELLIPSIS` and a `...` in `want`, differing texts match iff the masked texts match with ellipses and the number chunks have an anchored placement |
| OutputChecker.LooserToleranceKeepsMatch | pytest_doctestplus/output_checker.py:106-115 | widening the tolerance never turns a match into a mismatch |
| OutputChecker.CheckOutput | pytest_doctestplus/output_checker.py:275-289 | ignored output (`IGNORE_OUTPUT`, or `IGNORE_OUTPUT_2`/`_3` by Python version) passes; otherwise `FIX` rewrites first, then `FLOAT_CMP` selects the float comparison and anything else the standard checker |
| Skipping.Evaluate | pytest_doctestplus/skipping.py:43-49 | a bool (or 1/0) gives itself, a callable gives its result, anything else is a ValueError |
| Skipping.SkipTable.constructor | pytest_doctestplus/skipping.py:6 | `SHOULD_SKIP` starts empty |
| Skipping.SkipTable.DoctestSkip | pytest_doctestplus/skipping.py:8-18 | the decorator returns the object and records it as unconditionally skipped; nothing else changes |
| Skipping.SkipTable.DoctestSkipIf | pytest_doctestplus/skipping.py:20-35 | an invalid condition is a ValueError and leaves the table alone; a valid one is recorded so that lookup gives its truth |
| Skipping.SkipTable.GetShouldSkip | pytest_doctestplus/skipping.py:37-49 | unknown objects are not skipped; known ones give the truth of their condition, which never fails on a table the decorators wrote |
| DocTestFinder.FirstMissing | pytest_doctestplus/plugin.py:508-518 | the index of the first unavailable module; all are available iff there is none |
| DocTestFinder.Queried | pytest_doctestplus/plugin.py:508-518 | the checker is asked about a prefix of the list that stops at the first missing module |
| DocTestFinder.QueriedUpTo | pytest_doctestplus/plugin.py:509-517 | the check stops at the first missing module, before asking the checker when a failure is cached |
| DocTestFinder.CachedFailureSkipsChecker | pytest_doctestplus/plugin.py:509-511 | a first module cached as missing is answered without asking the checker |
| DocTestFinder.KeyPatterns | pytest_doctestplus/plugin.py:541-542 | a single pattern key stands for itself; a tuple key for all its patterns |
| DocTestFinder.FilterKept | pytest_doctestplus/plugin.py:550 | filtering never lengthens the list |
| DocTestFinder.FilterKeptMembers | pytest_doctestplus/plugin.py:530-550 | a test is kept iff no skip pattern drops it and every matching requirement is met |
| DocTestFinder.StarSkipsEverything | pytest_doctestplus/plugin.py:531-533 | the pattern `*` drops every test |
| DocTestFinder.FilterNameAsWritten | pytest_doctestplus/plugin.py:522-528 | as written: a name is found only when none was passed and `__name__` exists |
| DocTestFinder.PassedNameRefused | pytest_doctestplus/plugin.py:522-528 | as written, passing a name raises ValueError |
| DocTestFinder.FilterName | pytest_doctestplus/plugin.py:522-528 | corrected: a passed name is used, else `__name__`, else a ValueError |
| DocTestFinder.FilterNameExtendsAsWritten | pytest_doctestplus/plugin.py:522-528 | the correction agrees wherever the code as written succeeds, and differs only when a name was passed |
| DocTestFinder.DocTestFinderPlus.constructor | pytest_doctestplus/plugin.py:490-492 | the import cache starts empty |
| DocTestFinder.DocTestFinderPlus.CheckRequiredModules | pytest_doctestplus/plugin.py:494-518 | true iff every module is available; the checker is asked about exactly the queried prefix; the cache gains exactly those entries |
| DocTestFinder.DocTestFinderPlus.TestFilter | pytest_doctestplus/plugin.py:530-548 | `test_filter` keeps a test iff it is kept by the filter's definition; the cache only grows |
| DocTestFinder.DocTestFinderPlus.FilterTests | pytest_doctestplus/plugin.py:550 | the filtered list is the kept sublist, in order |
| DocTestFinder.DocTestFinderPlus.Find | pytest_doctestplus/plugin.py:520-552 | objects without directives keep all tests; otherwise a name error is raised or the kept sublist is returned |
| Collection.LastIndex | pytest_doctestplus/plugin.py:476 | the index of the last occurrence, or -1 exactly when there is none |
| Collection.DoctestPlus.constructor | pytest_doctestplus/plugin.py:362-375 | stores the globs; no ignored paths yet |
| Collection.DoctestPlus.PytestCollectFile | pytest_doctestplus/plugin.py:416-482 | module items are `.py` files; text items are non-`.py`, non-private files outside generated docs; nothing under an ignored path is collected |
| Collection.PythonFiles | pytest_doctestplus/plugin.py:447-456 | a `.py` file becomes a module item iff it is not `conf.py` and not under an ignored path |
| Collection.TextFiles | pytest_doctestplus/plugin.py:447-482 | a non-`.py` file becomes a text-file item iff it is outside every ignored path, matches a doctest glob, is not private and is not generated docs; otherwise it is not collected |
| Collection.PrivateAboveDocsKept | pytest_doctestplus/plugin.py:465-478 | `/tmp/_q/docs/file.rst` is collected |
| Collection.BuildBelowDocsDropped | pytest_doctestplus/plugin.py:465-478 | `/tmp/docs/_build/file.rst` is not collected |
| Collection.LastDocsCounts | pytest_doctestplus/plugin.py:471-478 | only the last `docs` part counts: `/docs/_a/docs/index.rst` is collected |
| Collection.ApiBelowDocsDropped | pytest_doctestplus/plugin.py:469-478 | an `api` directory below `docs` is not collected |
| DirectiveParser.LastIndexOf | pytest_doctestplus/plugin.py:271 | the last occurrence of a character, or -1 exactly when there is none |
| DirectiveParser.Extension | pytest_doctestplus/plugin.py:271 | `splitext` gives an empty extension or a trailing `.`-started suffix of the file name |
| DirectiveParser.CommentCharAsWritten | pytest_doctestplus/plugin.py:271-277 | as written: a known extension gives its comment character; an unknown one reaches the `'rst'` lookup and raises KeyError |
| DirectiveParser.UnknownExtensionRaises | pytest_doctestplus/plugin.py:271-276 | with the plugin's table, every unknown extension raises KeyError('rst') |
| DirectiveParser.CommentChar | pytest_doctestplus/plugin.py:271-277 | corrected: a known extension gives its comment character, anything else the `.rst` one |
| DirectiveParser.CommentCharAgrees | pytest_doctestplus/plugin.py:271-277 | the correction agrees with the code as written wherever that succeeds |
| DirectiveParser.SpaceRun | pytest_doctestplus/plugin.py:325 | `\s*` matches a maximal whitespace run |
| DirectiveParser.SeparatorAt | pytest_doctestplus/plugin.py:325 | the separator pattern matches a run of whitespace and commas, and nothing when the text starts with a name character |
| DirectiveParser.SplitRequires | pytest_doctestplus/plugin.py:325 | `re.split` yields at least one piece |
| DirectiveParser.SplitRequiresNames | pytest_doctestplus/plugin.py:325 | no piece contains a comma or whitespace |
| DirectiveParser.SplitRequiresKeepsNames | pytest_doctestplus/plugin.py:325 | the pieces, laid end to end, are the text with its separators removed |
| DirectiveParser.NameAlone | pytest_doctestplus/plugin.py:325 | a text without commas or whitespace is one piece |
| DirectiveParser.NameThenSeparator | pytest_doctestplus/plugin.py:325 | a name followed by a separator match is a whole piece: the split never cuts inside a name |
| DirectiveParser.TwoNamesSplit | pytest_doctestplus/plugin.py:325 | two names around a separator matched whole split into exactly the two names |
| DirectiveParser.RequiresSpellings | pytest_doctestplus/plugin.py:324-325 | for any names `a` and `b`, `a b`, `a,b` and `a, b` all give `[a, b]` |
| DirectiveParser.LastTwo | pytest_doctestplus/plugin.py:296 | `lines[-2:]` holds the last two lines, or all when fewer |
| DirectiveParser.SkipMatch | pytest_doctestplus/plugin.py:297-304 | a skip directive on the second-to-last line wins |
| DirectiveParser.RequiresMatch | pytest_doctestplus/plugin.py:314-321 | a requires directive on the second-to-last line wins |
| DirectiveParser.MatchesFound | pytest_doctestplus/plugin.py:297-321 | a skip or requires match is found iff one of the last two lines holds that directive |
| DirectiveParser.LastLinesEffect | pytest_doctestplus/plugin.py:294-325 | the last lines never set skip-all, and a skip leaves no requirements |
| DirectiveParser.ChunkEffect | pytest_doctestplus/plugin.py:283-325 | a text chunk sets skip-all iff one of its lines is the skip-all directive; skip-all or an empty chunk leaves no requirements and no skip |
| DirectiveParser.ScanText | pytest_doctestplus/plugin.py:281-325 | skip-all, once set, stays set |
| DirectiveParser.ScanTextResets | pytest_doctestplus/plugin.py:283-286 | a non-empty text chunk resets `required` and `skip_next`: they do not depend on the state before it |
| DirectiveParser.OnlyLastTwoLinesCount | pytest_doctestplus/plugin.py:294-299 | chunks with the same last two lines and no skip-all line have the same effect |
| DirectiveParser.PlainSkipSetsSkipNext | pytest_doctestplus/plugin.py:306-312 | a plain `doctest-skip` on the last line skips the next example |
| DirectiveParser.PlatformSkipHidesLaterSkip | pytest_doctestplus/plugin.py:301-312 | a skip for another platform on the second-to-last line hides a plain skip below it |
| DirectiveParser.RequiresSetsRequired | pytest_doctestplus/plugin.py:314-325 | a `doctest-requires` line sets `required` to the split module list |
| DirectiveParser.NewExample | pytest_doctestplus/plugin.py:345 | `doctest.Example` ends the source with a newline, keeps `want` empty iff it was, and sets no options |
| DirectiveParser.WrappedLines | pytest_doctestplus/plugin.py:330-332 | the wrapped source is the `with` header followed by the source lines indented by four spaces |
| DirectiveParser.MarkSkippedOnlySetsSkip | pytest_doctestplus/plugin.py:335-340 | `SKIP` is set iff already set or the example is skipped; no other option changes |
| DirectiveParser.SkipOptions | pytest_doctestplus/plugin.py:335-340 | the two `SKIP` updates give the skip marking |
| DirectiveParser.ProcessExample | pytest_doctestplus/plugin.py:326-340 | the example is wrapped iff it ignores warnings and is marked skipped as the directives, modules and remote data say; the module check runs once |
| DirectiveParser.SkipAllPersists | pytest_doctestplus/plugin.py:287-289 | once skip-all is set, it holds for every later entry |
| DirectiveParser.HandledPrefix | pytest_doctestplus/plugin.py:281-340 | the handled entries so far, one per entry |
| DirectiveParser.NeedsContextSome | pytest_doctestplus/plugin.py:330-333 | the warnings context is needed iff some example ignores warnings |
| DirectiveParser.Parse | pytest_doctestplus/plugin.py:259-347 | each entry is handled under the directives in force before it, and the context example is put first iff needed |
| DirectiveParser.ParseEntries | pytest_doctestplus/plugin.py:342-347 | the result has one more entry, the context example, exactly when some example ignores warnings; entry by entry the rest is the handled input |
| DirectiveParser.SkipAllSkipsLater | pytest_doctestplus/plugin.py:287-289 | after `doctest-skip-all`, every later example is marked `SKIP` |
| DirectiveParser.UnskippedKeepsOptions | pytest_doctestplus/plugin.py:326-340 | an example that nothing skips keeps its options, and only its source changes, when it ignores warnings |

## Left out

- Float parsing and `isclose`: `equal_floats` is a given two-place relation on number tokens (`close`). The tolerances `rtol`/`atol` and their set-up from the ini file and command line are not modelled.
- Regular expressions: `num_got_rgx`/`num_want_rgx`, the `do_fixes` rewrites and the three directive patterns of `parse` are given functions. The `<BLANKLINE>` and whitespace-line rewrites are written out line by line.
- `doctest._ellipsis_match` and the standard library's `OutputChecker.check_output` are given functions.
- `output_difference` only reports a failure. It decides nothing and is not modelled.
- `ModuleChecker.check` (utils.py) is the given predicate `available`. A module whose availability changes between checks is not modelled.
- `fnmatch` and `path.check(fnmatch=...)` are given predicates.
- `str.splitlines` is modelled with `\n` as the only line boundary. The other Unicode line boundaries and `\r\n` are not modelled.
- A `doctest.DocTest` is represented by its name only.
- Paths use `/` as the only separator (POSIX). The Windows separator `\`, which `os.path.sep` and py.path would use there, is not modelled.
- The option-flag registry is closed: the twenty flags doctest and this plugin register. Names that other code registers in `doctest.OPTIONFLAGS_BY_NAME` are not modelled and are treated as unknown.
- `sys.platform`, the `remote_data` option and `six.PY2` are parameters.
- `warnings.warn` is not modelled. Nor is the text of `IGNORE_WARNINGS_CONTEXT`, which is a parameter of `parse`.
- DirectiveParser.Parse: it returns the updated examples as new values. The source updates the `doctest.Example` objects that the standard parser just made, and nothing else refers to them yet.
- The standard `DocTestParser.parse`, which cuts a text into chunks and examples, is not modelled. Its output is the input of `DirectiveParser.Parse`.
- `IGNORE_WARNINGS` is imported from output_checker.py, but that file as given does not register it. The model treats it as a registered flag like the others.
- The pytest glue is not modelled: `pytest_configure`, `pytest_addoption`, `pytest_ignore_collect` (which fills `_ignore_paths`), and `DocTestModulePlus`/`DocTestTextfilePlus` collection and running.
- DocTestFinder.DocTestFinderPlus.Find: it uses the corrected name rule `FilterName`; the code as written is `FilterNameAsWritten` (see Findings).
- DirectiveParser.Parse: it uses the corrected comment-character rule `CommentChar`; the code as written is `CommentCharAsWritten` (see Findings).
- Skipping.SkipTable.DoctestSkipIf: the optional `reason` is accepted and ignored, as in the source. A callable condition is represented by the value its call returns.

## Findings

| source | as written | input that shows it | evidently intended | confidence | as-written member | corrected member |
|---|---|---|---|---|---|---|
| pytest_doctestplus/plugin.py:271-276 | the warning for an unknown file extension formats `comment_characters['rst']`, but the table's keys start with a dot, so this raises KeyError | `parse(s, name='notes.md')` | warn and use the `.rst` comment character, as the next line does | not executed | DirectiveParser.CommentCharAsWritten (DirectiveParser.UnknownExtensionRaises) | DirectiveParser.CommentChar (DirectiveParser.CommentCharAgrees) |
| pytest_doctestplus/plugin.py:522-528 | `find` raises ValueError whenever a name is passed, even when `__name__` exists, because the `else` covers `name is not None` too | `find(module, name='pkg.mod')` for a module with `__doctest_skip__` | use the passed name, and raise only when neither a name nor `__name__` is available | not executed | DocTestFinder.FilterNameAsWritten (DocTestFinder.PassedNameRefused) | DocTestFinder.FilterName (DocTestFinder.FilterNameExtendsAsWritten) |
