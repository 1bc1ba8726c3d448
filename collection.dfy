/** `DoctestPlus.pytest_collect_file`: which files become doctest items.
    Python files become module items; text files matched by a doctest glob
    become text-file items unless they are private or generated
    documentation. Paths are absolute and use `/` as the separator. */
module Collection {
  import opened TextOps

  datatype CollectedItem = NoItem | ModuleItem(path: string) | TextfileItem(path: string)

  /** `str(path).split(os.sep)`; an absolute path starts with an empty
      part. */
  function Parts(path: string): seq<string> {
    SplitOn(path, "/")
  }

  function Basename(path: string): string {
    Last(Parts(path))
  }

  function Last(parts: seq<string>): string
    requires |parts| > 0
  {
    parts[|parts| - 1]
  }

  /** `ignore_path.common(path) == ignore_path`: the ignored path is the
      path itself or one of its ancestor directories. */
  predicate Within(ignorePath: string, path: string) {
    var ip, pp := Parts(ignorePath), Parts(path);
    |ip| <= |pp| && pp[..|ip|] == ip
  }

  /** `len(parts) - 1 - parts[::-1].index(x)` when `x` is a part, -1
      otherwise. */
  function LastIndex(parts: seq<string>, x: string): (r: int)
    ensures -1 <= r < |parts|
    ensures r >= 0 ==> parts[r] == x && forall k :: r < k < |parts| ==> parts[k] != x
    ensures r == -1 <==> x !in parts
    decreases |parts|
  {
    if parts == [] then -1
    else if Last(parts) == x then |parts| - 1
    else LastIndex(parts[..|parts| - 1], x)
  }

  predicate Private(part: string) {
    |part| > 0 && part[0] == '_'
  }

  /** A file inside `docs` that lies in a private directory or in `api`
      below the last `docs` part (the file's own name included). */
  predicate GeneratedDocs(parts: seq<string>) {
    var d := LastIndex(parts, "docs");
    d >= 0 && exists j :: d <= j < |parts| && (Private(parts[j]) || parts[j] == "api")
  }

  predicate EndsWithPy(name: string) {
    |name| >= 3 && name[|name| - 3..] == ".py"
  }

  class DoctestPlus {
    /** `_file_globs`: the `--doctest-glob` patterns. */
    const fileGlobs: seq<string>
    /** `_ignore_paths`: the directories matched by
        `doctest_norecursedirs`, recorded during collection. */
    var ignorePaths: seq<string>

    constructor (fileGlobs: seq<string>)
      ensures this.fileGlobs == fileGlobs && ignorePaths == []
    {
      this.fileGlobs := fileGlobs;
      ignorePaths := [];
    }

    /** `pytest_collect_file(path, parent)`, with `path.check(fnmatch=pat)`
        given as `globMatch(path, pat)`. A path with extension `.py` is one
        whose name ends in `.py`. */
    function PytestCollectFile(path: string, globMatch: (string, string) -> bool): (r: CollectedItem)
      reads this
      ensures r.ModuleItem? ==> EndsWithPy(Basename(path)) && r.path == path
      ensures r.TextfileItem? ==>
        && !EndsWithPy(Basename(path)) && !Private(Basename(path)) && !GeneratedDocs(Parts(path))
        && r.path == path
      ensures r != NoItem ==> forall i :: 0 <= i < |ignorePaths| ==> !Within(ignorePaths[i], path)
    {
      if exists i :: 0 <= i < |ignorePaths| && Within(ignorePaths[i], path) then NoItem
      else if EndsWithPy(Basename(path)) then
        if Basename(path) == "conf.py" then NoItem else ModuleItem(path)
      else if exists i :: 0 <= i < |fileGlobs| && globMatch(path, fileGlobs[i]) then
        var parts := Parts(path);
        if Private(Basename(path)) then NoItem
        else if "docs" in parts && GeneratedDocs(parts) then NoItem
        else TextfileItem(path)
      else NoItem
    }
  }

  /** A Sphinx `conf.py` is never collected, and every other Python file
      outside the ignored directories is. */
  lemma PythonFiles(d: DoctestPlus, path: string, globMatch: (string, string) -> bool)
    requires EndsWithPy(Basename(path))
    ensures d.PytestCollectFile(path, globMatch) == ModuleItem(path) <==>
      Basename(path) != "conf.py" && forall i :: 0 <= i < |d.ignorePaths| ==> !Within(d.ignorePaths[i], path)
  {
  }

  /** A file that is not a Python file becomes a text-file item exactly
      when it lies outside the ignored directories, matches a doctest glob,
      is not private and is not generated documentation; otherwise it is
      not collected at all. */
  lemma TextFiles(d: DoctestPlus, path: string, globMatch: (string, string) -> bool)
    requires !EndsWithPy(Basename(path))
    ensures d.PytestCollectFile(path, globMatch) == TextfileItem(path) <==>
      && (forall i :: 0 <= i < |d.ignorePaths| ==> !Within(d.ignorePaths[i], path))
      && (exists i :: 0 <= i < |d.fileGlobs| && globMatch(path, d.fileGlobs[i]))
      && !Private(Basename(path))
      && !GeneratedDocs(Parts(path))
    ensures d.PytestCollectFile(path, globMatch) != TextfileItem(path) ==> d.PytestCollectFile(path, globMatch) == NoItem
  {
    if !("docs" in Parts(path)) {
      assert LastIndex(Parts(path), "docs") == -1;
    }
  }

  /** A private directory above `docs` does not stop a text file
      (`/tmp/_q/docs/file.rst`)... */
  lemma PrivateAboveDocsKept(d: DoctestPlus, path: string, globMatch: (string, string) -> bool)
    requires Parts(path) == ["", "tmp", "_q", "docs", "file.rst"]
    requires d.ignorePaths == []
    requires exists i :: 0 <= i < |d.fileGlobs| && globMatch(path, d.fileGlobs[i])
    ensures d.PytestCollectFile(path, globMatch) == TextfileItem(path)
  {
    assert LastIndex(Parts(path), "docs") == 3;
  }

  /** ...but one below it does (`/tmp/docs/_build/file.rst`). */
  lemma BuildBelowDocsDropped(d: DoctestPlus, path: string, globMatch: (string, string) -> bool)
    requires Parts(path) == ["", "tmp", "docs", "_build", "file.rst"]
    requires d.ignorePaths == []
    requires exists i :: 0 <= i < |d.fileGlobs| && globMatch(path, d.fileGlobs[i])
    ensures d.PytestCollectFile(path, globMatch) == NoItem
  {
    assert LastIndex(Parts(path), "docs") == 2;
    assert Private(Parts(path)[3]);
  }

  /** Only the last `docs` part counts (`/docs/_a/docs/index.rst` is
      collected)... */
  lemma LastDocsCounts(d: DoctestPlus, path: string, globMatch: (string, string) -> bool)
    requires Parts(path) == ["", "docs", "_a", "docs", "index.rst"]
    requires d.ignorePaths == []
    requires exists i :: 0 <= i < |d.fileGlobs| && globMatch(path, d.fileGlobs[i])
    ensures d.PytestCollectFile(path, globMatch) == TextfileItem(path)
  {
    assert LastIndex(Parts(path), "docs") == 3;
  }

  /** ...and an `api` directory below it is generated documentation
      (`/docs/api/x.rst`). */
  lemma ApiBelowDocsDropped(d: DoctestPlus, path: string, globMatch: (string, string) -> bool)
    requires Parts(path) == ["", "docs", "api", "x.rst"]
    requires d.ignorePaths == []
    requires exists i :: 0 <= i < |d.fileGlobs| && globMatch(path, d.fileGlobs[i])
    ensures d.PytestCollectFile(path, globMatch) == NoItem
  {
    assert LastIndex(Parts(path), "docs") == 1;
    assert Parts(path)[2] == "api";
  }
}
