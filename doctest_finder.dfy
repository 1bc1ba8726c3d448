/** `DocTestFinderPlus`: the doctest finder that honours a module's
    `__doctest_skip__` and `__doctest_requires__` variables, and the
    class-wide cache of which required modules can be imported.

    The standard finder that produces the candidate tests, `fnmatch` and
    the module checker (`ModuleChecker.check`) are given. Whether a module
    is available does not change while the tests are collected, so the
    checker is a function of the module name. */
module DocTestFinder {
  import opened Base

  // ---------------------------------------------------------------------------
  // Required modules
  // ---------------------------------------------------------------------------

  predicate AllAvailable(mods: seq<string>, available: string -> bool) {
    forall i :: 0 <= i < |mods| ==> available(mods[i])
  }

  /** The index of the first unavailable module, or `|mods|`. */
  function FirstMissing(mods: seq<string>, available: string -> bool): (k: nat)
    ensures k <= |mods|
    ensures forall j :: 0 <= j < k ==> available(mods[j])
    ensures k < |mods| ==> !available(mods[k])
    ensures k == |mods| <==> AllAvailable(mods, available)
    decreases |mods|
  {
    if mods == [] then 0
    else if !available(mods[0]) then 0
    else 1 + FirstMissing(mods[1..], available)
  }

  /** The modules `check_required_modules` hands to the checker, in order:
      every module up to the first unavailable one, and that one too unless
      the cache already records it as unavailable. */
  function Queried(mods: seq<string>, cache: map<string, bool>, available: string -> bool): (q: seq<string>)
    ensures |q| <= |mods| && q == mods[..|q|]
    ensures |q| <= FirstMissing(mods, available) + 1
    ensures forall j :: 0 <= j < |q| - 1 ==> available(q[j])
    ensures AllAvailable(mods, available) ==> q == mods
  {
    var k := FirstMissing(mods, available);
    if k < |mods| && mods[k] !in cache then mods[..k + 1] else mods[..k]
  }

  /** Where the first unavailable module sits, the modules queried. */
  lemma QueriedUpTo(mods: seq<string>, cache: map<string, bool>, available: string -> bool, i: nat)
    requires i < |mods| && !available(mods[i])
    requires forall j :: 0 <= j < i ==> available(mods[j])
    ensures FirstMissing(mods, available) == i
    ensures Queried(mods, cache, available) == if mods[i] in cache then mods[..i] else mods[..i + 1]
  {
  }

  /** A module cached as unavailable at the head of the list means the
      checker is not consulted at all. */
  lemma CachedFailureSkipsChecker(mods: seq<string>, cache: map<string, bool>, available: string -> bool)
    requires forall m :: m in cache ==> cache[m] == available(m)
    requires |mods| > 0 && mods[0] in cache && !cache[mods[0]]
    ensures Queried(mods, cache, available) == []
  {
  }

  // ---------------------------------------------------------------------------
  // The directives of a module
  // ---------------------------------------------------------------------------

  /** A key of `__doctest_requires__`: one pattern or a tuple of them. */
  datatype PatternKey = Single(pat: string) | Several(pats: seq<string>)

  /** A key always stands for a tuple; a lone pattern is a 1-tuple. */
  function KeyPatterns(key: PatternKey): (pats: seq<string>)
    ensures key.Single? ==> pats == [key.pat]
    ensures key.Several? ==> pats == key.pats
  {
    match key
    case Single(pat) => [pat]
    case Several(pats) => pats
  }

  /** The object handed to `find` (usually a module): its `__name__`, and
      its `__doctest_skip__` list and `__doctest_requires__` dict (entries in
      the dict's order), each of which may be absent. */
  datatype ModuleObject = ModuleObject(
    dunderName: Option<string>,
    doctestSkip: Option<seq<string>>,
    doctestRequires: Option<seq<(PatternKey, seq<string>)>>)
  {
    predicate HasDirectives() {
      doctestSkip.Some? || doctestRequires.Some?
    }

    function SkipPatterns(): seq<string> {
      if doctestSkip.Some? then doctestSkip.value else []
    }

    function Requirements(): seq<(PatternKey, seq<string>)> {
      if doctestRequires.Some? then doctestRequires.value else []
    }
  }

  /** A test found by the standard finder; only its name matters here. */
  datatype DocTest = DocTest(name: string)

  /** `'.'.join((name, pat))`. */
  function Qualified(name: string, pat: string): string {
    name + "." + pat
  }

  /** One `__doctest_skip__` pattern drops the test: `*` drops every test,
      `.` the module's own docstring test, and any pattern (`.` included)
      the tests whose names match `name.pat`. */
  predicate SkipDrops(pat: string, test: DocTest, name: string, fnmatch: (string, string) -> bool) {
    || pat == "*"
    || (pat == "." && test.name == name)
    || fnmatch(test.name, Qualified(name, pat))
  }

  /** Every requirement whose pattern matches the test names modules that
      are all available. */
  predicate RequirementsMet(test: DocTest, name: string, reqs: seq<(PatternKey, seq<string>)>,
                            fnmatch: (string, string) -> bool, available: string -> bool)
  {
    forall i, pat :: 0 <= i < |reqs| && pat in KeyPatterns(reqs[i].0) && fnmatch(test.name, Qualified(name, pat))
      ==> AllAvailable(reqs[i].1, available)
  }

  /** What `test_filter` keeps. */
  predicate Kept(test: DocTest, name: string, obj: ModuleObject,
                 fnmatch: (string, string) -> bool, available: string -> bool)
  {
    && (forall i :: 0 <= i < |obj.SkipPatterns()| ==> !SkipDrops(obj.SkipPatterns()[i], test, name, fnmatch))
    && RequirementsMet(test, name, obj.Requirements(), fnmatch, available)
  }

  /** `list(filter(test_filter, tests))`. */
  function FilterKept(tests: seq<DocTest>, name: string, obj: ModuleObject,
                      fnmatch: (string, string) -> bool, available: string -> bool): (r: seq<DocTest>)
    ensures |r| <= |tests|
    decreases |tests|
  {
    if tests == [] then []
    else
      var last := tests[|tests| - 1];
      FilterKept(tests[..|tests| - 1], name, obj, fnmatch, available)
        + (if Kept(last, name, obj, fnmatch, available) then [last] else [])
  }

  /** The filtered list holds exactly the tests `test_filter` keeps. */
  lemma {:induction false} FilterKeptMembers(tests: seq<DocTest>, name: string, obj: ModuleObject,
                                             fnmatch: (string, string) -> bool, available: string -> bool)
    ensures forall t :: t in FilterKept(tests, name, obj, fnmatch, available) <==> t in tests && Kept(t, name, obj, fnmatch, available)
    decreases |tests|
  {
    if tests != [] {
      var init := tests[..|tests| - 1];
      FilterKeptMembers(init, name, obj, fnmatch, available);
      assert tests == init + [tests[|tests| - 1]];
    }
  }

  /** The filter takes one more test at a time, in order. */
  lemma FilterKeptStep(tests: seq<DocTest>, i: nat, name: string, obj: ModuleObject,
                       fnmatch: (string, string) -> bool, available: string -> bool)
    requires i < |tests|
    ensures FilterKept(tests[..i + 1], name, obj, fnmatch, available)
      == FilterKept(tests[..i], name, obj, fnmatch, available)
        + (if Kept(tests[i], name, obj, fnmatch, available) then [tests[i]] else [])
  {
    assert tests[..i + 1][..i] == tests[..i];
  }

  /** The pattern `*` empties the list, whatever else is declared. */
  lemma {:induction false} StarSkipsEverything(tests: seq<DocTest>, name: string, obj: ModuleObject,
                                               fnmatch: (string, string) -> bool, available: string -> bool)
    requires "*" in obj.SkipPatterns()
    ensures FilterKept(tests, name, obj, fnmatch, available) == []
  {
    if tests != [] {
      StarSkipsEverything(tests[..|tests| - 1], name, obj, fnmatch, available);
      var i :| 0 <= i < |obj.SkipPatterns()| && obj.SkipPatterns()[i] == "*";
      assert SkipDrops(obj.SkipPatterns()[i], tests[|tests| - 1], name, fnmatch);
    }
  }

  // ---------------------------------------------------------------------------
  // Naming the object
  // ---------------------------------------------------------------------------

  /** The name `find` filters with, as written: the object's `__name__`
      when no name was passed; a passed name is refused as well as a
      missing `__name__`. */
  function FilterNameAsWritten(obj: ModuleObject, name: Option<string>): (r: Result<string>)
    ensures r.Ok? <==> name.None? && obj.dunderName.Some?
    ensures r.Ok? ==> r.value == obj.dunderName.value
  {
    if name.None? && obj.dunderName.Some? then Ok(obj.dunderName.value)
    else Err(ValueError("DocTestFinder.find: name must be given when obj.__name__ doesn't exist"))
  }

  /** A module with `__doctest_skip__` whose name is passed explicitly is
      refused, although the error asks for exactly that name. */
  lemma PassedNameRefused()
    ensures FilterNameAsWritten(ModuleObject(Some("pkg.mod"), Some(["f"]), None), Some("pkg.mod")).Err?
  {
  }

  /** The name `find` filters with, as its error message describes it: the
      passed name, else the object's `__name__`; only when both are
      missing is there an error. */
  function FilterName(obj: ModuleObject, name: Option<string>): (r: Result<string>)
    ensures r.Ok? <==> name.Some? || obj.dunderName.Some?
    ensures name.Some? ==> r == Ok(name.value)
    ensures name.None? && obj.dunderName.Some? ==> r == Ok(obj.dunderName.value)
  {
    if name.Some? then Ok(name.value)
    else if obj.dunderName.Some? then Ok(obj.dunderName.value)
    else Err(ValueError("DocTestFinder.find: name must be given when obj.__name__ doesn't exist"))
  }

  /** Wherever the code as written finds a name, the corrected rule finds
      the same one. */
  lemma FilterNameExtendsAsWritten(obj: ModuleObject, name: Option<string>)
    ensures FilterNameAsWritten(obj, name).Ok? ==> FilterName(obj, name) == FilterNameAsWritten(obj, name)
    ensures FilterNameAsWritten(obj, name).Err? && FilterName(obj, name).Ok? ==> name.Some?
  {
  }

  // ---------------------------------------------------------------------------
  // The finder
  // ---------------------------------------------------------------------------

  class DocTestFinderPlus {
    /** `_module_checker.check`. */
    const available: string -> bool
    /** `_import_cache`: module name to the outcome of its last check. */
    var importCache: map<string, bool>
    /** The modules handed to the checker so far, oldest first. */
    ghost var queries: seq<string>

    /** The cache records only outcomes of the checker. */
    ghost predicate Valid()
      reads this
    {
      forall m :: m in importCache ==> importCache[m] == available(m)
    }

    constructor (available: string -> bool)
      ensures this.available == available
      ensures importCache == map[] && queries == []
      ensures Valid()
    {
      this.available := available;
      importCache := map[];
      queries := [];
    }

    /** `check_required_modules(mods)`: true exactly when every module is
        available. It stops at the first unavailable module, which it does
        not even check when the cache already says so; every module it
        checks has its outcome cached (a module cached as available is
        checked again). */
    method CheckRequiredModules(mods: seq<string>) returns (r: bool)
      requires Valid()
      modifies this
      ensures Valid()
      ensures r <==> AllAvailable(mods, available)
      ensures queries == old(queries) + Queried(mods, old(importCache), available)
      ensures forall m :: m in importCache <==> m in old(importCache) || m in Queried(mods, old(importCache), available)
    {
      for i := 0 to |mods|
        invariant Valid()
        invariant forall j :: 0 <= j < i ==> available(mods[j])
        invariant queries == old(queries) + mods[..i]
        invariant forall m :: m in importCache <==> m in old(importCache) || m in mods[..i]
      {
        var mod := mods[i];
        if mod in importCache && !importCache[mod] {
          assert mod in old(importCache);
          QueriedUpTo(mods, old(importCache), available, i);
          return false;
        }
        assert mods[..i + 1] == mods[..i] + [mod];
        importCache := importCache[mod := available(mod)];
        queries := queries + [mod];
        if !available(mod) {
          QueriedUpTo(mods, old(importCache), available, i);
          return false;
        }
      }
      assert mods[..|mods|] == mods;
      return true;
    }

    /** `test_filter(test)` for the object `obj` named `name`: the skip
        patterns first, then every requirement whose pattern matches. */
    method TestFilter(obj: ModuleObject, name: string, test: DocTest, fnmatch: (string, string) -> bool) returns (keep: bool)
      requires Valid()
      modifies this
      ensures Valid()
      ensures keep == Kept(test, name, obj, fnmatch, available)
      ensures old(importCache).Keys <= importCache.Keys
    {
      var skips := obj.SkipPatterns();
      for i := 0 to |skips|
        invariant forall j :: 0 <= j < i ==> !SkipDrops(skips[j], test, name, fnmatch)
      {
        var pat := skips[i];
        if pat == "*" {
          return false;
        } else if pat == "." && test.name == name {
          return false;
        } else if fnmatch(test.name, Qualified(name, pat)) {
          return false;
        }
      }
      var reqs := obj.Requirements();
      for i := 0 to |reqs|
        invariant Valid()
        invariant old(importCache).Keys <= importCache.Keys
        invariant forall j, pat ::
          0 <= j < i && pat in KeyPatterns(reqs[j].0) && fnmatch(test.name, Qualified(name, pat)) ==>
          AllAvailable(reqs[j].1, available)
      {
        var (key, mods) := reqs[i];
        var pats := KeyPatterns(key);
        for l := 0 to |pats|
          invariant Valid()
          invariant old(importCache).Keys <= importCache.Keys
          invariant forall k :: 0 <= k < l && fnmatch(test.name, Qualified(name, pats[k])) ==> AllAvailable(mods, available)
        {
          if !fnmatch(test.name, Qualified(name, pats[l])) {
            continue;
          }
          var ok := CheckRequiredModules(mods);
          if !ok {
            return false;
          }
        }
      }
      return true;
    }

    /** `find(obj, name)` given the tests the standard finder found: an
        object without directives keeps them all; otherwise the object must
        be named and the tests `test_filter` keeps are returned, in their
        order. */
    method Find(obj: ModuleObject, name: Option<string>, tests: seq<DocTest>, fnmatch: (string, string) -> bool)
        returns (r: Result<seq<DocTest>>)
      requires Valid()
      modifies this
      ensures Valid()
      ensures !obj.HasDirectives() ==> r == Ok(tests)
      ensures obj.HasDirectives() && FilterName(obj, name).Err? ==> r == Err(FilterName(obj, name).error)
      ensures obj.HasDirectives() && FilterName(obj, name).Ok? ==>
        r == Ok(FilterKept(tests, FilterName(obj, name).value, obj, fnmatch, available))
    {
      if !obj.HasDirectives() {
        return Ok(tests);
      }
      var resolved := FilterName(obj, name);
      if resolved.Err? {
        return Err(resolved.error);
      }
      var kept := FilterTests(obj, resolved.value, tests, fnmatch);
      return Ok(kept);
    }

    /** `filter(test_filter, tests)` for the object `obj` named `name`. */
    method FilterTests(obj: ModuleObject, name: string, tests: seq<DocTest>, fnmatch: (string, string) -> bool)
        returns (kept: seq<DocTest>)
      requires Valid()
      modifies this
      ensures Valid()
      ensures kept == FilterKept(tests, name, obj, fnmatch, available)
    {
      kept := [];
      for i := 0 to |tests|
        invariant Valid()
        invariant kept == FilterKept(tests[..i], name, obj, fnmatch, available)
      {
        var keep := TestFilter(obj, name, tests[i], fnmatch);
        FilterKeptStep(tests, i, name, obj, fnmatch, available);
        if keep {
          kept := kept + [tests[i]];
        }
      }
      assert tests[..|tests|] == tests;
    }
  }
}
