/** The doctest output checker of the plugin: `normalize_floats`, which
    compares the numbers in doctest output by value within a tolerance, and
    `check_output`, which picks the comparison the option flags ask for.

    The checker's configuration is fixed once it is built, so it is a value
    here. Its regular expressions, its float tolerance test, the `FIX`
    rewrites and the standard library's comparison are its fields. */
module OutputChecker {
  import opened TextOps
  import opened OptionFlags
  import opened ChunkMatch

  const BlanklineMarker := "<BLANKLINE>"
  const EllipsisMarker := "..."

  datatype Checker = Checker(
    /** `equal_floats(got, want)`: the tolerance test on two number tokens. */
    close: (Token, Token) -> bool,
    /** `find_numbers(text)`: the number tokens of a text, in order. */
    findNumbers: string -> seq<Token>,
    /** `num_got_rgx.sub('0.0', text)`: every number replaced by `0.0`. */
    maskNumbers: string -> string,
    /** `doctest._ellipsis_match(want, got)`. */
    ellipsisMatch: (string, string) -> bool,
    /** `do_fixes(want, got)`: the `FIX` rewrites of both texts. */
    doFixes: (string, string) -> (string, string),
    /** `doctest.OutputChecker.check_output(want, got, flags)`. */
    originalCheck: (string, string, Flags) -> bool,
    /** `six.PY2`. */
    py2: bool)

  function Lines(text: string): seq<string> {
    SplitOn(text, "\n")
  }

  // ---------------------------------------------------------------------------
  // <BLANKLINE> and whitespace-only lines
  // ---------------------------------------------------------------------------

  /** A line that `^<BLANKLINE>\s*?$` matches in multi-line mode. */
  predicate MarkerLine(line: string) {
    && |BlanklineMarker| <= |line|
    && line[..|BlanklineMarker|] == BlanklineMarker
    && AllSpace(line[|BlanklineMarker|..])
  }

  function UnmarkLine(line: string): string {
    if MarkerLine(line) then "" else line
  }

  /** A line that `^\s*?$` matches is emptied. */
  function ClearLine(line: string): string {
    if AllSpace(line) then "" else line
  }

  /** The substitution on `want`: every `<BLANKLINE>` line becomes empty and
      every other line is kept. */
  function StripBlanklineMarkers(want: string): (r: string)
    ensures Lines(r) == MapPieces(Lines(want), UnmarkLine)
    ensures forall i :: 0 <= i < |Lines(r)| ==> !MarkerLine(Lines(r)[i])
  {
    LinewiseRewrite(want, '\n', UnmarkLine);
    Join(MapPieces(Lines(want), UnmarkLine), "\n")
  }

  /** The substitution on `got`: every line of whitespace only becomes
      empty and every other line is kept. */
  function ClearWhitespaceLines(got: string): (r: string)
    ensures Lines(r) == MapPieces(Lines(got), ClearLine)
    ensures forall i :: 0 <= i < |Lines(r)| ==> Lines(r)[i] == "" || !AllSpace(Lines(r)[i])
  {
    LinewiseRewrite(got, '\n', ClearLine);
    Join(MapPieces(Lines(got), ClearLine), "\n")
  }

  /** The two texts after the `<BLANKLINE>` and `NORMALIZE_WHITESPACE`
      steps of `normalize_floats`, as the pair `(want, got)`. */
  function Prepare(want: string, got: string, flags: Flags): (string, string) {
    var w := if DontAcceptBlankline in flags then want else StripBlanklineMarkers(want);
    var g := if DontAcceptBlankline in flags then got else ClearWhitespaceLines(got);
    if NormalizeWhitespace in flags then (CollapseWhitespace(w), CollapseWhitespace(g)) else (w, g)
  }

  // ---------------------------------------------------------------------------
  // normalize_floats
  // ---------------------------------------------------------------------------

  /** `[find_numbers(chunk) for chunk in want.split('...')]`. */
  function WantChunks(c: Checker, want: string): (chunks: seq<Chunk>)
    ensures |chunks| == |SplitOn(want, EllipsisMarker)| >= 1
    ensures forall i :: 0 <= i < |chunks| ==> chunks[i] == c.findNumbers(SplitOn(want, EllipsisMarker)[i])
  {
    var pieces := SplitOn(want, EllipsisMarker);
    seq(|pieces|, i requires 0 <= i < |pieces| => c.findNumbers(pieces[i]))
  }

  /** The chunks laid end to end. */
  function Flatten(chunks: seq<Chunk>): seq<Token> {
    if chunks == [] then [] else chunks[0] + Flatten(chunks[1..])
  }

  /** Equally many numbers, each close to the one in the same position. */
  predicate AllClose(got: seq<Token>, want: seq<Token>, close: (Token, Token) -> bool) {
    |got| == |want| && forall i :: 0 <= i < |got| ==> close(got[i], want[i])
  }

  /** What `normalize_floats(want, got, flags)` answers. */
  function FloatCmpMatch(c: Checker, want: string, got: string, flags: Flags): bool {
    var (w, g) := Prepare(want, got, flags);
    if g == w then true
    else
      var gm, wm := c.maskNumbers(g), c.maskNumbers(w);
      if Ellipsis in flags && !c.ellipsisMatch(wm, gm) then false
      else if Ellipsis !in flags && gm != wm then false
      else
        var numbersGot, chunks := c.findNumbers(g), WantChunks(c, w);
        if Ellipsis in flags && |chunks| >= 2 then PartialMatches(numbersGot, chunks, c.close)
        else AllClose(numbersGot, Flatten(chunks), c.close)
  }

  /** `normalize_floats(want, got, flags)`. */
  method NormalizeFloats(c: Checker, want: string, got: string, flags: Flags) returns (r: bool)
    ensures r == FloatCmpMatch(c, want, got, flags)
  {
    var w, g := want, got;
    if DontAcceptBlankline !in flags {
      w := StripBlanklineMarkers(w);
      g := ClearWhitespaceLines(g);
    }
    if NormalizeWhitespace in flags {
      g := CollapseWhitespace(g);
      w := CollapseWhitespace(w);
    }
    if g == w {
      return true;
    }
    var gm, wm := c.maskNumbers(g), c.maskNumbers(w);
    if Ellipsis in flags {
      if !c.ellipsisMatch(wm, gm) {
        return false;
      }
    } else if gm != wm {
      return false;
    }
    var numbersGot := c.findNumbers(g);
    var chunks := WantChunks(c, w);
    if Ellipsis in flags && |chunks| >= 2 {
      var list := new ChunkList(chunks);
      r := PartialMatch(numbersGot, list, c.close);
      return;
    }
    var numbersWant := Flatten(chunks);
    if |numbersGot| != |numbersWant| {
      return false;
    }
    for i := 0 to |numbersGot|
      invariant forall k :: 0 <= k < i ==> c.close(numbersGot[k], numbersWant[k])
    {
      if !c.close(numbersGot[i], numbersWant[i]) {
        return false;
      }
    }
    return true;
  }

  // ---------------------------------------------------------------------------
  // What normalize_floats promises
  // ---------------------------------------------------------------------------

  /** Texts that agree once prepared always match, whatever the tolerance
      and the regular expressions say. */
  lemma PreparedEqualMatches(c: Checker, want: string, got: string, flags: Flags)
    requires Prepare(want, got, flags).0 == Prepare(want, got, flags).1
    ensures FloatCmpMatch(c, want, got, flags)
  {
  }

  /** With `DONT_ACCEPT_BLANKLINE` a text matches itself. */
  lemma {:induction false} MatchesItself(c: Checker, text: string, flags: Flags)
    requires DontAcceptBlankline in flags
    ensures FloatCmpMatch(c, text, text, flags)
  {
    PreparedEqualMatches(c, text, text, flags);
  }

  /** A wanted line and an output line that the `<BLANKLINE>` handling
      makes equal: the same line that is neither blank nor a marker, an
      empty line against a blank one, or a marker against a blank one. */
  predicate LinesAgree(wantLine: string, gotLine: string) {
    || (wantLine == gotLine && !AllSpace(gotLine) && !MarkerLine(wantLine))
    || (wantLine == "" && AllSpace(gotLine))
    || (MarkerLine(wantLine) && AllSpace(gotLine))
  }

  /** `<BLANKLINE>` stands for an output line of whitespace only: when the
      lines agree one by one, the texts match. */
  lemma {:induction false} BlanklineMarkerMatches(c: Checker, want: string, got: string, flags: Flags)
    requires DontAcceptBlankline !in flags
    requires |Lines(want)| == |Lines(got)|
    requires forall i :: 0 <= i < |Lines(want)| ==> LinesAgree(Lines(want)[i], Lines(got)[i])
    ensures FloatCmpMatch(c, want, got, flags)
  {
    var w, g := StripBlanklineMarkers(want), ClearWhitespaceLines(got);
    assert Lines(w) == Lines(g) by {
      forall i | 0 <= i < |Lines(want)|
        ensures UnmarkLine(Lines(want)[i]) == ClearLine(Lines(got)[i])
      {
        assert LinesAgree(Lines(want)[i], Lines(got)[i]);
      }
    }
    JoinSplit(w, "\n");
    JoinSplit(g, "\n");
    PreparedEqualMatches(c, want, got, flags);
  }

  /** Emptying the whitespace-only lines of the output keeps its words. */
  lemma ClearingKeepsWords(got: string)
    ensures Words(ClearWhitespaceLines(got)) == Words(got)
  {
    var ls := Lines(got);
    var cleared := MapPieces(ls, ClearLine);
    forall i | 0 <= i < |ls|
      ensures Words(cleared[i]) == Words(ls[i])
    {
      if AllSpace(ls[i]) {
        WordsOfAllSpace(ls[i]);
      }
    }
    WordsOfJoinedLines(cleared, ls, '\n');
    JoinSplit(got, "\n");
  }

  /** A wanted text without `<BLANKLINE>` lines is left as it is. */
  lemma UnmarkedWantKept(want: string)
    requires forall i :: 0 <= i < |Lines(want)| ==> !MarkerLine(Lines(want)[i])
    ensures StripBlanklineMarkers(want) == want
  {
    assert MapPieces(Lines(want), UnmarkLine) == Lines(want);
    JoinSplit(want, "\n");
  }

  /** Under `NORMALIZE_WHITESPACE`, texts with the same words match
      whatever whitespace separates them, unless a `<BLANKLINE>` line in
      the wanted text is turned into an empty line first. */
  lemma {:induction false} WhitespaceInsensitive(c: Checker, want: string, got: string, flags: Flags)
    requires NormalizeWhitespace in flags
    requires DontAcceptBlankline in flags || forall i :: 0 <= i < |Lines(want)| ==> !MarkerLine(Lines(want)[i])
    requires Words(want) == Words(got)
    ensures FloatCmpMatch(c, want, got, flags)
  {
    if DontAcceptBlankline !in flags {
      UnmarkedWantKept(want);
      ClearingKeepsWords(got);
    }
    PreparedEqualMatches(c, want, got, flags);
  }

  /** Without `DONT_ACCEPT_BLANKLINE` a text need not match itself: a
      line of whitespace only is emptied in the output but kept in the
      wanted text, so with the numbers masked (there are none) the two
      differ. */
  lemma WhitespaceLineMismatchesItself(c: Checker)
    requires c.maskNumbers("  ") == "  " && c.maskNumbers("") == ""
    ensures !FloatCmpMatch(c, "  ", "  ", {})
  {
    var text := "  ";
    SplitWholePiece(text, '\n');
    assert !MarkerLine(text);
    assert StripBlanklineMarkers(text) == text;
    assert ClearLine(text) == "";
    assert ClearWhitespaceLines(text) == "";
  }

  /** Without `ELLIPSIS`, differing texts match exactly when they agree
      once every number is masked and their numbers, the wanted ones read
      across any `...` too, are pairwise close in order. */
  lemma {:induction false} MatchWithoutEllipsis(c: Checker, want: string, got: string, flags: Flags)
    requires Ellipsis !in flags
    requires Prepare(want, got, flags).0 != Prepare(want, got, flags).1
    ensures var (w, g) := Prepare(want, got, flags);
      FloatCmpMatch(c, want, got, flags) <==>
        && c.maskNumbers(g) == c.maskNumbers(w)
        && AllClose(c.findNumbers(g), Flatten(WantChunks(c, w)), c.close)
  {
  }

  /** With `ELLIPSIS` and a `...` in the wanted text, differing texts match
      exactly when the masked texts match with ellipses and the wanted
      number chunks can be laid over the output's numbers in order, without
      overlap, the first one at the start and the last one at the end. */
  lemma {:induction false} MatchWithEllipsis(c: Checker, want: string, got: string, flags: Flags)
    requires Ellipsis in flags
    requires Prepare(want, got, flags).0 != Prepare(want, got, flags).1
    requires |SplitOn(Prepare(want, got, flags).0, EllipsisMarker)| >= 2
    ensures var (w, g) := Prepare(want, got, flags);
      FloatCmpMatch(c, want, got, flags) <==>
        && c.ellipsisMatch(c.maskNumbers(w), c.maskNumbers(g))
        && AnchoredPlacement(c.findNumbers(g), WantChunks(c, w), c.close)
  {
    var (w, g) := Prepare(want, got, flags);
    PartialMatchCorrect(c.findNumbers(g), WantChunks(c, w), c.close);
  }

  /** Loosening the tolerance never turns a match into a mismatch. */
  lemma {:induction false} LooserToleranceKeepsMatch(c: Checker, looser: (Token, Token) -> bool, want: string, got: string, flags: Flags)
    requires forall a, b :: c.close(a, b) ==> looser(a, b)
    requires FloatCmpMatch(c, want, got, flags)
    ensures FloatCmpMatch(c.(close := looser), want, got, flags)
  {
    var (w, g) := Prepare(want, got, flags);
    var chunks := WantChunks(c, w);
    if g != w && Ellipsis in flags && |chunks| >= 2 {
      PartialMatchesMonotone(c.findNumbers(g), chunks, c.close, looser);
    }
  }

  // ---------------------------------------------------------------------------
  // check_output
  // ---------------------------------------------------------------------------

  /** The flags that make any output pass, by Python version. */
  predicate OutputIgnored(c: Checker, flags: Flags) {
    || IgnoreOutput in flags
    || (c.py2 && IgnoreOutput2 in flags)
    || (!c.py2 && IgnoreOutput3 in flags)
  }

  /** `check_output(want, got, flags)`: ignored output always passes; `FIX`
      rewrites both texts first; `FLOAT_CMP` compares numbers by value and
      anything else is left to the standard checker. */
  method CheckOutput(c: Checker, want: string, got: string, flags: Flags) returns (r: bool)
    ensures OutputIgnored(c, flags) ==> r
    ensures !OutputIgnored(c, flags) ==>
      var (w, g) := if Fix in flags then c.doFixes(want, got) else (want, got);
      r == if FloatCmp in flags then FloatCmpMatch(c, w, g, flags) else c.originalCheck(w, g, flags)
  {
    if OutputIgnored(c, flags) {
      return true;
    }
    var w, g := want, got;
    if Fix in flags {
      var fixed := c.doFixes(w, g);
      w, g := fixed.0, fixed.1;
    }
    if FloatCmp in flags {
      r := NormalizeFloats(c, w, g, flags);
      return;
    }
    r := c.originalCheck(w, g, flags);
  }
}
