/** The pieces of Python's string handling that the comparator and the
    directive parser rely on: `str.isspace`, `str.split(sep)`, `sep.join`,
    `str.split()`, `str.strip()` and `textwrap.indent`, written out over
    `seq<char>`. */
module TextOps {

  /** Python's `str.isspace()` for one character; these are also the
      characters `\s` matches in a `str` regular expression. */
  predicate IsSpace(c: char) {
    || c == ' ' || c == '\t' || c == '\n' || c == '\U{000B}' || c == '\U{000C}' || c == '\r'
    || c == '\U{001C}' || c == '\U{001D}' || c == '\U{001E}' || c == '\U{001F}'
    || c == '\U{0085}' || c == '\U{00A0}' || c == '\U{1680}'
    || c == '\U{2000}' || c == '\U{2001}' || c == '\U{2002}' || c == '\U{2003}' || c == '\U{2004}'
    || c == '\U{2005}' || c == '\U{2006}' || c == '\U{2007}' || c == '\U{2008}' || c == '\U{2009}'
    || c == '\U{200A}' || c == '\U{2028}' || c == '\U{2029}' || c == '\U{202F}' || c == '\U{205F}'
    || c == '\U{3000}'
  }

  predicate AllSpace(s: string) {
    forall k :: 0 <= k < |s| ==> IsSpace(s[k])
  }

  predicate NoSpace(s: string) {
    forall k :: 0 <= k < |s| ==> !IsSpace(s[k])
  }

  // ---------------------------------------------------------------------------
  // str.split(sep) and sep.join(parts)
  // ---------------------------------------------------------------------------

  /** Python's `s.split(sep)`: the pieces between the leftmost
      non-overlapping occurrences of `sep`; there is always at least one. */
  function SplitOn(s: string, sep: string): (parts: seq<string>)
    requires |sep| > 0
    ensures |parts| >= 1
    decreases |s|
  {
    if |s| < |sep| then [s]
    else if s[..|sep|] == sep then [""] + SplitOn(s[|sep|..], sep)
    else
      var rest := SplitOn(s[1..], sep);
      [[s[0]] + rest[0]] + rest[1..]
  }

  /** Python's `sep.join(parts)`. */
  function Join(parts: seq<string>, sep: string): string
  {
    if |parts| == 0 then ""
    else if |parts| == 1 then parts[0]
    else parts[0] + sep + Join(parts[1..], sep)
  }

  /** Splitting and joining again gives the text back. */
  lemma {:induction false} JoinSplit(s: string, sep: string)
    requires |sep| > 0
    ensures Join(SplitOn(s, sep), sep) == s
    decreases |s|
  {
    if |s| < |sep| {
    } else if s[..|sep|] == sep {
      JoinSplit(s[|sep|..], sep);
      JoinAfterEmpty(SplitOn(s[|sep|..], sep), sep);
      assert s == sep + s[|sep|..];
    } else {
      JoinSplit(s[1..], sep);
      JoinAfterChar(s[0], SplitOn(s[1..], sep), sep);
      assert s == [s[0]] + s[1..];
    }
  }

  /** An empty first part puts a separator in front. */
  lemma JoinAfterEmpty(rest: seq<string>, sep: string)
    requires |rest| >= 1
    ensures Join([""] + rest, sep) == sep + Join(rest, sep)
  {
    assert ([""] + rest)[1..] == rest;
  }

  /** A character in front of the first part is in front of the whole. */
  lemma JoinAfterChar(c: char, rest: seq<string>, sep: string)
    requires |rest| >= 1
    ensures Join([[c] + rest[0]] + rest[1..], sep) == [c] + Join(rest, sep)
  {
    var parts := [[c] + rest[0]] + rest[1..];
    assert parts[1..] == rest[1..];
  }

  /** A one-character separator never survives inside a piece. */
  lemma {:induction false} SplitPiecesAvoidSeparator(s: string, c: char)
    ensures forall i :: 0 <= i < |SplitOn(s, [c])| ==> c !in SplitOn(s, [c])[i]
    decreases |s|
  {
    if |s| >= 1 {
      SplitPiecesAvoidSeparator(s[1..], c);
    }
  }

  /** A piece free of the separator followed by the separator is split off whole. */
  lemma {:induction false} SplitLeadingPiece(p: string, c: char, rest: string)
    requires c !in p
    ensures SplitOn(p + [c] + rest, [c]) == [p] + SplitOn(rest, [c])
    decreases |p|
  {
    var s := p + [c] + rest;
    if |p| == 0 {
      assert s[..1] == [c];
      assert s[1..] == rest;
    } else {
      assert s[..1] != [c] by { assert s[0] == p[0]; }
      assert s[1..] == p[1..] + [c] + rest;
      SplitLeadingPiece(p[1..], c, rest);
      assert [s[0]] + p[1..] == p;
    }
  }

  /** A text free of the separator splits into itself. */
  lemma {:induction false} SplitWholePiece(p: string, c: char)
    requires c !in p
    ensures SplitOn(p, [c]) == [p]
    decreases |p|
  {
    if |p| >= 1 {
      assert p[..1] != [c] by { assert p[..1][0] == p[0]; }
      SplitWholePiece(p[1..], c);
      assert [p[0]] + p[1..] == p;
    }
  }

  /** Joining pieces that do not contain a one-character separator and
      splitting again gives the pieces back. */
  lemma {:induction false} SplitJoin(parts: seq<string>, c: char)
    requires |parts| >= 1
    requires forall i :: 0 <= i < |parts| ==> c !in parts[i]
    ensures SplitOn(Join(parts, [c]), [c]) == parts
    decreases |parts|
  {
    if |parts| == 1 {
      SplitWholePiece(parts[0], c);
    } else {
      SplitJoin(parts[1..], c);
      SplitLeadingPiece(parts[0], c, Join(parts[1..], [c]));
      assert [parts[0]] + parts[1..] == parts;
    }
  }

  /** The pieces of `SplitOn(s, [c])`, after `f` has rewritten each one
      without introducing `c`, are exactly the pieces of the rejoined text:
      rewriting a text line by line touches nothing but the lines. */
  lemma LinewiseRewrite(s: string, c: char, f: string -> string)
    requires forall p :: c !in p ==> c !in f(p)
    ensures var pieces := SplitOn(s, [c]);
      SplitOn(Join(MapPieces(pieces, f), [c]), [c]) == MapPieces(pieces, f)
  {
    var pieces := SplitOn(s, [c]);
    SplitPiecesAvoidSeparator(s, c);
    SplitJoin(MapPieces(pieces, f), c);
  }

  /** `[f(p) for p in pieces]`. */
  function MapPieces(pieces: seq<string>, f: string -> string): (r: seq<string>)
    ensures |r| == |pieces|
    ensures forall i :: 0 <= i < |pieces| ==> r[i] == f(pieces[i])
  {
    seq(|pieces|, i requires 0 <= i < |pieces| => f(pieces[i]))
  }

  // ---------------------------------------------------------------------------
  // str.split() and ' '.join(...)
  // ---------------------------------------------------------------------------

  /** Length of the leading run of non-whitespace characters. */
  function NonSpacePrefix(s: string): (n: nat)
    ensures n <= |s| && NoSpace(s[..n]) && (n == |s| || IsSpace(s[n]))
    decreases |s|
  {
    if |s| == 0 || IsSpace(s[0]) then 0
    else
      var m := NonSpacePrefix(s[1..]);
      assert s[..1 + m] == [s[0]] + s[1..][..m];
      1 + m
  }

  /** Python's `s.split()`: the maximal runs of non-whitespace characters, in order. */
  function Words(s: string): (ws: seq<string>)
    ensures forall i :: 0 <= i < |ws| ==> |ws[i]| > 0 && NoSpace(ws[i])
    decreases |s|
  {
    if |s| == 0 then []
    else if IsSpace(s[0]) then Words(s[1..])
    else
      var n := NonSpacePrefix(s);
      [s[..n]] + Words(s[n..])
  }

  /** The shape `' '.join(words)` has: whitespace only as single spaces, and
      none at either end. */
  predicate SingleSpaced(r: string) {
    && (forall k :: 0 <= k < |r| ==> IsSpace(r[k]) ==> r[k] == ' ')
    && (|r| > 0 ==> !IsSpace(r[0]) && !IsSpace(r[|r| - 1]))
    && (forall k :: 0 <= k < |r| - 1 ==> !(IsSpace(r[k]) && IsSpace(r[k + 1])))
  }

  predicate AreWords(ws: seq<string>) {
    forall i :: 0 <= i < |ws| ==> |ws[i]| > 0 && NoSpace(ws[i])
  }

  lemma {:induction false} JoinedWordsSingleSpaced(ws: seq<string>)
    requires AreWords(ws)
    ensures SingleSpaced(Join(ws, " "))
    ensures |ws| > 0 ==> |Join(ws, " ")| > 0
    decreases |ws|
  {
    if |ws| > 1 {
      var w, j := ws[0], Join(ws[1..], " ");
      JoinedWordsSingleSpaced(ws[1..]);
      var r := w + " " + j;
      assert Join(ws, " ") == r;
      forall k | 0 <= k < |r| - 1
        ensures !(IsSpace(r[k]) && IsSpace(r[k + 1]))
      {
        if k < |w| - 1 {
          assert r[k] == w[k];
        } else if k == |w| - 1 {
          assert r[k] == w[k];
        } else if k == |w| {
          assert r[k + 1] == j[0];
        } else {
          assert r[k] == j[k - |w| - 1] && r[k + 1] == j[k - |w|];
        }
      }
      forall k | 0 <= k < |r|
        ensures IsSpace(r[k]) ==> r[k] == ' '
      {
        if k < |w| {
          assert r[k] == w[k];
        } else if k > |w| {
          assert r[k] == j[k - |w| - 1];
        }
      }
      assert r[|r| - 1] == j[|j| - 1];
    }
  }

  /** `' '.join(s.split())`, the NORMALIZE_WHITESPACE rewriting: every run of
      whitespace becomes one space and the ends are trimmed. */
  function CollapseWhitespace(s: string): (r: string)
    ensures SingleSpaced(r)
  {
    JoinedWordsSingleSpaced(Words(s));
    Join(Words(s), " ")
  }

  lemma {:induction false} NonSpacePrefixOfWord(w: string, rest: string)
    requires NoSpace(w)
    requires |rest| == 0 || IsSpace(rest[0])
    ensures NonSpacePrefix(w + rest) == |w|
    decreases |w|
  {
    if |w| > 0 {
      assert (w + rest)[1..] == w[1..] + rest;
      NonSpacePrefixOfWord(w[1..], rest);
    }
  }

  /** Splitting `' '.join(words)` on whitespace gives the words back. */
  lemma {:induction false} WordsOfJoin(ws: seq<string>)
    requires AreWords(ws)
    ensures Words(Join(ws, " ")) == ws
    decreases |ws|
  {
    if |ws| == 1 {
      NonSpacePrefixOfWord(ws[0], "");
      assert ws[0] + "" == ws[0];
      assert ws[0][|ws[0]|..] == "";
    } else if |ws| > 1 {
      var w, j := ws[0], Join(ws[1..], " ");
      var s := w + " " + j;
      assert s == w + (" " + j);
      NonSpacePrefixOfWord(w, " " + j);
      assert s[..|w|] == w;
      assert s[|w|..] == " " + j;
      assert (" " + j)[1..] == j;
      WordsOfJoin(ws[1..]);
      assert [w] + ws[1..] == ws;
    }
  }

  /** A text of whitespace only has no words. */
  lemma {:induction false} WordsOfAllSpace(s: string)
    requires AllSpace(s)
    ensures Words(s) == []
    decreases |s|
  {
    if s != [] {
      WordsOfAllSpace(s[1..]);
    }
  }

  /** A whitespace character separates words: the words on either side of
      it are the words of the whole. */
  lemma {:induction false} WordsAroundSpace(a: string, c: char, b: string)
    requires IsSpace(c)
    ensures Words(a + [c] + b) == Words(a) + Words(b)
    decreases |a|
  {
    var s := a + [c] + b;
    if a == [] {
      assert s[1..] == b;
    } else if IsSpace(a[0]) {
      assert s[1..] == a[1..] + [c] + b;
      WordsAroundSpace(a[1..], c, b);
    } else {
      var n := NonSpacePrefix(a);
      assert s == a[..n] + (a[n..] + [c] + b);
      NonSpacePrefixOfWord(a[..n], a[n..] + [c] + b);
      assert s[..n] == a[..n];
      assert s[n..] == a[n..] + [c] + b;
      WordsAroundSpace(a[n..], c, b);
    }
  }

  /** Lines with the same words, joined by a whitespace character, give
      texts with the same words. */
  lemma {:induction false} WordsOfJoinedLines(ls1: seq<string>, ls2: seq<string>, c: char)
    requires IsSpace(c) && |ls1| == |ls2|
    requires forall i :: 0 <= i < |ls1| ==> Words(ls1[i]) == Words(ls2[i])
    ensures Words(Join(ls1, [c])) == Words(Join(ls2, [c]))
    decreases |ls1|
  {
    if |ls1| > 1 {
      WordsOfJoinedLines(ls1[1..], ls2[1..], c);
      WordsAroundSpace(ls1[0], c, Join(ls1[1..], [c]));
      WordsAroundSpace(ls2[0], c, Join(ls2[1..], [c]));
    }
  }

  /** NORMALIZE_WHITESPACE is idempotent. */
  lemma CollapseWhitespaceIdempotent(s: string)
    ensures CollapseWhitespace(CollapseWhitespace(s)) == CollapseWhitespace(s)
  {
    WordsOfJoin(Words(s));
  }

  // ---------------------------------------------------------------------------
  // str.strip(), str.splitlines() and textwrap.indent
  // ---------------------------------------------------------------------------

  /** Python's `s.lstrip()`. */
  function StripLeft(s: string): string
    decreases |s|
  {
    if |s| > 0 && IsSpace(s[0]) then StripLeft(s[1..]) else s
  }

  /** Python's `s.rstrip()`. */
  function StripRight(s: string): string
    decreases |s|
  {
    if |s| > 0 && IsSpace(s[|s| - 1]) then StripRight(s[..|s| - 1]) else s
  }

  /** Python's `s.strip()`. */
  function Strip(s: string): string {
    StripRight(StripLeft(s))
  }

  /** `lstrip` removes a leading run of whitespace and stops at the first
      other character. */
  lemma {:induction false} StripLeftRemovesLeadingSpace(s: string)
    ensures var r := StripLeft(s);
      && |r| <= |s| && r == s[|s| - |r|..] && AllSpace(s[..|s| - |r|])
      && (|r| == 0 || !IsSpace(r[0]))
    decreases |s|
  {
    if |s| > 0 && IsSpace(s[0]) {
      StripLeftRemovesLeadingSpace(s[1..]);
      var r := StripLeft(s[1..]);
      assert s[1..][|s| - 1 - |r|..] == s[|s| - |r|..];
      assert s[..|s| - |r|] == [s[0]] + s[1..][..|s| - 1 - |r|];
    }
  }

  /** `rstrip` removes a trailing run of whitespace and stops at the last
      other character. */
  lemma {:induction false} StripRightRemovesTrailingSpace(s: string)
    ensures var r := StripRight(s);
      && |r| <= |s| && r == s[..|r|] && AllSpace(s[|r|..])
      && (|r| == 0 || !IsSpace(r[|r| - 1]))
    decreases |s|
  {
    if |s| > 0 && IsSpace(s[|s| - 1]) {
      var t := s[..|s| - 1];
      StripRightRemovesTrailingSpace(t);
      var r := StripRight(t);
      assert t[..|r|] == s[..|r|];
      assert s[|r|..] == t[|r|..] + [s[|s| - 1]];
    }
  }

  /** `strip` leaves the part of `s` between a leading and a trailing run
      of whitespace, and that part neither starts nor ends with
      whitespace. */
  lemma StripRemovesOuterSpace(s: string)
    ensures var r := Strip(s);
      && (|r| == 0 || (!IsSpace(r[0]) && !IsSpace(r[|r| - 1])))
      && exists i, j :: 0 <= i <= j <= |s| && r == s[i..j] && AllSpace(s[..i]) && AllSpace(s[j..])
  {
    var t := StripLeft(s);
    StripLeftRemovesLeadingSpace(s);
    StripRightRemovesTrailingSpace(t);
    var r := StripRight(t);
    var i := |s| - |t|;
    var j := i + |r|;
    assert t[..|r|] == s[i..j];
    assert t[|r|..] == s[j..];
    if |r| > 0 {
      assert r[0] == t[0];
    }
  }

  /** Python's `text.splitlines()` with `\n` as the only line boundary:
      the lines without their ends, and no empty line after a final
      newline. */
  function SplitLines(text: string): (lines: seq<string>)
    decreases |text|
  {
    if text == [] then []
    else if text[0] == '\n' then [""] + SplitLines(text[1..])
    else
      var rest := SplitLines(text[1..]);
      if rest == [] then [text[..1]] else [[text[0]] + rest[0]] + rest[1..]
  }

  /** No line holds a line end, and the lines joined back with `\n` give
      the text, up to one final newline. */
  lemma SplitLinesJoin(text: string)
    ensures forall i :: 0 <= i < |SplitLines(text)| ==> '\n' !in SplitLines(text)[i]
    ensures text == [] <==> SplitLines(text) == []
    ensures text != [] && text[|text| - 1] != '\n' ==> Join(SplitLines(text), "\n") == text
    ensures text != [] && text[|text| - 1] == '\n' ==> Join(SplitLines(text), "\n") + "\n" == text
  {
    SplitLinesNoLineEnd(text);
    SplitLinesJoinBack(text);
  }

  lemma {:induction false} SplitLinesNoLineEnd(text: string)
    ensures forall i :: 0 <= i < |SplitLines(text)| ==> '\n' !in SplitLines(text)[i]
    decreases |text|
  {
    if text != [] {
      SplitLinesNoLineEnd(text[1..]);
      var rest := SplitLines(text[1..]);
      if text[0] != '\n' && rest != [] {
        assert SplitLines(text)[1..] == rest[1..];
      }
    }
  }

  lemma {:induction false} SplitLinesJoinBack(text: string)
    ensures text == [] <==> SplitLines(text) == []
    ensures text != [] && text[|text| - 1] != '\n' ==> Join(SplitLines(text), "\n") == text
    ensures text != [] && text[|text| - 1] == '\n' ==> Join(SplitLines(text), "\n") + "\n" == text
    decreases |text|
  {
    if text != [] {
      var t := text[1..];
      SplitLinesJoinBack(t);
      var rest := SplitLines(t);
      assert text == [text[0]] + t;
      if text[0] == '\n' {
        if rest == [] {
          assert t == [];
        } else {
          JoinAfterEmpty(rest, "\n");
        }
      } else if rest == [] {
        assert t == [];
      } else {
        JoinAfterChar(text[0], rest, "\n");
      }
    }
  }

  /** Python's `textwrap.indent(text, prefix)`: `prefix` goes in front of
      every line that holds something other than whitespace. */
  function Indent(text: string, prefix: string): (r: string)
    ensures '\n' !in prefix ==>
      SplitOn(r, "\n") == MapPieces(SplitOn(text, "\n"), line => PrefixLine(line, prefix))
  {
    if '\n' !in prefix then
      LinewiseRewrite(text, '\n', line => PrefixLine(line, prefix));
      Join(MapPieces(SplitOn(text, "\n"), line => PrefixLine(line, prefix)), "\n")
    else
      Join(MapPieces(SplitOn(text, "\n"), line => PrefixLine(line, prefix)), "\n")
  }

  function PrefixLine(line: string, prefix: string): string {
    if AllSpace(line) then line else prefix + line
  }
}
