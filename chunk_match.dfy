/** Ellipsis-aware matching of number sequences: `startswith`, `endswith`,
    `find` and `partial_match` of the doctest output checker.

    Numbers are the textual tokens the number regex extracts; two tokens
    agree when the tolerance test `eq(got, want)` says so. That test is
    passed in and is assumed neither symmetric nor transitive (the
    tolerance is relative to the wanted value). */
module ChunkMatch {

  type Token = string
  type Chunk = seq<Token>

  /** `s` lies over `arr` at index `p`: it fits, and every element of `s`
      agrees with the element of `arr` beneath it. */
  predicate MatchesAt(arr: seq<Token>, s: Chunk, p: int, eq: (Token, Token) -> bool) {
    && 0 <= p && p + |s| <= |arr|
    && forall k :: 0 <= k < |s| ==> eq(arr[p + k], s[k])
  }

  function Reverse<T>(s: seq<T>): (r: seq<T>)
    ensures |r| == |s|
    ensures forall k :: 0 <= k < |s| ==> r[k] == s[|s| - 1 - k]
  {
    seq(|s|, k requires 0 <= k < |s| => s[|s| - 1 - k])
  }

  // ---------------------------------------------------------------------------
  // startswith, endswith
  // ---------------------------------------------------------------------------

  /** `startswith(arr, prefix)`: true for an empty prefix, false when `arr`
      is shorter, otherwise whether every aligned pair agrees. */
  method StartsWith(arr: seq<Token>, prefix: Chunk, eq: (Token, Token) -> bool) returns (r: bool)
    ensures r == MatchesAt(arr, prefix, 0, eq)
    ensures |prefix| == 0 ==> r
    ensures |arr| < |prefix| ==> !r
  {
    if |prefix| == 0 {
      return true;
    }
    if |arr| < |prefix| {
      return false;
    }
    for i := 0 to |prefix|
      invariant forall k :: 0 <= k < i ==> eq(arr[k], prefix[k])
    {
      if !eq(arr[i], prefix[i]) {
        return false;
      }
    }
    return true;
  }

  /** Matching at the end is matching at the start of both reversals. */
  lemma SuffixIsReversedPrefix(arr: seq<Token>, s: Chunk, eq: (Token, Token) -> bool)
    ensures MatchesAt(arr, s, |arr| - |s|, eq) == MatchesAt(Reverse(arr), Reverse(s), 0, eq)
  {
    var ra, rs := Reverse(arr), Reverse(s);
    if |s| <= |arr| {
      if MatchesAt(ra, rs, 0, eq) {
        forall k | 0 <= k < |s|
          ensures eq(arr[|arr| - |s| + k], s[k])
        {
          var j := |s| - 1 - k;
          assert ra[j] == arr[|arr| - |s| + k] && rs[j] == s[k];
        }
      }
      if MatchesAt(arr, s, |arr| - |s|, eq) {
        forall j | 0 <= j < |rs|
          ensures eq(ra[j], rs[j])
        {
          var k := |s| - 1 - j;
          assert ra[j] == arr[|arr| - |s| + k] && rs[j] == s[k];
        }
      }
    }
  }

  /** `endswith(arr, postfix)`, computed as the source does it: `startswith`
      of both reversals. */
  method EndsWith(arr: seq<Token>, postfix: Chunk, eq: (Token, Token) -> bool) returns (r: bool)
    ensures r == MatchesAt(arr, postfix, |arr| - |postfix|, eq)
    ensures |postfix| == 0 ==> r
    ensures |arr| < |postfix| ==> !r
  {
    SuffixIsReversedPrefix(arr, postfix, eq);
    r := StartsWith(Reverse(arr), Reverse(postfix), eq);
  }

  // ---------------------------------------------------------------------------
  // find
  // ---------------------------------------------------------------------------

  /** `s` can be placed at `j` inside the window `[start, end)` of `arr`. */
  predicate PlacedAt(arr: seq<Token>, s: Chunk, j: int, start: int, end: int, eq: (Token, Token) -> bool) {
    start <= j && j + |s| <= end && MatchesAt(arr, s, j, eq)
  }

  /** The leftmost placement of `s` inside `[from, end)`, or -1 when there is
      none; an empty `s` is found at `from`. */
  function Leftmost(arr: seq<Token>, s: Chunk, from: nat, end: nat, eq: (Token, Token) -> bool): (r: int)
    ensures |s| == 0 ==> r == from
    ensures r >= -1
    decreases |arr| - from
  {
    if |s| == 0 then from
    else if from + |s| > end || from + |s| > |arr| then -1
    else if MatchesAt(arr, s, from, eq) then from
    else Leftmost(arr, s, from + 1, end, eq)
  }

  /** The answer is a placement, and no placement lies to its left. */
  lemma {:induction false} LeftmostIsLeftmost(arr: seq<Token>, s: Chunk, from: nat, end: nat, eq: (Token, Token) -> bool)
    requires |s| > 0
    ensures var r := Leftmost(arr, s, from, end, eq);
      && (r != -1 ==> PlacedAt(arr, s, r, from, end, eq))
      && (forall j :: PlacedAt(arr, s, j, from, end, eq) ==> r != -1 && r <= j)
    decreases |arr| - from
  {
    if from + |s| <= end && from + |s| <= |arr| && !MatchesAt(arr, s, from, eq) {
      LeftmostIsLeftmost(arr, s, from + 1, end, eq);
      assert forall j :: PlacedAt(arr, s, j, from, end, eq) ==> PlacedAt(arr, s, j, from + 1, end, eq);
    }
  }

  /** A placement found inside `[from, end)` stays inside it. */
  lemma LeftmostFits(arr: seq<Token>, s: Chunk, from: nat, end: nat, eq: (Token, Token) -> bool)
    requires from <= end
    ensures var r := Leftmost(arr, s, from, end, eq); r >= 0 ==> from <= r && r + |s| <= end
  {
    if |s| > 0 {
      LeftmostIsLeftmost(arr, s, from, end, eq);
    }
  }

  /** Moving past a position where `s` cannot be placed loses nothing. */
  lemma LeftmostSkip(arr: seq<Token>, s: Chunk, i: nat, end: nat, eq: (Token, Token) -> bool)
    requires |s| > 0
    requires !PlacedAt(arr, s, i, i, end, eq)
    ensures Leftmost(arr, s, i, end, eq) == Leftmost(arr, s, i + 1, end, eq)
  {
  }

  /** A match at the start of `arr[lo..hi][i..]` is a placement at `lo + i`. */
  lemma WindowMatch(arr: seq<Token>, s: Chunk, lo: nat, hi: nat, i: nat, eq: (Token, Token) -> bool)
    requires lo <= hi <= |arr| && i <= hi - lo
    ensures MatchesAt(arr[lo..hi][i..], s, 0, eq) <==> PlacedAt(arr, s, lo + i, lo, hi, eq)
  {
    var w := arr[lo..hi][i..];
    assert forall k :: 0 <= k < |w| ==> w[k] == arr[lo + i + k];
    if PlacedAt(arr, s, lo + i, lo, hi, eq) {
      forall k | 0 <= k < |s|
        ensures eq(w[k], s[k])
      {
        assert w[k] == arr[lo + i + k];
      }
    }
  }

  /** One position of the search over `window == arr[start..hi]`: a hit
      there is the leftmost placement, and a miss moves the leftmost
      placement on. */
  lemma FindStep(arr: seq<Token>, s: Chunk, start: nat, end: nat, hi: nat, window: seq<Token>, i: nat, eq: (Token, Token) -> bool)
    requires |s| > 0 && hi == (if end <= |arr| then end else |arr|) && start + i < hi
    requires window == arr[start..hi]
    ensures MatchesAt(window[i..], s, 0, eq) ==> eq(window[i], s[0])
    ensures MatchesAt(window[i..], s, 0, eq) ==> Leftmost(arr, s, start + i, end, eq) == start + i
    ensures !MatchesAt(window[i..], s, 0, eq) ==>
      Leftmost(arr, s, start + i, end, eq) == Leftmost(arr, s, start + i + 1, end, eq)
  {
    WindowMatch(arr, s, start, hi, i, eq);
    if !MatchesAt(window[i..], s, 0, eq) {
      LeftmostSkip(arr, s, start + i, end, eq);
    }
  }

  /** `find(arr, s, start, end)`: search `arr[start:end]` for `s`, compare
      the first element and then the whole of `s`, and answer the index in
      `arr` of the first hit, or -1. */
  method Find(arr: seq<Token>, s: Chunk, start: nat, end: nat, eq: (Token, Token) -> bool) returns (r: int)
    ensures r == Leftmost(arr, s, start, end, eq)
  {
    if |s| == 0 {
      return start;
    }
    // arr[start:end], clamped as Python clamps a slice
    var lo := if start <= |arr| then start else |arr|;
    var hi := if end <= |arr| then end else |arr|;
    var window := if lo <= hi then arr[lo..hi] else [];
    assert |window| > 0 ==> lo == start && window == arr[start..hi];
    for i := 0 to |window|
      invariant Leftmost(arr, s, start, end, eq) == Leftmost(arr, s, start + i, end, eq)
    {
      FindStep(arr, s, start, end, hi, window, i, eq);
      var hit := false;
      if eq(window[i], s[0]) {
        hit := StartsWith(window[i..], s, eq);
      }
      if hit {
        return start + i;
      }
      assert !MatchesAt(window[i..], s, 0, eq);
    }
    return -1;
  }

  // ---------------------------------------------------------------------------
  // Placing chunks in order
  // ---------------------------------------------------------------------------

  /** `ps` places the chunks `cs` inside `[lo, hi)` of `arr`, each one
      matching where it is put, in order and without overlap. */
  ghost predicate Placement(arr: seq<Token>, cs: seq<Chunk>, ps: seq<int>, lo: int, hi: int, eq: (Token, Token) -> bool) {
    && |ps| == |cs|
    && (forall i :: 0 <= i < |cs| ==> PlacedAt(arr, cs[i], ps[i], lo, hi, eq))
    && (forall i, j :: 0 <= i < j < |cs| ==> ps[i] + |cs[i]| <= ps[j])
  }

  /** The loop of `partial_match`: each chunk goes to its leftmost place at
      or after the end of the previous one. */
  function Greedy(arr: seq<Token>, cs: seq<Chunk>, start: nat, end: nat, eq: (Token, Token) -> bool): bool
    decreases |cs|
  {
    if cs == [] then true
    else
      var p := Leftmost(arr, cs[0], start, end, eq);
      p >= 0 && Greedy(arr, cs[1..], p + |cs[0]|, end, eq)
  }

  /** One step of the greedy search, from the `i`-th chunk on. */
  lemma GreedyStep(arr: seq<Token>, cs: seq<Chunk>, i: nat, start: nat, end: nat, eq: (Token, Token) -> bool)
    requires i < |cs|
    ensures Greedy(arr, cs[i..], start, end, eq) <==>
      var p := Leftmost(arr, cs[i], start, end, eq);
      p >= 0 && Greedy(arr, cs[i + 1..], p + |cs[i]|, end, eq)
  {
    assert cs[i..][0] == cs[i] && cs[i..][1..] == cs[i + 1..];
  }

  /** Where the greedy search succeeds, its choices form a placement. */
  lemma {:induction false} GreedySound(arr: seq<Token>, cs: seq<Chunk>, lo: nat, hi: nat, eq: (Token, Token) -> bool)
      returns (ps: seq<int>)
    requires lo <= hi <= |arr|
    requires Greedy(arr, cs, lo, hi, eq)
    ensures Placement(arr, cs, ps, lo, hi, eq)
    decreases |cs|
  {
    if cs == [] {
      ps := [];
    } else {
      var p := Leftmost(arr, cs[0], lo, hi, eq);
      if |cs[0]| > 0 {
        LeftmostIsLeftmost(arr, cs[0], lo, hi, eq);
      }
      var qs := GreedySound(arr, cs[1..], p + |cs[0]|, hi, eq);
      ps := [p] + qs;
      assert [cs[0]] + cs[1..] == cs;
      PlacementPrepend(arr, cs[0], p, cs[1..], qs, lo, p + |cs[0]|, hi, eq);
    }
  }

  /** Where a placement exists, the greedy search finds one: putting each
      chunk as far left as possible never blocks a later chunk. */
  lemma {:induction false} GreedyComplete(arr: seq<Token>, cs: seq<Chunk>, ps: seq<int>, lo: nat, hi: nat, eq: (Token, Token) -> bool)
    requires lo <= hi <= |arr|
    requires Placement(arr, cs, ps, lo, hi, eq)
    ensures Greedy(arr, cs, lo, hi, eq)
    decreases |cs|
  {
    if cs != [] {
      assert PlacedAt(arr, cs[0], ps[0], lo, hi, eq);
      var p := Leftmost(arr, cs[0], lo, hi, eq);
      if |cs[0]| > 0 {
        LeftmostIsLeftmost(arr, cs[0], lo, hi, eq);
      }
      assert p != -1 && p <= ps[0];
      var lo' := p + |cs[0]|;
      assert lo' <= hi;
      forall i | 0 <= i < |cs[1..]|
        ensures PlacedAt(arr, cs[1..][i], ps[1..][i], lo', hi, eq)
      {
        assert PlacedAt(arr, cs[i + 1], ps[i + 1], lo, hi, eq);
        assert ps[0] + |cs[0]| <= ps[i + 1];
      }
      forall i, j | 0 <= i < j < |cs[1..]|
        ensures ps[1..][i] + |cs[1..][i]| <= ps[1..][j]
      {
        assert ps[i + 1] + |cs[i + 1]| <= ps[j + 1];
      }
      GreedyComplete(arr, cs[1..], ps[1..], lo', hi, eq);
    }
  }

  /** Greedy leftmost placement succeeds exactly when some order-preserving,
      non-overlapping placement exists. */
  lemma GreedyIffPlacement(arr: seq<Token>, cs: seq<Chunk>, lo: nat, hi: nat, eq: (Token, Token) -> bool)
    requires lo <= hi <= |arr|
    ensures Greedy(arr, cs, lo, hi, eq) <==> exists ps :: Placement(arr, cs, ps, lo, hi, eq)
  {
    if Greedy(arr, cs, lo, hi, eq) {
      var ps := GreedySound(arr, cs, lo, hi, eq);
    }
    if ps :| Placement(arr, cs, ps, lo, hi, eq) {
      GreedyComplete(arr, cs, ps, lo, hi, eq);
    }
  }

  // ---------------------------------------------------------------------------
  // partial_match
  // ---------------------------------------------------------------------------

  /** The result of `partial_match(arr, chunks)`: a non-empty first chunk
      must match at index 0 and a non-empty last chunk must end at
      `len(arr)`; the two anchored chunks must not overlap; the chunks left
      in the list then go greedily, left to right, between them. */
  function PartialMatches(arr: seq<Token>, chunks: seq<Chunk>, eq: (Token, Token) -> bool): bool
    requires |chunks| >= 2
  {
    var first, last := chunks[0], chunks[|chunks| - 1];
    var dropFirst := if |first| > 0 then 1 else 0;
    var dropLast := if |last| > 0 then 1 else 0;
    && (|first| == 0 || MatchesAt(arr, first, 0, eq))
    && (|last| == 0 || MatchesAt(arr, last, |arr| - |last|, eq))
    && |first| <= |arr| - |last|
    && Greedy(arr, chunks[dropFirst..|chunks| - dropLast], |first|, |arr| - |last|, eq)
  }

  /** Every chunk placed in order without overlap inside `arr`, a non-empty
      first chunk at index 0 and a non-empty last chunk ending at `|arr|`:
      the ellipsis reading of the wanted numbers. */
  ghost predicate AnchoredPlacement(arr: seq<Token>, chunks: seq<Chunk>, eq: (Token, Token) -> bool)
    requires |chunks| >= 2
  {
    exists ps :: AnchoredAt(arr, chunks, ps, eq)
  }

  ghost predicate AnchoredAt(arr: seq<Token>, chunks: seq<Chunk>, ps: seq<int>, eq: (Token, Token) -> bool)
    requires |chunks| >= 2
  {
    var m := |chunks|;
    && Placement(arr, chunks, ps, 0, |arr|, eq)
    && (|chunks[0]| > 0 ==> ps[0] == 0)
    && (|chunks[m - 1]| > 0 ==> ps[m - 1] == |arr| - |chunks[m - 1]|)
  }

  /** `partial_match` is exactly the ellipsis reading: its greedy search
      loses no solution. */
  lemma PartialMatchCorrect(arr: seq<Token>, chunks: seq<Chunk>, eq: (Token, Token) -> bool)
    requires |chunks| >= 2
    ensures PartialMatches(arr, chunks, eq) <==> AnchoredPlacement(arr, chunks, eq)
  {
    if PartialMatches(arr, chunks, eq) {
      PartialMatchToPlacement(arr, chunks, eq);
    }
    if AnchoredPlacement(arr, chunks, eq) {
      var ps :| AnchoredAt(arr, chunks, ps, eq);
      PlacementToPartialMatch(arr, chunks, ps, eq);
    }
  }

  /** A chunk placed before the window of a placement can go in front of it. */
  lemma PlacementPrepend(arr: seq<Token>, c: Chunk, p: int, cs: seq<Chunk>, qs: seq<int>, lo0: int, lo: int, hi: int, eq: (Token, Token) -> bool)
    requires Placement(arr, cs, qs, lo, hi, eq)
    requires PlacedAt(arr, c, p, lo0, hi, eq) && p + |c| <= lo
    ensures Placement(arr, [c] + cs, [p] + qs, lo0, hi, eq)
  {
    var cs', qs' := [c] + cs, [p] + qs;
    forall i | 0 < i < |cs'|
      ensures PlacedAt(arr, cs'[i], qs'[i], lo0, hi, eq) && p + |c| <= qs'[i]
    {
      assert cs'[i] == cs[i - 1] && qs'[i] == qs[i - 1];
    }
    forall i, j | 0 < i < j < |cs'|
      ensures qs'[i] + |cs'[i]| <= qs'[j]
    {
      assert cs'[i] == cs[i - 1] && qs'[i] == qs[i - 1] && qs'[j] == qs[j - 1];
    }
  }

  /** A chunk placed after the window of a placement can go behind it. */
  lemma PlacementAppend(arr: seq<Token>, cs: seq<Chunk>, qs: seq<int>, c: Chunk, p: int, lo: int, hi: int, eq: (Token, Token) -> bool)
    requires Placement(arr, cs, qs, lo, hi, eq)
    requires PlacedAt(arr, c, p, lo, |arr|, eq) && hi <= p
    ensures Placement(arr, cs + [c], qs + [p], lo, |arr|, eq)
  {
    var cs', qs' := cs + [c], qs + [p];
    forall i | 0 <= i < |cs|
      ensures PlacedAt(arr, cs'[i], qs'[i], lo, |arr|, eq) && qs'[i] + |cs'[i]| <= p
    {
      assert cs'[i] == cs[i] && qs'[i] == qs[i];
    }
  }

  /** A placement inside a window is one inside any larger window. */
  lemma PlacementWiden(arr: seq<Token>, cs: seq<Chunk>, qs: seq<int>, lo: int, hi: int, lo': int, hi': int, eq: (Token, Token) -> bool)
    requires Placement(arr, cs, qs, lo, hi, eq)
    requires lo' <= lo && hi <= hi'
    ensures Placement(arr, cs, qs, lo', hi', eq)
  {
  }

  lemma PartialMatchToPlacement(arr: seq<Token>, chunks: seq<Chunk>, eq: (Token, Token) -> bool)
    requires |chunks| >= 2
    requires PartialMatches(arr, chunks, eq)
    ensures AnchoredPlacement(arr, chunks, eq)
  {
    var m := |chunks|;
    var first, last := chunks[0], chunks[m - 1];
    var a := if |first| > 0 then 1 else 0;
    var b := if |last| > 0 then 1 else 0;
    var lo, hi := |first|, |arr| - |last|;
    var qs := GreedySound(arr, chunks[a..m - b], lo, hi, eq);
    // the anchored first chunk goes in front
    var ps1: seq<int>;
    if a == 1 {
      assert [first] + chunks[1..m - b] == chunks[..m - b];
      PlacementPrepend(arr, first, 0, chunks[1..m - b], qs, 0, lo, hi, eq);
      ps1 := [0] + qs;
    } else {
      assert chunks[0..m - b] == chunks[..m - b];
      PlacementWiden(arr, chunks[..m - b], qs, lo, hi, 0, hi, eq);
      ps1 := qs;
    }
    assert Placement(arr, chunks[..m - b], ps1, 0, hi, eq);
    // the anchored last chunk goes behind
    var ps: seq<int>;
    if b == 1 {
      assert chunks[..m - 1] + [last] == chunks;
      PlacementAppend(arr, chunks[..m - 1], ps1, last, hi, 0, hi, eq);
      ps := ps1 + [hi];
    } else {
      assert chunks[..m] == chunks;
      PlacementWiden(arr, chunks, ps1, 0, hi, 0, |arr|, eq);
      ps := ps1;
    }
    assert AnchoredAt(arr, chunks, ps, eq);
  }

  /** The chunks between the anchored ones lie between them. */
  lemma MiddlePlacement(arr: seq<Token>, chunks: seq<Chunk>, ps: seq<int>, a: nat, b: nat, eq: (Token, Token) -> bool)
    requires |chunks| >= 2
    requires AnchoredAt(arr, chunks, ps, eq)
    requires a == (if |chunks[0]| > 0 then 1 else 0)
    requires b == (if |chunks[|chunks| - 1]| > 0 then 1 else 0)
    ensures |chunks[0]| <= |arr| - |chunks[|chunks| - 1]|
    ensures Placement(arr, chunks[a..|chunks| - b], ps[a..|chunks| - b], |chunks[0]|, |arr| - |chunks[|chunks| - 1]|, eq)
  {
    var m := |chunks|;
    var first, last := chunks[0], chunks[m - 1];
    var lo, hi := |first|, |arr| - |last|;
    var middle := chunks[a..m - b];
    var qs := ps[a..m - b];
    assert PlacedAt(arr, chunks[0], ps[0], 0, |arr|, eq);
    assert PlacedAt(arr, chunks[m - 1], ps[m - 1], 0, |arr|, eq);
    assert ps[0] + |first| <= ps[m - 1];
    forall i | 0 <= i < |middle|
      ensures PlacedAt(arr, middle[i], qs[i], lo, hi, eq)
    {
      assert middle[i] == chunks[i + a] && qs[i] == ps[i + a];
      assert PlacedAt(arr, chunks[i + a], ps[i + a], 0, |arr|, eq);
      if a == 1 {
        assert ps[0] + |first| <= ps[i + a];
      }
      if b == 1 {
        assert ps[i + a] + |chunks[i + a]| <= ps[m - 1];
      }
    }
    forall i, j | 0 <= i < j < |middle|
      ensures qs[i] + |middle[i]| <= qs[j]
    {
      assert ps[i + a] + |chunks[i + a]| <= ps[j + a];
    }
  }

  lemma PlacementToPartialMatch(arr: seq<Token>, chunks: seq<Chunk>, ps: seq<int>, eq: (Token, Token) -> bool)
    requires |chunks| >= 2
    requires AnchoredAt(arr, chunks, ps, eq)
    ensures PartialMatches(arr, chunks, eq)
  {
    var m := |chunks|;
    var a := if |chunks[0]| > 0 then 1 else 0;
    var b := if |chunks[m - 1]| > 0 then 1 else 0;
    assert PlacedAt(arr, chunks[0], ps[0], 0, |arr|, eq);
    assert PlacedAt(arr, chunks[m - 1], ps[m - 1], 0, |arr|, eq);
    MiddlePlacement(arr, chunks, ps, a, b, eq);
    GreedyComplete(arr, chunks[a..m - b], ps[a..m - b], |chunks[0]|, |arr| - |chunks[m - 1]|, eq);
  }

  /** A wider agreement test keeps every anchored placement, so
      `partial_match` stays true when the tolerance is loosened. */
  lemma PartialMatchesMonotone(arr: seq<Token>, chunks: seq<Chunk>, eq: (Token, Token) -> bool, eq': (Token, Token) -> bool)
    requires |chunks| >= 2
    requires forall a, b :: eq(a, b) ==> eq'(a, b)
    requires PartialMatches(arr, chunks, eq)
    ensures PartialMatches(arr, chunks, eq')
  {
    PartialMatchCorrect(arr, chunks, eq);
    PartialMatchCorrect(arr, chunks, eq');
    var ps :| AnchoredAt(arr, chunks, ps, eq);
    forall i | 0 <= i < |chunks|
      ensures PlacedAt(arr, chunks[i], ps[i], 0, |arr|, eq')
    {
      assert PlacedAt(arr, chunks[i], ps[i], 0, |arr|, eq);
    }
    assert AnchoredAt(arr, chunks, ps, eq');
  }

  /** The caller's list of chunks, which `partial_match` shortens in place. */
  class ChunkList {
    var items: seq<Chunk>

    constructor (items: seq<Chunk>)
      ensures this.items == items
    {
      this.items := items;
    }
  }

  /** `partial_match(arr, chunks)`. It deletes a matched non-empty first
      chunk and then a matched non-empty last chunk from the caller's list,
      and touches nothing else in it; on a failed anchor it stops there. */
  method PartialMatch(arr: seq<Token>, chunks: ChunkList, eq: (Token, Token) -> bool) returns (ok: bool)
    requires |chunks.items| >= 2
    modifies chunks
    ensures ok == PartialMatches(arr, old(chunks.items), eq)
    ensures ok <==> AnchoredPlacement(arr, old(chunks.items), eq)
    ensures
      var cs, m := old(chunks.items), |old(chunks.items)|;
      var firstGone := |cs[0]| > 0 && MatchesAt(arr, cs[0], 0, eq);
      var firstOk := |cs[0]| == 0 || firstGone;
      var lastGone := firstOk && |cs[m - 1]| > 0 && MatchesAt(arr, cs[m - 1], |arr| - |cs[m - 1]|, eq);
      chunks.items == cs[(if firstGone then 1 else 0)..m - (if lastGone then 1 else 0)]
  {
    PartialMatchCorrect(arr, chunks.items, eq);
    ghost var cs := chunks.items;
    ghost var m := |cs|;
    ghost var a := if |cs[0]| > 0 then 1 else 0;
    ghost var b := if |cs[m - 1]| > 0 then 1 else 0;
    var startpos: nat, endpos: nat := 0, |arr|;
    var chunk := chunks.items[0];
    if |chunk| > 0 {
      var hit := StartsWith(arr, chunk, eq);
      if hit {
        startpos := |chunk|;
        chunks.items := chunks.items[1..];
      } else {
        return false;
      }
    }
    assert chunks.items == cs[a..];
    chunk := chunks.items[|chunks.items| - 1];
    if |chunk| > 0 {
      var hit := EndsWith(arr, chunk, eq);
      if hit {
        endpos := endpos - |chunk|;
        chunks.items := chunks.items[..|chunks.items| - 1];
      } else {
        return false;
      }
    }
    assert chunks.items == cs[a..m - b];
    if startpos > endpos {
      return false;
    }
    assert PartialMatches(arr, cs, eq) == Greedy(arr, chunks.items, startpos, endpos, eq);
    ok := PlaceInOrder(arr, chunks.items, startpos, endpos, eq);
  }

  /** The closing loop of `partial_match`: each chunk in turn is searched for
      from the end of the previous one up to `endpos`. */
  method PlaceInOrder(arr: seq<Token>, cs: seq<Chunk>, startpos: nat, endpos: nat, eq: (Token, Token) -> bool) returns (ok: bool)
    requires startpos <= endpos
    ensures ok == Greedy(arr, cs, startpos, endpos, eq)
  {
    var pos: nat := startpos;
    for i := 0 to |cs|
      invariant pos <= endpos
      invariant Greedy(arr, cs, startpos, endpos, eq) == Greedy(arr, cs[i..], pos, endpos, eq)
    {
      GreedyStep(arr, cs, i, pos, endpos, eq);
      var found := Find(arr, cs[i], pos, endpos, eq);
      LeftmostFits(arr, cs[i], pos, endpos, eq);
      if found < 0 {
        return false;
      }
      pos := found + |cs[i]|;
    }
    return true;
  }
}
