/**
 * The document segmenter of the preview pane:
 *
 *     content.split(/(```mermaid[\s\S]*?```)/g)
 *
 * The regular expression matches a Mermaid fence block: the opener "```mermaid",
 * then as few characters as possible (`[\s\S]*?` is lazy and also matches line
 * breaks), then a closing "```". Because the whole pattern is one capturing
 * group, `split` keeps every matched block in its result, between the prose
 * around it.
 */
module Segmenter {
  import opened Wrappers
  import opened JsString

  const OPENER: string := "```mermaid"
  const FENCE: string := "```"

  /** The regular expression matches `s[q..e]`: the opener at `q`, a fence
      ending at `e`, and, the quantifier being lazy, no fence starting anywhere
      between the end of the opener and that closing fence. */
  ghost predicate BlockAt(s: string, q: int, e: int)
  {
    && OccursAt(s, OPENER, q)
    && q + |OPENER| <= e - |FENCE|
    && OccursAt(s, FENCE, e - |FENCE|)
    && forall c :: q + |OPENER| <= c < e - |FENCE| ==> !OccursAt(s, FENCE, c)
  }

  /** `part` is, as a whole, one match of the regular expression. */
  ghost predicate IsBlock(part: string)
  {
    BlockAt(part, 0, |part|)
  }

  /** The text between a block's opener and its closing fence. */
  ghost function BlockBody(block: string): string
    requires IsBlock(block)
  {
    block[|OPENER|..|block| - |FENCE|]
  }

  /** The match the regular expression makes when it is tried exactly at `q`
      (as `split` tries it): its end, or `None`. After the opener, the lazy
      quantifier stops at the first fence it meets. */
  function MatchAt(s: string, q: nat): (r: Option<nat>)
    ensures r.Some? ==> BlockAt(s, q, r.value)
    ensures r.None? ==> forall e :: !BlockAt(s, q, e)
    ensures r.None? && OccursAt(s, OPENER, q) ==>
      forall d :: q + |OPENER| <= d ==> !OccursAt(s, FENCE, d)
  {
    if !OccursAt(s, OPENER, q) then None
    else
      var c := IndexOf(s, FENCE, q + |OPENER|);
      if c < 0 then None else Some(c + |FENCE|)
  }

  /** The regular expression matches at `q` with at most one end. */
  lemma BlockEndUnique(s: string, q: int, e1: int, e2: int)
    requires BlockAt(s, q, e1) && BlockAt(s, q, e2)
    ensures e1 == e2
  {
  }

  /** The loop of `RegExp.prototype[Symbol.split]`: `p` is where the current
      piece of prose began, `q` the next position at which the expression is
      tried. A match at `q` emits the prose `s[p..q]` and the captured block
      `s[q..e]`, and scanning resumes at `e`; no match moves `q` on by one; at
      the end of the text the rest `s[p..]` is the last piece. */
  function SplitFrom(s: string, p: nat, q: nat): (parts: seq<string>)
    requires p <= q <= |s|
    decreases |s| - q
    ensures |parts| % 2 == 1
  {
    if q == |s| then [s[p..]]
    else
      match MatchAt(s, q)
      case None => SplitFrom(s, p, q + 1)
      case Some(e) => [s[p..q], s[q..e]] + SplitFrom(s, e, e)
  }

  /** `content.split(/(```mermaid[\s\S]*?```)/g)`. The expression never matches
      the empty string, so an empty `content` gives `[""]`, which the algorithm
      produces without a special case. The result has `2k + 1` pieces when the
      expression matched `k` times. */
  function Split(content: string): (parts: seq<string>)
    ensures |parts| % 2 == 1
  {
    SplitFrom(content, 0, 0)
  }

  /** `parts.join('')`. */
  function Concat(parts: seq<string>): (s: string)
  {
    if parts == [] then [] else parts[0] + Concat(parts[1..])
  }

  lemma ConcatPair(a: string, b: string, rest: seq<string>)
    ensures Concat([a, b] + rest) == a + b + Concat(rest)
  {
    assert ([a, b] + rest)[1..] == [b] + rest;
    assert ([b] + rest)[1..] == rest;
  }

  /** An opener begins with a fence. */
  lemma OpenerStartsWithFence(s: string, q: int)
    requires OccursAt(s, OPENER, q)
    ensures OccursAt(s, FENCE, q)
  {
    assert s[q..q + |FENCE|] == s[q..q + |OPENER|][..|FENCE|];
  }

  /** An occurrence inside a slice is an occurrence in the whole string, and
      back. */
  lemma OccursInSlice(s: string, pat: string, lo: int, hi: int, i: int)
    requires 0 <= lo <= hi <= |s| && 0 <= i
    ensures OccursAt(s[lo..hi], pat, i) <==> lo + i + |pat| <= hi && OccursAt(s, pat, lo + i)
  {
    if lo + i + |pat| <= hi {
      var inSlice, inWhole := s[lo..hi][i..i + |pat|], s[lo + i..lo + i + |pat|];
      forall k | 0 <= k < |pat| ensures inSlice[k] == inWhole[k] {
      }
      assert inSlice == inWhole;
    }
  }

  /** A match of the expression, cut out of the text, is a block on its own. */
  lemma BlockInSlice(s: string, q: int, e: int)
    requires BlockAt(s, q, e)
    ensures IsBlock(s[q..e])
  {
    var b := s[q..e];
    OccursInSlice(s, OPENER, q, e, 0);
    OccursInSlice(s, FENCE, q, e, |b| - |FENCE|);
    forall c | |OPENER| <= c < |b| - |FENCE|
      ensures !OccursAt(b, FENCE, c)
    {
      OccursInSlice(s, FENCE, q, e, c);
    }
  }

  // ---------------------------------------------------------------------------
  // What the split promises
  // ---------------------------------------------------------------------------

  /** Joining the pieces gives back the text scanned from `p`. */
  lemma {:induction false} SplitFromJoin(s: string, p: nat, q: nat)
    requires p <= q <= |s|
    decreases |s| - q
    ensures Concat(SplitFrom(s, p, q)) == s[p..]
  {
    if q == |s| {
      assert Concat([s[p..]]) == s[p..] + Concat([]);
    } else {
      match MatchAt(s, q)
      case None => SplitFromJoin(s, p, q + 1);
      case Some(e) =>
        SplitFromJoin(s, e, e);
        ConcatPair(s[p..q], s[q..e], SplitFrom(s, e, e));
        assert s[p..q] + s[q..e] + s[e..] == s[p..];
    }
  }

  /** The capturing group keeps every matched block: concatenating the pieces
      in order reproduces the input exactly. */
  lemma SplitJoin(content: string)
    ensures Concat(Split(content)) == content
  {
    SplitFromJoin(content, 0, 0);
  }

  /** Every odd-indexed piece is a whole match of the expression. */
  lemma {:induction false} SplitFromShape(s: string, p: nat, q: nat)
    requires p <= q <= |s|
    decreases |s| - q
    ensures forall i :: 0 <= i < |SplitFrom(s, p, q)| && i % 2 == 1 ==> IsBlock(SplitFrom(s, p, q)[i])
  {
    if q < |s| {
      match MatchAt(s, q)
      case None => SplitFromShape(s, p, q + 1);
      case Some(e) =>
        SplitFromShape(s, e, e);
        BlockInSlice(s, q, e);
        var rest := SplitFrom(s, e, e);
        var parts := [s[p..q], s[q..e]] + rest;
        forall i | 0 <= i < |parts| && i % 2 == 1 ensures IsBlock(parts[i]) {
          if i > 1 { assert parts[i] == rest[i - 2]; }
        }
    }
  }

  /** With `k` matched blocks the split has `2k + 1` pieces: the blocks sit at
      the odd indices and each of them starts with "```mermaid", ends with
      "```", and holds no "```" in between. */
  lemma SplitShape(content: string)
    ensures forall i :: 0 <= i < |Split(content)| && i % 2 == 1 ==>
      StartsWith(Split(content)[i], OPENER) && IsBlock(Split(content)[i])
  {
    SplitFromShape(content, 0, 0);
    forall i | 0 <= i < |Split(content)| && i % 2 == 1
      ensures StartsWith(Split(content)[i], OPENER)
    {
      assert IsBlock(Split(content)[i]);
    }
  }

  /** Prose pieces before the last. While scanning from `p` to `q` no match
      was found; then every piece of prose except the last holds no opener at
      all. */
  lemma {:induction false} SplitFromProse(s: string, p: nat, q: nat)
    requires p <= q <= |s|
    requires forall c :: p <= c < q ==> MatchAt(s, c).None?
    decreases |s| - q
    ensures forall i, c :: 0 <= i < |SplitFrom(s, p, q)| - 1 && i % 2 == 0 ==>
      !OccursAt(SplitFrom(s, p, q)[i], OPENER, c)
  {
    if q < |s| {
      match MatchAt(s, q)
      case None => SplitFromProse(s, p, q + 1);
      case Some(e) =>
        SplitFromProse(s, e, e);
        var rest := SplitFrom(s, e, e);
        var parts := [s[p..q], s[q..e]] + rest;
        assert SplitFrom(s, p, q) == parts;
        ProseBeforeMatch(s, p, q);
        forall i, c | 0 <= i < |parts| - 1 && i % 2 == 0 ensures !OccursAt(parts[i], OPENER, c) {
          if i > 0 { assert parts[i] == rest[i - 2]; }
        }
    }
  }

  /** The last piece. While scanning from `p` to `q` no match was found; then
      the last piece holds an opener only when no fence follows it. */
  lemma {:induction false} SplitFromLast(s: string, p: nat, q: nat)
    requires p <= q <= |s|
    requires forall c :: p <= c < q ==> MatchAt(s, c).None?
    decreases |s| - q
    ensures UnterminatedOnly(Last(SplitFrom(s, p, q)))
  {
    if q == |s| {
      forall c, d | OccursAt(s[p..], OPENER, c) && c + |OPENER| <= d
        ensures !OccursAt(s[p..], FENCE, d)
      {
        OccursInSlice(s, OPENER, p, |s|, c);
        OccursInSlice(s, FENCE, p, |s|, d);
        assert MatchAt(s, p + c).None?;
      }
    } else {
      match MatchAt(s, q)
      case None => SplitFromLast(s, p, q + 1);
      case Some(e) =>
        SplitFromLast(s, e, e);
        assert Last(SplitFrom(s, p, q)) == Last(SplitFrom(s, e, e));
    }
  }

  /** The prose cut off by a match at `q` holds no opener: every opener in it
      would be followed by the fence the match starts with. */
  lemma ProseBeforeMatch(s: string, p: nat, q: nat)
    requires p <= q <= |s| && OccursAt(s, OPENER, q)
    requires forall c :: p <= c < q ==> MatchAt(s, c).None?
    ensures forall c :: !OccursAt(s[p..q], OPENER, c)
  {
    OpenerStartsWithFence(s, q);
    forall c | 0 <= c ensures !OccursAt(s[p..q], OPENER, c) {
      OccursInSlice(s, OPENER, p, q, c);
      if p + c + |OPENER| <= q {
        NoOpenerBeforeFence(s, p + c, q);
      }
    }
  }

  /** Where the expression fails, an opener has no fence anywhere after it. */
  lemma NoOpenerBeforeFence(s: string, c: nat, d: int)
    requires MatchAt(s, c).None? && OccursAt(s, FENCE, d) && c + |OPENER| <= d
    ensures !OccursAt(s, OPENER, c)
  {
  }

  function Last(parts: seq<string>): string
  {
    if parts == [] then [] else parts[|parts| - 1]
  }

  /** Any opener in `part` is left unterminated: no fence follows it. */
  ghost predicate UnterminatedOnly(part: string)
  {
    forall c, d :: OccursAt(part, OPENER, c) && c + |OPENER| <= d ==> !OccursAt(part, FENCE, d)
  }

  /** Matching is leftmost: no piece of prose before a block contains
      "```mermaid", and the final piece contains it only where no "```"
      follows. */
  lemma SplitProse(content: string)
    ensures forall i, c :: 0 <= i < |Split(content)| - 1 && i % 2 == 0 ==>
      !OccursAt(Split(content)[i], OPENER, c)
    ensures UnterminatedOnly(Last(Split(content)))
  {
    SplitFromProse(content, 0, 0);
    SplitFromLast(content, 0, 0);
  }

  /** Where no match starts at or after `q`, scanning on from `q` leaves the
      rest of the text as one piece. */
  lemma {:induction false} SplitFromNoMatch(s: string, p: nat, q: nat)
    requires p <= q <= |s|
    requires forall c, e :: q <= c ==> !BlockAt(s, c, e)
    decreases |s| - q
    ensures SplitFrom(s, p, q) == [s[p..]]
  {
    if q < |s| {
      assert MatchAt(s, q).None?;
      SplitFromNoMatch(s, p, q + 1);
    }
  }

  /** If the expression matches at or after `q`, the scan finds some match
      (not necessarily that one, which an earlier block may overlap) and gives
      at least three pieces. */
  lemma {:induction false} SplitFromMatch(s: string, p: nat, q: nat, c: int, e: int)
    requires p <= q <= |s|
    requires q <= c && BlockAt(s, c, e)
    decreases |s| - q
    ensures |SplitFrom(s, p, q)| >= 3
  {
    assert q < |s|;
    match MatchAt(s, q)
    case Some(_) =>
    case None =>
      assert c != q;
      SplitFromMatch(s, p, q + 1, c, e);
  }

  /** Text in which the expression matches nowhere, in particular text without
      "```mermaid", is split into exactly one piece: the whole text. */
  lemma SplitSingle(content: string)
    ensures (forall c, e :: !BlockAt(content, c, e)) <==> Split(content) == [content]
    ensures (forall c :: !OccursAt(content, OPENER, c)) ==> Split(content) == [content]
  {
    if forall c, e :: !BlockAt(content, c, e) {
      SplitFromNoMatch(content, 0, 0);
      assert content[0..] == content;
    } else {
      var c, e :| BlockAt(content, c, e);
      SplitFromMatch(content, 0, 0, c, e);
    }
  }

  /** A text that opens with "```mermaid" and has no "```" after the opener
      holds no match at all. */
  lemma UnterminatedHasNoBlock(s: string)
    requires StartsWith(s, OPENER)
    requires forall d :: |OPENER| <= d ==> !OccursAt(s, FENCE, d)
    ensures forall c, e :: !BlockAt(s, c, e)
  {
  }
}
