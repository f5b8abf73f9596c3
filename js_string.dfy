/**
 * The JavaScript string built-ins the preview relies on: `indexOf`, `startsWith`,
 * `replace` with a string pattern, and `trim`.
 *
 * JavaScript strings are sequences of UTF-16 code units while a Dafny `char` is a
 * Unicode scalar value. Every pattern used by the preview is ASCII and every
 * character `trim` removes lies in the Basic Multilingual Plane, so the two views
 * agree on everything stated here for strings without unpaired surrogates (a
 * JavaScript string may hold one; a Dafny `string` cannot).
 */
module JsString {

  /** `pat` occurs in `s` starting at index `i`. */
  predicate OccursAt(s: string, pat: string, i: int)
  {
    0 <= i && i + |pat| <= |s| && s[i..i + |pat|] == pat
  }

  /** `i` is the first index at which `pat` occurs in `s`. */
  ghost predicate IsFirstOccurrence(s: string, pat: string, i: int)
  {
    OccursAt(s, pat, i) && forall j :: 0 <= j < i ==> !OccursAt(s, pat, j)
  }

  /** `s.startsWith(prefix)`: `prefix` occurs at index 0. */
  predicate StartsWith(s: string, prefix: string)
    ensures StartsWith(s, prefix) <==> OccursAt(s, prefix, 0)
  {
    |prefix| <= |s| && s[..|prefix|] == prefix
  }

  /** `s.indexOf(pat, from)`: the least index at or after `from` where `pat`
      occurs, or -1 when there is none. */
  function IndexOf(s: string, pat: string, from: nat): (r: int)
    requires from <= |s|
    decreases |s| - from
    ensures r == -1 || (from <= r && OccursAt(s, pat, r))
    ensures forall i :: from <= i && (r == -1 || i < r) ==> !OccursAt(s, pat, i)
  {
    if |s| < from + |pat| then -1
    else if OccursAt(s, pat, from) then from
    else IndexOf(s, pat, from + 1)
  }

  /** `s.replace(pat, '')`: a string pattern replaces its first occurrence only,
      and leaves `s` alone when it does not occur. */
  function RemoveFirst(s: string, pat: string): (r: string)
    ensures (forall i :: !OccursAt(s, pat, i)) ==> r == s
    ensures forall i :: IsFirstOccurrence(s, pat, i) ==> r == s[..i] + s[i + |pat|..]
  {
    var i := IndexOf(s, pat, 0);
    if i < 0 then s else s[..i] + s[i + |pat|..]
  }

  /** The characters `trim` strips: ECMAScript's WhiteSpace (tab, vertical tab,
      form feed, the byte-order mark and every space separator of category Zs)
      and LineTerminator (line feed, carriage return, U+2028, U+2029). */
  predicate IsWhitespace(c: char)
  {
    || c == '\t' || c == '\n' || c == '\r' || c == ' '
    || c as int == 0x0B || c as int == 0x0C
    || c as int == 0xA0 || c as int == 0x1680
    || (0x2000 <= c as int <= 0x200A)
    || c as int == 0x2028 || c as int == 0x2029
    || c as int == 0x202F || c as int == 0x205F
    || c as int == 0x3000 || c as int == 0xFEFF
  }

  /** Neither end of `s` is whitespace. */
  ghost predicate Trimmed(s: string)
  {
    s == [] || (!IsWhitespace(s[0]) && !IsWhitespace(s[|s| - 1]))
  }

  /** Every character of `s` outside `[lo, hi)` is whitespace. */
  ghost predicate WhitespaceOutside(s: string, lo: int, hi: int)
    requires 0 <= lo <= hi <= |s|
  {
    (forall k :: 0 <= k < lo ==> IsWhitespace(s[k]))
    && (forall k :: hi <= k < |s| ==> IsWhitespace(s[k]))
  }

  /** The trimmed string `r` stands at index `lo` of `s`, and everything around
      it is whitespace. */
  ghost predicate TrimsTo(s: string, lo: int, r: string)
  {
    0 <= lo <= |s| - |r| && s[lo..lo + |r|] == r && WhitespaceOutside(s, lo, lo + |r|) && Trimmed(r)
  }

  /** The index of the first character at or after `i` that is not whitespace,
      or `|s|`. */
  function SkipWhitespace(s: string, i: nat): (lo: nat)
    requires i <= |s|
    decreases |s| - i
    ensures i <= lo <= |s|
    ensures forall k :: i <= k < lo ==> IsWhitespace(s[k])
    ensures lo < |s| ==> !IsWhitespace(s[lo])
  {
    if i < |s| && IsWhitespace(s[i]) then SkipWhitespace(s, i + 1) else i
  }

  /** The index just past the last character before `j` and at or after `lo`
      that is not whitespace, or `lo`. */
  function SkipWhitespaceBack(s: string, lo: nat, j: nat): (hi: nat)
    requires lo <= j <= |s|
    ensures lo <= hi <= j
    ensures forall k :: hi <= k < j ==> IsWhitespace(s[k])
    ensures lo < hi ==> !IsWhitespace(s[hi - 1])
  {
    if lo < j && IsWhitespace(s[j - 1]) then SkipWhitespaceBack(s, lo, j - 1) else j
  }

  /** `s.trim()`: whitespace removed from both ends, and nothing else. */
  function Trim(s: string): (r: string)
    ensures exists lo :: TrimsTo(s, lo, r)
  {
    var lo := SkipWhitespace(s, 0);
    var hi := SkipWhitespaceBack(s, lo, |s|);
    assert TrimsTo(s, lo, s[lo..hi]);
    s[lo..hi]
  }

  /** There is only one way to cut a trimmed string out of whitespace. */
  lemma TrimsToUnique(s: string, i: int, r: string, j: int, t: string)
    requires TrimsTo(s, i, r) && TrimsTo(s, j, t)
    ensures r == t
  {
    if r != [] {
      assert s[i] == r[0] && s[i + |r| - 1] == r[|r| - 1];
    }
    if t != [] {
      assert s[j] == t[0] && s[j + |t| - 1] == t[|t| - 1];
    }
    if r != [] && t != [] {
      assert i == j && i + |r| == j + |t|;
    }
  }

  /** `trim` is the only way to strip whitespace from both ends of `s`: any
      trimmed `r` found in `s` between whitespace is `Trim(s)`. */
  lemma TrimUnique(s: string, lo: int, r: string)
    requires TrimsTo(s, lo, r)
    ensures r == Trim(s)
  {
    var t := Trim(s);
    var j :| TrimsTo(s, j, t);
    TrimsToUnique(s, lo, r, j, t);
  }

  /** A string without whitespace at either end is its own trim. */
  lemma TrimOfTrimmed(s: string)
    requires Trimmed(s)
    ensures Trim(s) == s
  {
    assert s[0..|s|] == s;
    TrimUnique(s, 0, s);
  }

  /** `trim` is idempotent. */
  lemma TrimIdempotent(s: string)
    ensures Trim(Trim(s)) == Trim(s)
  {
    TrimOfTrimmed(Trim(s));
  }
}
