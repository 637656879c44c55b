/** The string operations the generator relies on, over `string` (a sequence
    of UTF-16 code units in JavaScript, of chars here): `startsWith` and
    `endsWith` from ringo's `ringo/utils/strings` module, and JavaScript's own
    `indexOf` and `substring`. */
module Strings {

  /** ringo's `strings.startsWith`: `s` begins with `prefix`. */
  predicate StartsWith(s: string, prefix: string) {
    |prefix| <= |s| && s[..|prefix|] == prefix
  }

  /** ringo's `strings.endsWith`: `s` finishes with `suffix` (literal, case-sensitive). */
  predicate EndsWith(s: string, suffix: string) {
    |suffix| <= |s| && s[|s| - |suffix|..] == suffix
  }

  /** `pat` occurs in `s` starting at index `i`. */
  predicate OccursAt(s: string, pat: string, i: int) {
    0 <= i && i + |pat| <= |s| && s[i..i + |pat|] == pat
  }

  ghost predicate Contains(s: string, pat: string) {
    exists i :: OccursAt(s, pat, i)
  }

  /** `s.indexOf(pat, from)`: the first occurrence at or after `from`, or -1. */
  function IndexFrom(s: string, pat: string, from: nat): (r: int)
    ensures r == -1 || (from <= r && OccursAt(s, pat, r))
    ensures r == -1 ==> forall j :: from <= j ==> !OccursAt(s, pat, j)
    ensures r != -1 ==> forall j :: from <= j < r ==> !OccursAt(s, pat, j)
    decreases |s| - from
  {
    if |s| < from + |pat| then -1
    else if OccursAt(s, pat, from) then from
    else IndexFrom(s, pat, from + 1)
  }

  /** `s.indexOf(pat)`: -1 exactly when `pat` does not occur, else its first position. */
  function IndexOf(s: string, pat: string): (r: int)
    ensures r == -1 <==> !Contains(s, pat)
    ensures r != -1 ==> OccursAt(s, pat, r) && forall j :: 0 <= j < r ==> !OccursAt(s, pat, j)
  {
    IndexFrom(s, pat, 0)
  }

  function Clamp(x: int, len: nat): (r: nat)
    ensures r <= len
  {
    if x < 0 then 0 else if x > len then len else x
  }

  /** `s.substring(start, end)` as ECMAScript defines it: both arguments are
      clamped into [0, |s|], and swapped when the first exceeds the second. */
  function JsSubstring(s: string, start: int, end: int): (r: string)
    ensures 0 <= start <= end <= |s| ==> r == s[start..end]
    ensures 0 <= end <= start <= |s| ==> r == s[end..start]
    ensures end < 0 <= start <= |s| ==> r == s[..start]
  {
    var a := Clamp(start, |s|);
    var b := Clamp(end, |s|);
    if a <= b then s[a..b] else s[b..a]
  }

  /** An occurrence inside a slice is an occurrence in the whole string. */
  lemma {:induction false} OccursInSlice(s: string, pat: string, a: nat, b: nat, i: int)
    requires a <= b <= |s|
    requires OccursAt(s[a..b], pat, i)
    ensures OccursAt(s, pat, a + i)
  {
    var slice := s[a..b][i..i + |pat|];
    assert forall k :: 0 <= k < |pat| ==> slice[k] == s[a + i + k];
    assert s[a..b][i..i + |pat|] == s[a + i..a + i + |pat|];
  }
}
