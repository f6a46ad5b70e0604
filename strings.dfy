/**
 * Substring search over `string` (= `seq<char>`), and the notion of a line
 * as `java.util.regex` sees it: its `.` matches any character except a line
 * terminator.
 */
module Strings {
  import opened Wrappers

  /** `pat` occurs in `s` starting at index `i`. */
  predicate OccursAt(s: string, pat: string, i: int) {
    0 <= i && i + |pat| <= |s| && s[i..i + |pat|] == pat
  }

  ghost predicate Contains(s: string, pat: string) {
    exists i :: OccursAt(s, pat, i)
  }

  ghost predicate IsFirstOccurrence(s: string, pat: string, i: int) {
    OccursAt(s, pat, i) && forall j :: 0 <= j < i ==> !OccursAt(s, pat, j)
  }

  ghost predicate IsLastOccurrence(s: string, pat: string, i: int) {
    OccursAt(s, pat, i) && forall j :: i < j ==> !OccursAt(s, pat, j)
  }

  /** The first index at or after `from` where `pat` occurs, if any. */
  function IndexOfFrom(s: string, pat: string, from: nat): (r: Option<nat>)
    ensures r.Some? ==> from <= r.value && OccursAt(s, pat, r.value)
    ensures r.Some? ==> forall j :: from <= j < r.value ==> !OccursAt(s, pat, j)
    ensures r.None? ==> forall j :: from <= j ==> !OccursAt(s, pat, j)
    decreases |s| - from
  {
    if |s| < from + |pat| then None
    else if OccursAt(s, pat, from) then Some(from)
    else IndexOfFrom(s, pat, from + 1)
  }

  /** `String.indexOf`: the first index where `pat` occurs, or `None`. */
  function IndexOf(s: string, pat: string): (r: Option<nat>)
    ensures r.Some? ==> IsFirstOccurrence(s, pat, r.value)
    ensures r.None? <==> !Contains(s, pat)
  {
    IndexOfFrom(s, pat, 0)
  }

  /**
   * The last index in `[lo, hi]` where `pat` occurs; `pat` is known to
   * occur at `lo`, so there always is such an index.
   */
  function LastOccurrenceIn(s: string, pat: string, lo: nat, hi: int): (k: nat)
    requires lo <= hi && OccursAt(s, pat, lo)
    ensures lo <= k <= hi && OccursAt(s, pat, k)
    ensures forall j :: k < j <= hi ==> !OccursAt(s, pat, j)
    decreases hi - lo
  {
    if OccursAt(s, pat, hi) then hi else LastOccurrenceIn(s, pat, lo, hi - 1)
  }

  /** The characters `java.util.regex.Pattern` treats as line terminators. */
  predicate IsLineTerminator(c: char) {
    c == '\n' || c == '\r' || c == '\U{0085}' || c == '\U{2028}' || c == '\U{2029}'
  }

  predicate NoLineTerminatorIn(s: string, lo: int, hi: int)
    requires 0 <= lo && hi <= |s|
  {
    forall j :: lo <= j < hi ==> !IsLineTerminator(s[j])
  }

  predicate SingleLine(s: string) {
    NoLineTerminatorIn(s, 0, |s|)
  }

  /** The start of the line that holds index `i`: just after the nearest terminator before `i`. */
  function LineStart(s: string, i: nat): (p: nat)
    requires i <= |s|
    ensures p <= i && NoLineTerminatorIn(s, p, i)
    ensures p == 0 || IsLineTerminator(s[p - 1])
    decreases i
  {
    if i == 0 || IsLineTerminator(s[i - 1]) then i else LineStart(s, i - 1)
  }

  /** The end of the line that holds index `i`: the nearest terminator at or after `i`, or `|s|`. */
  function LineEnd(s: string, i: nat): (e: nat)
    requires i <= |s|
    ensures i <= e <= |s| && NoLineTerminatorIn(s, i, e)
    ensures e == |s| || IsLineTerminator(s[e])
    decreases |s| - i
  {
    if i == |s| || IsLineTerminator(s[i]) then i else LineEnd(s, i + 1)
  }

  /** An occurrence of a single-line pattern lies within one line of `s`. */
  lemma OccurrenceIsSingleLine(s: string, pat: string, k: int)
    requires SingleLine(pat) && OccursAt(s, pat, k)
    ensures NoLineTerminatorIn(s, k, k + |pat|)
  {
  }
}
