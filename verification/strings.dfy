/**
 Substring search on strings, the way JavaScript's `String.prototype.indexOf`
 does it: the first index at which a pattern occurs, or -1.  The empty pattern
 occurs at index 0 of every string.
 */
module Strings {

  /** `pat` occurs in `s` starting at index `i`. */
  predicate IsAt(s: string, pat: string, i: int) {
    0 <= i && i + |pat| <= |s| && s[i..i + |pat|] == pat
  }

  /** `pat` occurs somewhere in `s`. */
  ghost predicate Occurs(s: string, pat: string) {
    exists i :: IsAt(s, pat, i)
  }

  /** `i` is the first index at which `pat` occurs in `s`. */
  ghost predicate FirstAt(s: string, pat: string, i: int) {
    IsAt(s, pat, i) && forall j :: 0 <= j < i ==> !IsAt(s, pat, j)
  }

  /** First index at or after `k` at which `pat` occurs, or -1. */
  function IndexFrom(s: string, pat: string, k: nat): (r: int)
    requires k <= |s|
    requires forall j :: 0 <= j < k ==> !IsAt(s, pat, j)
    ensures r == -1 || FirstAt(s, pat, r)
    ensures r == -1 ==> forall j :: !IsAt(s, pat, j)
    decreases |s| - k
  {
    if k + |pat| > |s| then -1
    else if s[k..k + |pat|] == pat then k
    else IndexFrom(s, pat, k + 1)
  }

  /** `s.indexOf(pat)`. */
  function IndexOf(s: string, pat: string): (r: int)
    ensures r == -1 || FirstAt(s, pat, r)
    ensures r == -1 <==> !Occurs(s, pat)
  {
    IndexFrom(s, pat, 0)
  }

  /** The first occurrence of a pattern is unique. */
  lemma FirstAtUnique(s: string, pat: string, i: int, j: int)
    requires FirstAt(s, pat, i) && FirstAt(s, pat, j)
    ensures i == j
  {
  }

  /** `indexOf` finds exactly the first occurrence. */
  lemma IndexOfIsFirst(s: string, pat: string, i: int)
    requires FirstAt(s, pat, i)
    ensures IndexOf(s, pat) == i
  {
  }

  /** A pattern placed between two strings occurs right after the first one. */
  lemma IsAtSplice(a: string, pat: string, b: string)
    ensures IsAt(a + pat + b, pat, |a|)
  {
    assert (a + pat + b)[|a|..|a| + |pat|] == pat;
  }

  /** An occurrence in a suffix is an occurrence in the whole string. */
  lemma IsAtSuffix(s: string, pat: string, k: nat, j: int)
    requires k <= |s|
    requires IsAt(s[k..], pat, j)
    ensures IsAt(s, pat, k + j)
  {
    assert s[k..][j..j + |pat|] == s[k + j..k + j + |pat|];
  }

  /** An occurrence in a prefix is an occurrence in the whole string. */
  lemma IsAtPrefix(s: string, pat: string, k: nat, j: int)
    requires k <= |s|
    requires IsAt(s[..k], pat, j)
    ensures IsAt(s, pat, j)
  {
    assert s[..k][j..j + |pat|] == s[j..j + |pat|];
  }
}
