/**
  The three Python string operations the guide scanner relies on, on `string`
  (a `seq<char>`): `str.find`, the substring test `p in w`, and slicing `s[lo:hi]`
  with Python's negative-index and clamping rules.
 */
module Strings {

  /** `p` occurs in `t` starting at index `j`. */
  ghost predicate OccursAt(t: string, p: string, j: int) {
    0 <= j && j + |p| <= |t| && t[j..j + |p|] == p
  }

  /** `p` occurs somewhere in `w` (Python's `p in w`; the empty string occurs in every string). */
  ghost predicate IsSubstring(p: string, w: string) {
    exists j :: OccursAt(w, p, j)
  }

  /** `t.find(p)`: the lowest index at which `p` occurs in `t`, or -1 when it occurs nowhere. */
  function Find(t: string, p: string): (i: int)
    ensures i == -1 || (0 <= i && OccursAt(t, p, i))
    ensures i == -1 <==> !IsSubstring(p, t)
    ensures forall k :: 0 <= k < i ==> !OccursAt(t, p, k)
  {
    FindFrom(t, p, 0)
  }

  /** The lowest index at or after `start` at which `p` occurs in `t`, or -1. */
  function FindFrom(t: string, p: string, start: nat): (i: int)
    decreases |t| - start
    ensures i == -1 || (start <= i && OccursAt(t, p, i))
    ensures i == -1 ==> forall k :: start <= k ==> !OccursAt(t, p, k)
    ensures forall k :: start <= k < i ==> !OccursAt(t, p, k)
  {
    if start + |p| > |t| then -1
    else if t[start..start + |p|] == p then start
    else FindFrom(t, p, start + 1)
  }

  /** A Python slice bound: a negative index counts from the end, then it is clamped to `[0, n]`. */
  function Clamp(k: int, n: nat): (r: nat)
    ensures r <= n
    ensures 0 <= k <= n ==> r == k
  {
    if k < 0 then (if k + n < 0 then 0 else k + n)
    else if k > n then n
    else k
  }

  /** Python's `s[lo:hi]`: empty when the clamped bounds cross. */
  function Slice(s: string, lo: int, hi: int): (r: string)
    ensures |r| <= |s|
    ensures 0 <= lo <= hi <= |s| ==> r == s[lo..hi]
    ensures 0 <= hi <= lo ==> r == []
  {
    var a, b := Clamp(lo, |s|), Clamp(hi, |s|);
    if a < b then s[a..b] else []
  }

  /** `p in w`, computed with `Find`. */
  function Contains(w: string, p: string): (r: bool)
    ensures r <==> IsSubstring(p, w)
  {
    Find(w, p) >= 0
  }

  /**
    `any(c in w for c in cuts)`: some literal of `cuts` occurs in `w`. Every literal is
    tested against the window, which is what the exclusion filter of the scanner means to do.
   */
  function AnyContained(cuts: seq<string>, w: string): (r: bool)
    ensures r <==> exists k :: 0 <= k < |cuts| && IsSubstring(cuts[k], w)
  {
    if cuts == [] then false
    else Contains(w, cuts[0]) || AnyContained(cuts[1..], w)
  }

  /** An occurrence in a suffix is an occurrence in the whole string, shifted by the cut point. */
  lemma OccursInSuffix(t: string, p: string, from: nat, k: int)
    requires from <= |t|
    ensures OccursAt(t[from..], p, k) <==> k >= 0 && OccursAt(t, p, from + k)
  {
    if k >= 0 && k + |p| <= |t| - from {
      assert t[from..][k..k + |p|] == t[from + k..from + k + |p|];
    }
  }
}
