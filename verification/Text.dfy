/** String helpers, with the meaning of Rust's `rfind`, `find`, `starts_with` and `ends_with`. */
module Text {

  /** Position of the last `c` in `s`, or -1. */
  function LastIndexOf(s: string, c: char): (r: int)
    ensures -1 <= r < |s|
    ensures r >= 0 ==> s[r] == c
    ensures forall k :: r < k < |s| ==> s[k] != c
  {
    if s == [] then -1
    else if s[|s| - 1] == c then |s| - 1
    else LastIndexOf(s[..|s| - 1], c)
  }

  lemma LastIndexUnique(s: string, c: char, k: nat)
    requires k < |s| && s[k] == c && forall l :: k < l < |s| ==> s[l] != c
    ensures LastIndexOf(s, c) == k
  {
  }

  lemma {:induction false} LastIndexSplits(a: string, c: char, b: string)
    requires c !in b
    ensures LastIndexOf(a + [c] + b, c) == |a|
    decreases |b|
  {
    if b == [] {
      assert (a + [c] + b)[|a|] == c;
    } else {
      var front := b[..|b| - 1];
      LastIndexSplits(a, c, front);
      assert (a + [c] + b)[..|a + [c] + b| - 1] == a + [c] + front;
      assert (a + [c] + b)[|a + [c] + b| - 1] == b[|b| - 1];
    }
  }

  predicate StartsWith(s: string, prefix: string) {
    |prefix| <= |s| && s[..|prefix|] == prefix
  }

  predicate EndsWith(s: string, suffix: string) {
    |suffix| <= |s| && s[|s| - |suffix|..] == suffix
  }

  predicate OccursAt(s: string, pat: string, k: nat) {
    k + |pat| <= |s| && s[k..k + |pat|] == pat
  }

  ghost predicate Contains(s: string, pat: string) {
    exists k: nat :: OccursAt(s, pat, k)
  }

  /** Position of the first occurrence of `pat` at or after `from`, or -1. */
  function FindFrom(s: string, pat: string, from: nat): (r: int)
    requires from <= |s|
    ensures r >= 0 ==> from <= r && OccursAt(s, pat, r) && forall k: nat :: from <= k < r ==> !OccursAt(s, pat, k)
    ensures r < 0 ==> r == -1 && forall k: nat :: from <= k ==> !OccursAt(s, pat, k)
    decreases |s| - from
  {
    if OccursAt(s, pat, from) then from
    else if from == |s| then -1
    else FindFrom(s, pat, from + 1)
  }

  function Find(s: string, pat: string): int { FindFrom(s, pat, 0) }
}
