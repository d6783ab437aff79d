/**
 * Subsequences witnessed by index lists: `a` is the subsequence of `t`
 * picked at the strictly increasing positions `idx`.
 */
module Subsequences {

  /** `a[k] == t[idx[k]]` for every k, with `idx` strictly increasing and in range. */
  ghost predicate IsSubsequenceAt<T>(a: seq<T>, t: seq<T>, idx: seq<nat>) {
    && |idx| == |a|
    && (forall k :: 0 <= k < |idx| ==> idx[k] < |t| && a[k] == t[idx[k]])
    && (forall k, l :: 0 <= k < l < |idx| ==> idx[k] < idx[l])
  }

  /** Dropping the last element of `t` keeps a witness that does not use it. */
  lemma ExtendSkip<T>(a: seq<T>, t: seq<T>, idx: seq<nat>, x: T)
    requires IsSubsequenceAt(a, t, idx)
    ensures IsSubsequenceAt(a, t + [x], idx)
  {
  }

  /** Appending the same element to both sides extends the witness with the new position. */
  lemma ExtendKeep<T>(a: seq<T>, t: seq<T>, idx: seq<nat>, x: T)
    requires IsSubsequenceAt(a, t, idx)
    ensures IsSubsequenceAt(a + [x], t + [x], idx + [|t|])
  {
  }
}
