/**
 * Rows of boolean UI flags (the `active` class of FAQ items or of nav links)
 * and the "at most one is set" shape that the accordion and the active-link
 * highlighter both produce.
 */
module Flags {
  import opened Wrappers

  /** No two distinct positions of `flags` are set. */
  predicate AtMostOne(flags: seq<bool>) {
    forall j, k | 0 <= j < |flags| && 0 <= k < |flags| && flags[j] && flags[k] :: j == k
  }

  /** `n` flags of which exactly the one at `k` is set, or none when `k` is None. */
  function Exclusive(n: nat, k: Option<nat>): (r: seq<bool>)
    ensures |r| == n
    ensures AtMostOne(r)
  {
    seq(n, j => k == Some(j))
  }
}
