/** `find_subsequence` of src/lib.rs: first-occurrence search of a byte pattern. */
module Search {
  import opened Base

  /** `needle` occurs in `haystack` starting at index `p`. */
  predicate OccursAt(haystack: seq<byte>, needle: seq<byte>, p: nat) {
    p + |needle| <= |haystack| && haystack[p..p + |needle|] == needle
  }

  /** `p` is the least index at which `needle` occurs in `haystack`. */
  predicate FirstOccurrence(haystack: seq<byte>, needle: seq<byte>, p: nat) {
    OccursAt(haystack, needle, p) && forall q | 0 <= q < p :: !OccursAt(haystack, needle, q)
  }

  /**
   * The position of the first window of `haystack` equal to `needle`, as
   * `haystack.windows(needle.len()).position(|w| w == needle)`.  There are no
   * windows at all when the needle is longer than the haystack.  `windows`
   * panics on a window size of zero, so the needle must not be empty.
   */
  function FindSubsequence(haystack: seq<byte>, needle: seq<byte>): (r: Option<nat>)
    requires |needle| > 0
    ensures r.Some? <==> exists p :: OccursAt(haystack, needle, p)
    ensures r.Some? ==> FirstOccurrence(haystack, needle, r.value)
  {
    FindFrom(haystack, needle, 0)
  }

  /** The windows from index `i` on, tried in order. */
  function FindFrom(haystack: seq<byte>, needle: seq<byte>, i: nat): (r: Option<nat>)
    requires |needle| > 0
    ensures r.Some? ==> i <= r.value && OccursAt(haystack, needle, r.value)
    ensures r.Some? ==> forall q | i <= q < r.value :: !OccursAt(haystack, needle, q)
    ensures r.None? ==> forall q | i <= q :: !OccursAt(haystack, needle, q)
    decreases |haystack| - i
  {
    if i + |needle| > |haystack| then None
    else if haystack[i..i + |needle|] == needle then Some(i)
    else FindFrom(haystack, needle, i + 1)
  }
}
