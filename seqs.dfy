/** Operations on sequences shared by the heaps and the sliding puzzle. */
module Seqs {

  /** Exchange the entries at `i` and `j` (`_swapItems` of the puzzle and
      the heaps' `swap`), keeping every other entry and the multiset. */
  function Swap<T>(s: seq<T>, i: int, j: int): (r: seq<T>)
    requires 0 <= i < |s| && 0 <= j < |s|
    ensures |r| == |s| && r[i] == s[j] && r[j] == s[i]
    ensures forall k :: 0 <= k < |s| && k != i && k != j ==> r[k] == s[k]
    ensures multiset(r) == multiset(s)
  {
    s[i := s[j]][j := s[i]]
  }
}
