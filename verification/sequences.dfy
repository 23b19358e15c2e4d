/** Sequence operations shared by the array algorithms. */
module Sequences {

  /** std::swap / an exchange of two array slots: positions i and j trade
      their elements, every other position keeps its own, and the elements
      as a whole stay the same. */
  function Swap<T>(s: seq<T>, i: int, j: int): (r: seq<T>)
    requires 0 <= i < |s| && 0 <= j < |s|
    ensures |r| == |s| && r[i] == s[j] && r[j] == s[i]
    ensures forall k :: 0 <= k < |s| && k != i && k != j ==> r[k] == s[k]
    ensures multiset(r) == multiset(s)
  {
    s[i := s[j]][j := s[i]]
  }
}
