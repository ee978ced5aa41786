/**
  Go's `sort.Search(n, f)`: a binary search for the first index in [0, n) where
  `f` holds, `n` when there is none. The answers of `f` at 0..n-1 are given as
  `bits`; the search only looks at the indices it probes.
*/
module Search {

  /** The search loop from the window [i, j): probe the midpoint and keep the half
      that still can hold the first true answer. */
  function SearchFrom(bits: seq<bool>, i: int, j: int): (r: int)
    requires 0 <= i <= j <= |bits|
    ensures i <= r <= j
    decreases j - i
  {
    if i < j then
      var h := (i + j) / 2;
      if !bits[h] then SearchFrom(bits, h + 1, j) else SearchFrom(bits, i, h)
    else
      i
  }

  function SearchBits(bits: seq<bool>): (r: int)
    ensures 0 <= r <= |bits|
  {
    SearchFrom(bits, 0, |bits|)
  }

  /** `f` is false up to some index and true from there on, as sort.Search assumes. */
  predicate Monotone(bits: seq<bool>)
  {
    forall i, j :: 0 <= i <= j < |bits| && bits[i] ==> bits[j]
  }

  lemma {:induction false} SearchFromFirst(bits: seq<bool>, i: int, j: int)
    requires 0 <= i <= j <= |bits| && Monotone(bits)
    requires forall k :: 0 <= k < i ==> !bits[k]
    requires forall k :: j <= k < |bits| ==> bits[k]
    ensures var r := SearchFrom(bits, i, j);
      (forall k :: 0 <= k < r ==> !bits[k]) && (forall k :: r <= k < |bits| ==> bits[k])
    decreases j - i
  {
    if i < j {
      var h := (i + j) / 2;
      if !bits[h] {
        SearchFromFirst(bits, h + 1, j);
      } else {
        SearchFromFirst(bits, i, h);
      }
    }
  }

  /** On monotone answers the binary search returns the first index where `f` holds. */
  lemma SearchFindsFirst(bits: seq<bool>)
    requires Monotone(bits)
    ensures forall k :: 0 <= k < SearchBits(bits) ==> !bits[k]
    ensures forall k :: SearchBits(bits) <= k < |bits| ==> bits[k]
  {
    SearchFromFirst(bits, 0, |bits|);
  }
}
