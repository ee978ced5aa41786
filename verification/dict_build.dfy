/**
  The steps NewIntDeEncoder and NewStringDeEncoder share
  (internal/encoder/int.go, internal/encoder/string.go): collecting the distinct
  inputs into a set, and appending each sorted value with its ordinal code.
*/
module DictBuild {
  import opened ByteCodec
  import opened Search

  /** The answers of Decode's probe `bytes.Compare(buf, encoding[i]) < 0`. */
  function Above(encoding: seq<seq<int>>, buf: seq<int>): (bits: seq<bool>)
  {
    seq(|encoding|, i requires 0 <= i < |encoding| => Less(buf, encoding[i]))
  }

  /** The binary search of both Decode methods: the first code byte-wise greater than `buf`. */
  function SearchCodes(encoding: seq<seq<int>>, buf: seq<int>): (idx: int)
    ensures 0 <= idx <= |encoding|
  {
    SearchBits(Above(encoding, buf))
  }

  /** When code i is ToBytes(i, width) for every i and all fit the width, the search
      for the code at position k stops right after k. */
  lemma SearchIssued(encoding: seq<seq<int>>, width: nat, k: int)
    requires |encoding| <= Pow256(width) && 0 <= k < |encoding|
    requires forall i :: 0 <= i < |encoding| ==> encoding[i] == ToBytes(i, width)
    ensures SearchCodes(encoding, encoding[k]) == k + 1
  {
    var bits := Above(encoding, encoding[k]);
    forall i | 0 <= i < |encoding|
      ensures bits[i] <==> k < i
    {
      if k < i {
        CodeOrder(k, i, width);
      } else if i < k {
        CodeOrder(i, k, width);
        CompareFlip(encoding[i], encoding[k]);
      }
    }
    assert Monotone(bits);
    SearchFindsFirst(bits);
    assert !bits[k];
    if k + 1 < |bits| {
      assert bits[k + 1];
    }
  }

  predicate Distinct<T(==)>(s: seq<T>)
  {
    forall i, j :: 0 <= i < j < |s| ==> s[i] != s[j]
  }

  /** The loop that fills the Go map used as a set, listing each value the first
      time it enters the set (Go lists the set in map iteration order instead). */
  method Collect<T(==)>(input: seq<T>) returns (valueset: set<T>, uniques: seq<T>)
    ensures valueset == set x | x in input
    ensures forall x :: x in uniques <==> x in valueset
    ensures Distinct(uniques) && |uniques| == |valueset|
  {
    valueset, uniques := {}, [];
    for k := 0 to |input|
      invariant valueset == set j | 0 <= j < k :: input[j]
      invariant forall x :: x in uniques <==> x in valueset
      invariant Distinct(uniques) && |uniques| == |valueset|
    {
      if input[k] !in valueset {
        uniques := uniques + [input[k]];
      }
      valueset := valueset + {input[k]};
    }
  }

  /** The closing loop of both constructors: append each sorted value to `values`
      and its ordinal code to the parallel `encoding`. */
  method AppendWithCodes<T>(uniques: seq<T>, width: int) returns (values: seq<T>, encoding: seq<seq<int>>)
    requires width >= 0
    ensures values == uniques && |encoding| == |uniques|
    ensures forall i :: 0 <= i < |encoding| ==> encoding[i] == ToBytes(i, width)
  {
    values, encoding := [], [];
    for i := 0 to |uniques|
      invariant values == uniques[..i]
      invariant |encoding| == i
      invariant forall j :: 0 <= j < i ==> encoding[j] == ToBytes(j, width)
    {
      values := values + [uniques[i]];
      var code := IntToBytes(i, width);
      encoding := encoding + [code];
    }
  }
}
