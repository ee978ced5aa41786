/**
  The string dictionary as its package's tests expect it to behave
  (internal/encoder/encode_test.go runs the integer test cases through it as
  zero-padded decimal strings): the same construction as the integer dictionary,
  over strings. The list of distinct values starts empty rather than holding one
  empty string per input, Encode reports a miss above the last value instead of
  indexing past the end, and Decode takes the value before the first code greater
  than its argument. Transform and the search are those of StringEncoder.
*/
module StringEncoderFixed {
  import opened Wrappers
  import opened ByteCodec
  import opened DictBuild
  import S = StringEncoder

  /** The corrected constructor's promise: the distinct inputs ascending, each once,
      with a width chosen for their number and ordinal codes. */
  ghost predicate Built(de: S.StringDeEncoder, strings: seq<S.GoString>)
  {
    && S.Sorted(de.values)
    && |de.values| == S.Uniques(strings)
    && (forall x :: multiset(de.values)[x] == if x in strings then 1 else 0)
    && de.width == WidthOf(S.Uniques(strings))
    && |de.encoding| == |de.values|
    && (forall i :: 0 <= i < |de.encoding| ==> de.encoding[i] == ToBytes(i, de.width))
  }

  /** Encode: the code at the lower-bound position when that position holds `v`,
      `None` otherwise, including above the last value. */
  function Encode(de: S.StringDeEncoder, v: S.GoString): (r: Option<seq<int>>)
    requires |de.encoding| == |de.values|
    ensures r.Some? ==> exists i :: 0 <= i < |de.values| && de.values[i] == v && r.value == de.encoding[i]
    ensures r.None? && S.Sorted(de.values) ==> v !in de.values
  {
    var idx := S.SearchStrings(de.values, v);
    if idx == |de.values| || de.values[idx] != v then
      if S.Sorted(de.values) then
        S.LowerBound(de.values, v);
        S.NotLessEq(v, v);
        None
      else None
    else Some(de.encoding[idx])
  }

  /** Decode: the value before the first code greater than `buf`. */
  function Decode(de: S.StringDeEncoder, buf: seq<int>): (r: S.GoString)
    requires |de.encoding| == |de.values| && SearchCodes(de.encoding, buf) >= 1
    ensures exists i :: 0 <= i < |de.values| && r == de.values[i]
  {
    de.values[SearchCodes(de.encoding, buf) - 1]
  }

  /** The corrected NewStringDeEncoder: collect the distinct inputs into an empty
      list, sort it, and append each value with its ordinal code. */
  method NewStringDeEncoder(strings: seq<S.GoString>) returns (de: S.StringDeEncoder)
    ensures Built(de, strings)
  {
    var stringset, members := Collect(strings);

    var bytes := BytesByUniques(|stringset|);

    var uniques: seq<S.GoString> := [];
    for i := 0 to |members|
      invariant uniques == members[..i]
    {
      uniques := uniques + [members[i]];
    }
    assert members[..|members|] == members;
    S.DistinctCounts(members);

    uniques := S.SortStrings(uniques);

    var values, encoding := AppendWithCodes(uniques, bytes);
    de := S.StringDeEncoder(values, encoding, bytes);
  }

  // ---------------------------------------------------------------------------
  // What the corrected dictionary answers

  /** Every input string is found at its own position. */
  lemma EncodeStored(de: S.StringDeEncoder, strings: seq<S.GoString>, v: S.GoString)
    requires Built(de, strings) && v in strings
    ensures S.SearchStrings(de.values, v) < |de.values|
    ensures de.values[S.SearchStrings(de.values, v)] == v
    ensures Encode(de, v) == Some(de.encoding[S.SearchStrings(de.values, v)])
  {
    assert multiset(de.values)[v] > 0;
    S.FoundAtLowerBound(de.values, v);
  }

  /** Encode misses exactly the strings that were not input. */
  lemma EncodeMissing(de: S.StringDeEncoder, strings: seq<S.GoString>, v: S.GoString)
    requires Built(de, strings)
    ensures Encode(de, v).None? <==> v !in strings
  {
    if v in strings {
      EncodeStored(de, strings, v);
    } else {
      assert multiset(de.values)[v] == 0;
    }
  }

  /** Up to 256^3 distinct inputs every position has a code of its own. */
  lemma HasRoom(de: S.StringDeEncoder, strings: seq<S.GoString>)
    requires Built(de, strings) && S.Uniques(strings) <= Pow256(3)
    ensures |de.values| <= Pow256(de.width)
  {
    if |de.values| > 0 {
      WidthMinimalUpTo3Bytes(|de.values|);
    }
  }

  /** The round trip the tests check: decoding the code of an input gives it back. */
  lemma RoundTrip(de: S.StringDeEncoder, strings: seq<S.GoString>, v: S.GoString)
    requires Built(de, strings) && |de.values| <= Pow256(de.width) && v in strings
    ensures Encode(de, v).Some?
    ensures SearchCodes(de.encoding, Encode(de, v).value) >= 1
    ensures Decode(de, Encode(de, v).value) == v
  {
    EncodeStored(de, strings, v);
    SearchIssued(de.encoding, de.width, S.SearchStrings(de.values, v));
  }

  /** A smaller string gets a byte-wise smaller code. */
  lemma EncodeOrder(de: S.StringDeEncoder, strings: seq<S.GoString>, a: S.GoString, b: S.GoString)
    requires Built(de, strings) && |de.values| <= Pow256(de.width)
    requires a in strings && b in strings && Less(a, b)
    ensures Encode(de, a).Some? && Encode(de, b).Some?
    ensures Less(Encode(de, a).value, Encode(de, b).value)
  {
    EncodeStored(de, strings, a);
    EncodeStored(de, strings, b);
    var i, j := S.SearchStrings(de.values, a), S.SearchStrings(de.values, b);
    if j <= i {
      assert S.LessEq(b, a);
      S.NotLessEq(b, a);
    }
    CodeOrder(i, j, de.width);
  }

  // ---------------------------------------------------------------------------
  // The "two ints" test case as strings: "01" and "10"

  lemma TwoStringsMultiset(de: S.StringDeEncoder)
    requires Built(de, [[48, 49], [49, 48]])
    ensures multiset(de.values) == multiset([[48, 49], [49, 48]])
  {
    var strings: seq<S.GoString> := [[48, 49], [49, 48]];
    S.TwoStringsCount();
    forall x ensures multiset(de.values)[x] == multiset(strings)[x] {
      S.DistinctCounts(strings);
    }
  }

  lemma TwoStringsLayout(de: S.StringDeEncoder)
    requires Built(de, [[48, 49], [49, 48]])
    ensures de.values == [[48, 49], [49, 48]] && S.Bytes(de) == 1
    ensures de.encoding == [[0], [1]]
  {
    S.TwoStringsCount();
    TwoStringsMultiset(de);
    assert Less([48, 49], [49, 48]);
    S.SortedUnique(de.values, [[48, 49], [49, 48]]);
    assert WidthFrom(2, 0, 1) == 1;
    OneByte(0); OneByte(1);
  }

  /** The expectations of the string test for this case: "01" and "10" encode as
      [0] and [1] and decode back; "00", "02" and "11" are missing and bracketed by
      (none, [0]), ([0], [1]) and ([1], none). */
  lemma TwoStringsScenario(de: S.StringDeEncoder)
    requires Built(de, [[48, 49], [49, 48]])
    ensures |de.values| == |de.encoding| == 2
    ensures Encode(de, [48, 49]) == Some([0]) && Encode(de, [49, 48]) == Some([1])
    ensures SearchCodes(de.encoding, [0]) == 1 && SearchCodes(de.encoding, [1]) == 2
    ensures Decode(de, [0]) == [48, 49] && Decode(de, [1]) == [49, 48]
    ensures Encode(de, [48, 48]) == None && Encode(de, [48, 50]) == None && Encode(de, [49, 49]) == None
    ensures S.Transform(de, [48, 48]) == (None, Some([0]))
    ensures S.Transform(de, [48, 50]) == (Some([0]), Some([1]))
    ensures S.Transform(de, [49, 49]) == (Some([1]), None)
  {
    TwoStringsStored(de);
    TwoStringsGaps(de);
  }

  /** The two inputs encode as [0] and [1] and decode back. */
  lemma TwoStringsStored(de: S.StringDeEncoder)
    requires Built(de, [[48, 49], [49, 48]])
    ensures |de.values| == |de.encoding| == 2
    ensures Encode(de, [48, 49]) == Some([0]) && Encode(de, [49, 48]) == Some([1])
    ensures SearchCodes(de.encoding, [0]) == 1 && SearchCodes(de.encoding, [1]) == 2
    ensures Decode(de, [0]) == [48, 49] && Decode(de, [1]) == [49, 48]
  {
    var strings: seq<S.GoString> := [[48, 49], [49, 48]];
    TwoStringsLayout(de);
    S.TwoStringsCount();
    RoundTrip(de, strings, [48, 49]);
    RoundTrip(de, strings, [49, 48]);
  }

  /** "00", "02" and "11" are missing and bracketed by (none, [0]), ([0], [1]) and
      ([1], none). */
  lemma TwoStringsGaps(de: S.StringDeEncoder)
    requires Built(de, [[48, 49], [49, 48]])
    ensures |de.values| == |de.encoding| == 2
    ensures Encode(de, [48, 48]) == None && Encode(de, [48, 50]) == None && Encode(de, [49, 49]) == None
    ensures S.Transform(de, [48, 48]) == (None, Some([0]))
    ensures S.Transform(de, [48, 50]) == (Some([0]), Some([1]))
    ensures S.Transform(de, [49, 49]) == (Some([1]), None)
  {
    var strings: seq<S.GoString> := [[48, 49], [49, 48]];
    TwoStringsLayout(de);
    S.TwoStringsCount();
    EncodeMissing(de, strings, [48, 48]);
    EncodeMissing(de, strings, [48, 50]);
    EncodeMissing(de, strings, [49, 49]);
    TwoStringsBrackets(de);
  }

  lemma TwoStringsBrackets(de: S.StringDeEncoder)
    requires de.values == [[48, 49], [49, 48]] && de.encoding == [[0], [1]]
    ensures S.Transform(de, [48, 48]) == (None, Some([0]))
    ensures S.Transform(de, [48, 50]) == (Some([0]), Some([1]))
    ensures S.Transform(de, [49, 49]) == (Some([1]), None)
  {
    assert Less([48, 48], [48, 49]);
    assert Less([48, 49], [48, 50]) && Less([48, 50], [49, 48]);
    assert Less([49, 48], [49, 49]);
    assert Less([48, 49], [49, 48]);
    S.TransformNeighbours(de, [48, 48]);
    S.TransformNeighbours(de, [48, 50]);
    S.TransformNeighbours(de, [49, 49]);
  }
}
