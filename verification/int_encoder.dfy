/**
  The order-preserving dictionary over integers (internal/encoder/int.go).
  Construction collects the distinct input values, sorts them and gives the
  i-th value the code `intToBytes(i, width)`; the lookups are binary searches
  over the immutable `values` and `encoding` slices.
*/
module IntEncoder {
  import opened Wrappers
  import opened Arith
  import opened ByteCodec
  import opened Search
  import opened DictBuild

  /** `intDeEncoder`: `values` ascending, `encoding[i]` the code of `values[i]`. */
  datatype IntDeEncoder = IntDeEncoder(values: seq<int>, encoding: seq<seq<int>>, width: int)

  predicate StrictlySorted(s: seq<int>)
  {
    forall i, j :: 0 <= i < j < |s| ==> s[i] < s[j]
  }

  /** What NewIntDeEncoder promises about the dictionary it builds from `ints`. */
  ghost predicate Built(de: IntDeEncoder, ints: seq<int>)
  {
    && StrictlySorted(de.values)
    && (forall x :: x in de.values <==> x in ints)
    && de.width == WidthOf(|de.values|)
    && |de.encoding| == |de.values|
    && (forall i :: 0 <= i < |de.encoding| ==> de.encoding[i] == ToBytes(i, de.width))
  }

  /** Bytes(): the width of every code. */
  function Bytes(de: IntDeEncoder): (w: int)
    ensures de.width >= 0 && (forall i :: 0 <= i < |de.encoding| ==> de.encoding[i] == ToBytes(i, de.width)) ==>
      forall i :: 0 <= i < |de.encoding| ==> |de.encoding[i]| == w
  {
    de.width
  }

  /** The answers of sort.SearchInts's probe `values[i] >= v`. */
  function AtLeast(values: seq<int>, v: int): (bits: seq<bool>)
  {
    seq(|values|, i requires 0 <= i < |values| => values[i] >= v)
  }

  /** sort.SearchInts: the first index whose value is at least `v`. */
  function SearchInts(values: seq<int>, v: int): (idx: int)
    ensures 0 <= idx <= |values|
  {
    SearchBits(AtLeast(values, v))
  }

  /** On ascending values SearchInts is the lower bound of `v`. */
  lemma LowerBound(values: seq<int>, v: int)
    requires SortedInts(values)
    ensures forall k :: 0 <= k < SearchInts(values, v) ==> values[k] < v
    ensures forall k :: SearchInts(values, v) <= k < |values| ==> values[k] >= v
  {
    var bits := AtLeast(values, v);
    assert Monotone(bits);
    SearchFindsFirst(bits);
    forall k | 0 <= k < SearchInts(values, v) ensures values[k] < v {
      assert !bits[k];
    }
    forall k | SearchInts(values, v) <= k < |values| ensures values[k] >= v {
      assert bits[k];
    }
  }

  /** Encode: the stored code of `v`, or `None` (Go: `nil, false`) when `v` was never seen. */
  function Encode(de: IntDeEncoder, v: int): (r: Option<seq<int>>)
    requires |de.encoding| == |de.values|
    ensures r.Some? ==> exists i :: 0 <= i < |de.values| && de.values[i] == v && r.value == de.encoding[i]
  {
    var idx := SearchInts(de.values, v);
    if idx == |de.values| then None
    else if de.values[idx] != v then None
    else Some(de.encoding[idx])
  }

  /** Transform: the codes of the neighbours bracketing `v`, `None` where there is none.
      An empty dictionary would index `encoding[-1]`. */
  function Transform(de: IntDeEncoder, v: int): (r: (Option<seq<int>>, Option<seq<int>>))
    requires |de.encoding| == |de.values| && |de.values| > 0
    ensures r.0.Some? ==> exists i :: 0 <= i < |de.values| && r.0.value == de.encoding[i]
    ensures r.1.Some? ==> exists i :: 0 <= i < |de.values| && r.1.value == de.encoding[i]
  {
    var idx := SearchInts(de.values, v);
    if idx == |de.values| then (Some(de.encoding[idx - 1]), None)
    else if idx == 0 then (None, Some(de.encoding[idx]))
    else (Some(de.encoding[idx - 1]), Some(de.encoding[idx]))
  }

  /** Decode: the value before the first code greater than `buf`. Go panics when
      `buf` is below every code (index -1). */
  function Decode(de: IntDeEncoder, buf: seq<int>): (r: int)
    requires |de.encoding| == |de.values| && SearchCodes(de.encoding, buf) >= 1
    ensures exists i :: 0 <= i < |de.values| && r == de.values[i]
  {
    de.values[SearchCodes(de.encoding, buf) - 1]
  }

  // ---------------------------------------------------------------------------
  // Construction

  /** Places `x` into an ascending sequence. */
  function Insert(s: seq<int>, x: int): (r: seq<int>)
    requires SortedInts(s)
    ensures SortedInts(r)
    ensures multiset(r) == multiset(s) + multiset{x}
    ensures StrictlySorted(s) && x !in s ==> StrictlySorted(r)
  {
    if s == [] then [x]
    else if x <= s[0] then [x] + s
    else
      var t := Insert(s[1..], x);
      InsertHead(s, x, t);
      [s[0]] + t
  }

  lemma InsertHead(s: seq<int>, x: int, t: seq<int>)
    requires SortedInts(s) && s != [] && s[0] < x
    requires SortedInts(t) && multiset(t) == multiset(s[1..]) + multiset{x}
    requires StrictlySorted(s[1..]) && x !in s[1..] ==> StrictlySorted(t)
    ensures SortedInts([s[0]] + t)
    ensures multiset([s[0]] + t) == multiset(s) + multiset{x}
    ensures StrictlySorted(s) && x !in s ==> StrictlySorted([s[0]] + t)
  {
    assert s == [s[0]] + s[1..];
    HeadBound(s, x, t);
    ConsSorted(s[0], t);
    if StrictlySorted(s) && x !in s {
      assert StrictlySorted(s[1..]) && x !in s[1..];
      ConsStrict(s[0], t);
    }
  }

  lemma ConsSorted(h: int, t: seq<int>)
    requires SortedInts(t) && forall i :: 0 <= i < |t| ==> h <= t[i]
    ensures SortedInts([h] + t)
  {
    var r := [h] + t;
    assert forall i :: 0 < i < |r| ==> r[i] == t[i - 1];
  }

  lemma ConsStrict(h: int, t: seq<int>)
    requires StrictlySorted(t) && forall i :: 0 <= i < |t| ==> h < t[i]
    ensures StrictlySorted([h] + t)
  {
    var r := [h] + t;
    assert forall i :: 0 < i < |r| ==> r[i] == t[i - 1];
  }

  /** Everything inserted after the head lies above it. */
  lemma HeadBound(s: seq<int>, x: int, t: seq<int>)
    requires SortedInts(s) && s != [] && s[0] < x
    requires multiset(t) == multiset(s[1..]) + multiset{x}
    ensures forall i :: 0 <= i < |t| ==> s[0] <= t[i]
    ensures StrictlySorted(s) ==> forall i :: 0 <= i < |t| ==> s[0] < t[i]
  {
    forall i | 0 <= i < |t|
      ensures s[0] <= t[i] && (StrictlySorted(s) ==> s[0] < t[i])
    {
      assert t[i] in multiset(t);
      if t[i] != x {
        assert t[i] in multiset(s[1..]);
        var k :| 0 <= k < |s[1..]| && s[1..][k] == t[i];
        assert s[k + 1] == t[i];
      }
    }
  }

  /** sort.Ints: an ascending permutation of `s` (here by insertion; the library's
      algorithm is not part of this model, only its result). */
  method SortInts(s: seq<int>) returns (r: seq<int>)
    ensures SortedInts(r) && multiset(r) == multiset(s)
    ensures Distinct(s) ==> StrictlySorted(r)
  {
    r := [];
    for i := 0 to |s|
      invariant SortedInts(r) && multiset(r) == multiset(s[..i])
      invariant Distinct(s) ==> StrictlySorted(r)
    {
      PrefixStep(s, i);
      r := Insert(r, s[i]);
    }
    assert s[..|s|] == s;
  }

  /** One more element of the input: its multiset grows by it, and a duplicate-free
      input has not seen it before. */
  lemma PrefixStep(s: seq<int>, i: int)
    requires 0 <= i < |s|
    ensures multiset(s[..i + 1]) == multiset(s[..i]) + multiset{s[i]}
    ensures Distinct(s) ==> s[i] !in multiset(s[..i])
  {
    assert s[..i + 1] == s[..i] + [s[i]];
  }

  /** NewIntDeEncoder: drain the input into a set, list the distinct values,
      sort them, then append each value with its ordinal code. The values are
      listed in order of first occurrence while the set is filled (Go lists
      them in map iteration order); sorting makes the result the same. */
  method NewIntDeEncoder(ints: seq<int>) returns (de: IntDeEncoder)
    ensures Built(de, ints)
    ensures |de.values| == |set x | x in ints|
  {
    var intset, uniques := Collect(ints);

    var bytes := BytesByUniques(|intset|);

    ghost var drawn := uniques;
    uniques := SortInts(uniques);
    assert forall x :: x in uniques <==> x in multiset(uniques);
    assert forall x :: x in drawn <==> x in multiset(drawn);
    assert forall x :: x in uniques <==> x in intset;

    var values, encoding := AppendWithCodes(uniques, bytes);
    de := IntDeEncoder(values, encoding, bytes);
  }

  // ---------------------------------------------------------------------------
  // What the lookups mean

  /** Encode answers exactly for the stored values, with the stored code. */
  lemma EncodeExact(de: IntDeEncoder, v: int)
    requires StrictlySorted(de.values) && |de.encoding| == |de.values|
    ensures forall i :: 0 <= i < |de.values| && de.values[i] == v ==> Encode(de, v) == Some(de.encoding[i])
    ensures v !in de.values ==> Encode(de, v) == None
  {
    LowerBound(de.values, v);
  }

  /** Transform brackets `v`: the lower code is that of the greatest stored value
      below `v`, the upper code that of the smallest stored value not below it. */
  lemma TransformNeighbours(de: IntDeEncoder, v: int)
    requires StrictlySorted(de.values) && |de.encoding| == |de.values| && |de.values| > 0
    ensures Transform(de, v).0 == None <==> forall k :: 0 <= k < |de.values| ==> v <= de.values[k]
    ensures forall k :: (0 <= k < |de.values| && de.values[k] < v && (k + 1 == |de.values| || v <= de.values[k + 1])
                         ==> Transform(de, v).0 == Some(de.encoding[k]))
    ensures Transform(de, v).1 == None <==> forall k :: 0 <= k < |de.values| ==> de.values[k] < v
    ensures forall k :: (0 <= k < |de.values| && v <= de.values[k] && (k == 0 || de.values[k - 1] < v)
                         ==> Transform(de, v).1 == Some(de.encoding[k]))
  {
    LowerBound(de.values, v);
    var n, idx := |de.values|, SearchInts(de.values, v);
    if idx > 0 {
      assert de.values[0] < v;
    }
    if idx < n {
      assert v <= de.values[n - 1];
    }
  }

  /** Decoding an issued code gives back its value. */
  lemma DecodeIssued(de: IntDeEncoder, ints: seq<int>, k: int)
    requires Built(de, ints) && |de.values| <= Pow256(de.width) && 0 <= k < |de.values|
    ensures SearchCodes(de.encoding, de.encoding[k]) == k + 1
    ensures Decode(de, de.encoding[k]) == de.values[k]
  {
    SearchIssued(de.encoding, de.width, k);
  }

  /** Encode and Transform at positions of a sorted dictionary. */
  lemma LookupsAt(de: IntDeEncoder, k: int, v: int)
    requires StrictlySorted(de.values) && |de.encoding| == |de.values| && 0 <= k < |de.values|
    ensures Encode(de, de.values[k]) == Some(de.encoding[k])
    ensures v < de.values[0] ==> Encode(de, v) == None && Transform(de, v) == (None, Some(de.encoding[0]))
    ensures v > de.values[|de.values| - 1] ==>
      (Encode(de, v) == None && Transform(de, v) == (Some(de.encoding[|de.values| - 1]), None))
    ensures k + 1 < |de.values| && de.values[k] < v < de.values[k + 1] ==>
      (Encode(de, v) == None && Transform(de, v) == (Some(de.encoding[k]), Some(de.encoding[k + 1])))
  {
    EncodeExact(de, de.values[k]);
    if v < de.values[0] || v > de.values[|de.values| - 1] || (k + 1 < |de.values| && de.values[k] < v < de.values[k + 1]) {
      LookupsUnstored(de, k, v);
    }
  }

  lemma LookupsUnstored(de: IntDeEncoder, k: int, v: int)
    requires StrictlySorted(de.values) && |de.encoding| == |de.values| && 0 <= k < |de.values|
    requires v < de.values[0] || v > de.values[|de.values| - 1] || (k + 1 < |de.values| && de.values[k] < v < de.values[k + 1])
    ensures Encode(de, v) == None
    ensures v < de.values[0] ==> Transform(de, v) == (None, Some(de.encoding[0]))
    ensures v > de.values[|de.values| - 1] ==> Transform(de, v) == (Some(de.encoding[|de.values| - 1]), None)
    ensures k + 1 < |de.values| && de.values[k] < v < de.values[k + 1] ==>
      Transform(de, v) == (Some(de.encoding[k]), Some(de.encoding[k + 1]))
  {
    Unstored(de.values, k, v);
    EncodeExact(de, v);
    TransformNeighbours(de, v);
  }

  /** Below the first value, above the last, or strictly between neighbours, `v` is
      not stored. */
  lemma Unstored(values: seq<int>, k: int, v: int)
    requires StrictlySorted(values) && 0 <= k < |values|
    requires v < values[0] || v > values[|values| - 1] || (k + 1 < |values| && values[k] < v < values[k + 1])
    ensures v !in values
  {
    forall i | 0 <= i < |values| ensures values[i] != v {
      if i < k {
        assert values[i] < values[k];
      } else if i > k + 1 {
        assert values[k + 1] < values[i];
      }
      assert values[0] <= values[i] <= values[|values| - 1];
    }
  }

  /** Round trip: every value the dictionary was built from encodes and decodes to itself. */
  lemma RoundTrip(de: IntDeEncoder, ints: seq<int>, v: int)
    requires Built(de, ints) && |de.values| <= Pow256(de.width) && v in ints
    ensures Encode(de, v).Some?
    ensures SearchCodes(de.encoding, Encode(de, v).value) >= 1
    ensures Decode(de, Encode(de, v).value) == v
  {
    var k :| 0 <= k < |de.values| && de.values[k] == v;
    EncodeExact(de, v);
    DecodeIssued(de, ints, k);
  }

  /** Order preservation: a smaller value gets a byte-wise smaller code. */
  lemma EncodeOrder(de: IntDeEncoder, ints: seq<int>, a: int, b: int)
    requires Built(de, ints) && |de.values| <= Pow256(de.width)
    requires a in ints && b in ints && a < b
    ensures Encode(de, a).Some? && Encode(de, b).Some?
    ensures Less(Encode(de, a).value, Encode(de, b).value)
  {
    var i :| 0 <= i < |de.values| && de.values[i] == a;
    var j :| 0 <= j < |de.values| && de.values[j] == b;
    EncodeExact(de, a);
    EncodeExact(de, b);
    assert de.encoding[i] == ToBytes(i, de.width) && de.encoding[j] == ToBytes(j, de.width);
    CodeOrder(i, j, de.width);
  }

  /** Up to 256^3 distinct values the chosen width has room for every ordinal. */
  lemma BuiltHasRoom(de: IntDeEncoder, ints: seq<int>)
    requires Built(de, ints) && |de.values| <= Pow256(3)
    ensures |de.values| <= Pow256(de.width)
  {
    if |de.values| > 0 {
      WidthMinimalUpTo3Bytes(|de.values|);
    }
  }

  /** Two ascending duplicate-free sequences with the same elements are equal. */
  lemma {:induction false} SortedUnique(a: seq<int>, b: seq<int>)
    requires StrictlySorted(a) && StrictlySorted(b)
    requires forall x :: x in a <==> x in b
    ensures a == b
    decreases |a|
  {
    if a != [] {
      assert a[0] in a;
      assert a[0] in b;
    }
    if b != [] {
      assert b[0] in b;
      assert b[0] in a;
    }
    if a != [] && b != [] {
      assert a[0] == b[0];
      forall x ensures x in a[1..] <==> x in b[1..] {
        if x in a[1..] {
          assert x in a && x != a[0];
        }
        if x in b[1..] {
          assert x in b && x != b[0];
        }
      }
      SortedUnique(a[1..], b[1..]);
      assert a == [a[0]] + a[1..] && b == [b[0]] + b[1..];
    }
  }

  // ---------------------------------------------------------------------------
  // The dictionaries of the package's tests

  /** Input {1, 10}: one byte, 1 and 10 get codes [0] and [1]. */
  lemma TwoIntsLayout(de: IntDeEncoder)
    requires Built(de, [1, 10])
    ensures de.values == [1, 10] && Bytes(de) == 1
    ensures de.encoding == [[0], [1]]
  {
    SortedUnique(de.values, [1, 10]);
    assert WidthFrom(2, 0, 1) == 1;
    OneByte(0); OneByte(1);
  }

  lemma TwoIntsScenario(de: IntDeEncoder)
    requires Built(de, [1, 10])
    ensures |de.values| == |de.encoding| == 2
    ensures Encode(de, 1) == Some([0]) && Encode(de, 10) == Some([1])
    ensures Encode(de, 0) == None && Encode(de, 2) == None && Encode(de, 11) == None
    ensures Transform(de, 0) == (None, Some([0]))
    ensures Transform(de, 2) == (Some([0]), Some([1]))
    ensures Transform(de, 5) == (Some([0]), Some([1]))
    ensures Transform(de, 11) == (Some([1]), None)
    ensures SearchCodes(de.encoding, [0]) == 1 && Decode(de, [0]) == 1
    ensures SearchCodes(de.encoding, [1]) == 2 && Decode(de, [1]) == 10
  {
    TwoIntsLayout(de);
    EncodeExact(de, 1);
    EncodeExact(de, 10);
    EncodeExact(de, 0);
    EncodeExact(de, 2);
    EncodeExact(de, 11);
    TransformNeighbours(de, 0);
    TransformNeighbours(de, 2);
    TransformNeighbours(de, 5);
    TransformNeighbours(de, 11);
    DecodeIssued(de, [1, 10], 0);
    DecodeIssued(de, [1, 10], 1);
  }

  /** Input 1, 2, ..., 256: still one byte; 256 gets [255]. */
  lemma OneTo256Layout(de: IntDeEncoder)
    requires Built(de, seq(256, i => i + 1))
    ensures |de.values| == |de.encoding| == 256 && Bytes(de) == 1
    ensures de.values[0] == 1 && de.values[99] == 100 && de.values[255] == 256
    ensures de.encoding[0] == [0] && de.encoding[99] == [99] && de.encoding[255] == [255]
  {
    SortedUnique(de.values, seq(256, i => i + 1));
    assert WidthFrom(256, 0, 1) == 1;
    OneByte(0); OneByte(99); OneByte(255);
  }

  lemma OneTo256Scenario(de: IntDeEncoder)
    requires Built(de, seq(256, i => i + 1))
    ensures |de.values| == |de.encoding| == 256 && Bytes(de) == 1
    ensures Encode(de, 1) == Some([0]) && Encode(de, 100) == Some([99]) && Encode(de, 256) == Some([255])
    ensures Encode(de, 0) == None && Encode(de, 257) == None
    ensures Transform(de, 0) == (None, Some([0]))
    ensures Transform(de, 257) == (Some([255]), None)
    ensures SearchCodes(de.encoding, [0]) == 1 && Decode(de, [0]) == 1
    ensures SearchCodes(de.encoding, [99]) == 100 && Decode(de, [99]) == 100
    ensures SearchCodes(de.encoding, [255]) == 256 && Decode(de, [255]) == 256
  {
    OneTo256Layout(de);
    LookupsAt(de, 0, 0);
    LookupsAt(de, 99, 257);
    LookupsAt(de, 255, 257);
    DecodeIssued(de, seq(256, i => i + 1), 0);
    DecodeIssued(de, seq(256, i => i + 1), 99);
    DecodeIssued(de, seq(256, i => i + 1), 255);
  }

  /** Input 1, 3, ..., 515 (258 values): two bytes; 513 gets [1, 0] and 515 gets [1, 1]. */
  lemma OddTo515Layout(de: IntDeEncoder)
    requires Built(de, seq(258, i => 2 * i + 1))
    ensures |de.values| == |de.encoding| == 258 && Bytes(de) == 2
    ensures de.values[0] == 1 && de.values[1] == 3 && de.values[256] == 513 && de.values[257] == 515
    ensures de.encoding[0] == [0, 0] && de.encoding[1] == [0, 1]
    ensures de.encoding[256] == [1, 0] && de.encoding[257] == [1, 1]
  {
    SortedUnique(de.values, seq(258, i => 2 * i + 1));
    assert WidthFrom(258, 0, 1) == WidthFrom(1, 2, 2) == 2;
    assert Pow256(1) == 256;
    assert ToBytes(0, 2) == [0, 0] && ToBytes(1, 2) == [0, 1];
    assert ToBytes(256, 2) == [1, 0] && ToBytes(257, 2) == [1, 1];
  }

  lemma OddTo515Scenario(de: IntDeEncoder)
    requires Built(de, seq(258, i => 2 * i + 1))
    ensures |de.values| == |de.encoding| == 258 && Bytes(de) == 2
    ensures Encode(de, 1) == Some([0, 0]) && Encode(de, 513) == Some([1, 0]) && Encode(de, 515) == Some([1, 1])
    ensures Encode(de, 0) == None && Encode(de, 2) == None && Encode(de, 516) == None
    ensures Transform(de, 0) == (None, Some([0, 0]))
    ensures Transform(de, 2) == (Some([0, 0]), Some([0, 1]))
    ensures Transform(de, 516) == (Some([1, 1]), None)
    ensures SearchCodes(de.encoding, [0, 0]) == 1 && Decode(de, [0, 0]) == 1
    ensures SearchCodes(de.encoding, [1, 0]) == 257 && Decode(de, [1, 0]) == 513
    ensures SearchCodes(de.encoding, [1, 1]) == 258 && Decode(de, [1, 1]) == 515
  {
    OddTo515Layout(de);
    LookupsAt(de, 0, 2);
    LookupsAt(de, 256, 0);
    LookupsAt(de, 257, 516);
    assert Pow256(2) == 65536;
    DecodeIssued(de, seq(258, i => 2 * i + 1), 0);
    DecodeIssued(de, seq(258, i => 2 * i + 1), 256);
    DecodeIssued(de, seq(258, i => 2 * i + 1), 257);
  }
}
