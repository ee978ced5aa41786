/**
  The dictionary over strings (internal/encoder/string.go). Go strings are
  byte sequences here, ordered by `Compare` as Go orders strings.
  The constructor pre-sizes its list of distinct values with one empty string
  per distinct input and then appends the inputs after them, so the built
  dictionary holds `n` padding entries `""` before the `n` inputs and issues
  `2n` codes from a width chosen for `n`. The lemmas below state what this
  code does, padding included.
*/
module StringEncoder {
  import opened Wrappers
  import opened ByteCodec
  import opened Search
  import opened DictBuild

  /** A Go string: its bytes. */
  type GoString = seq<int>

  /** `stringDeEncoder`: `values` ascending, `encoding[i]` the code of `values[i]`. */
  datatype StringDeEncoder = StringDeEncoder(values: seq<GoString>, encoding: seq<seq<int>>, width: int)

  /** `a <= b` on Go strings. */
  predicate LessEq(a: GoString, b: GoString)
  {
    Compare(a, b) <= 0
  }

  predicate Sorted(s: seq<GoString>)
  {
    forall i, j :: 0 <= i <= j < |s| ==> LessEq(s[i], s[j])
  }

  /** The number of distinct strings in the input. */
  function Uniques(strings: seq<GoString>): nat
  {
    |set x | x in strings|
  }

  /** What NewStringDeEncoder promises about the dictionary it builds from `strings`:
      ascending values holding every distinct input once and `n` more empty strings,
      a width chosen for `n`, and ordinal codes for all `2n` positions. */
  ghost predicate Built(de: StringDeEncoder, strings: seq<GoString>)
  {
    var n := Uniques(strings);
    && Sorted(de.values)
    && |de.values| == 2 * n
    && (forall x :: multiset(de.values)[x] == (if x == [] then n else 0) + (if x in strings then 1 else 0))
    && de.width == WidthOf(n)
    && |de.encoding| == |de.values|
    && (forall i :: 0 <= i < |de.encoding| ==> de.encoding[i] == ToBytes(i, de.width))
  }

  // ---------------------------------------------------------------------------
  // The order on strings

  lemma LessEqTransitive(a: GoString, b: GoString, c: GoString)
    requires LessEq(a, b) && LessEq(b, c)
    ensures LessEq(a, c)
  {
    if a != b && b != c {
      LessTransitive(a, b, c);
    }
  }

  lemma LessEqLess(a: GoString, b: GoString, c: GoString)
    requires LessEq(a, b) && Less(b, c)
    ensures Less(a, c)
  {
    if a != b {
      LessTransitive(a, b, c);
    }
  }

  /** The order is total: what is not at most `b` lies above it. */
  lemma NotLessEq(a: GoString, b: GoString)
    ensures !LessEq(a, b) <==> Less(b, a)
    ensures LessEq(a, b) <==> !Less(b, a)
  {
    CompareFlip(a, b);
  }

  // ---------------------------------------------------------------------------
  // The lookups

  /** Bytes(): the width of every code. */
  function Bytes(de: StringDeEncoder): (w: int)
    ensures de.width >= 0 && (forall i :: 0 <= i < |de.encoding| ==> de.encoding[i] == ToBytes(i, de.width)) ==>
      forall i :: 0 <= i < |de.encoding| ==> |de.encoding[i]| == w
  {
    de.width
  }

  /** The answers of sort.SearchStrings's probe `values[i] >= v`. */
  function AtLeast(values: seq<GoString>, v: GoString): (bits: seq<bool>)
  {
    seq(|values|, i requires 0 <= i < |values| => !Less(values[i], v))
  }

  /** sort.SearchStrings: the first index whose string is at least `v`. */
  function SearchStrings(values: seq<GoString>, v: GoString): (idx: int)
    ensures 0 <= idx <= |values|
  {
    SearchBits(AtLeast(values, v))
  }

  /** On ascending values SearchStrings is the lower bound of `v`. */
  lemma LowerBound(values: seq<GoString>, v: GoString)
    requires Sorted(values)
    ensures forall k :: 0 <= k < SearchStrings(values, v) ==> Less(values[k], v)
    ensures forall k :: SearchStrings(values, v) <= k < |values| ==> !Less(values[k], v)
  {
    var bits := AtLeast(values, v);
    forall i, j | 0 <= i <= j < |bits| && bits[i]
      ensures bits[j]
    {
      if Less(values[j], v) {
        LessEqLess(values[i], values[j], v);
      }
    }
    assert Monotone(bits);
    SearchFindsFirst(bits);
    forall k | 0 <= k < SearchStrings(values, v) ensures Less(values[k], v) {
      assert !bits[k];
    }
    forall k | SearchStrings(values, v) <= k < |values| ensures !Less(values[k], v) {
      assert bits[k];
    }
  }

  /** Encode: `None` (Go: `nil, false`) when the lower-bound position holds another
      string, otherwise the code at that position. Go indexes past the end when `v`
      is above every value; that call is excluded. */
  function Encode(de: StringDeEncoder, v: GoString): (r: Option<seq<int>>)
    requires |de.encoding| == |de.values| && SearchStrings(de.values, v) < |de.values|
    ensures r.Some? ==> exists i :: 0 <= i < |de.values| && de.values[i] == v && r.value == de.encoding[i]
    ensures r.None? ==> v !in de.values || !Sorted(de.values)
  {
    var idx := SearchStrings(de.values, v);
    if idx != |de.values| && de.values[idx] != v then
      if Sorted(de.values) then LowerBound(de.values, v); None else None
    else Some(de.encoding[idx])
  }

  /** Transform: the codes bracketing `v`, with the three branches of the int version.
      An empty dictionary would index `encoding[-1]`. */
  function Transform(de: StringDeEncoder, v: GoString): (r: (Option<seq<int>>, Option<seq<int>>))
    requires |de.encoding| == |de.values| && |de.values| > 0
    ensures r.0.Some? ==> exists i :: 0 <= i < |de.values| && r.0.value == de.encoding[i]
    ensures r.1.Some? ==> exists i :: 0 <= i < |de.values| && r.1.value == de.encoding[i]
  {
    var idx := SearchStrings(de.values, v);
    if idx == |de.values| then (Some(de.encoding[idx - 1]), None)
    else if idx == 0 then (None, Some(de.encoding[idx]))
    else (Some(de.encoding[idx - 1]), Some(de.encoding[idx]))
  }

  /** Decode: the value AT the first code greater than `buf` (the int version takes
      the one before it). Go indexes past the end when no code is greater. */
  function Decode(de: StringDeEncoder, buf: seq<int>): (r: GoString)
    requires |de.encoding| == |de.values| && SearchCodes(de.encoding, buf) < |de.values|
    ensures exists i :: 0 <= i < |de.values| && r == de.values[i]
  {
    de.values[SearchCodes(de.encoding, buf)]
  }

  // ---------------------------------------------------------------------------
  // Construction

  /** `make([]string, n)`: n zero-valued strings. */
  function Padding(n: nat): seq<GoString>
  {
    seq(n, _ => [])
  }

  /** Places `x` into an ascending sequence of strings. */
  function Insert(s: seq<GoString>, x: GoString): (r: seq<GoString>)
    requires Sorted(s)
    ensures Sorted(r)
    ensures multiset(r) == multiset(s) + multiset{x}
  {
    if s == [] then [x]
    else if LessEq(x, s[0]) then
      forall j | 0 <= j < |s| ensures LessEq(x, s[j]) {
        LessEqTransitive(x, s[0], s[j]);
      }
      assert s == [s[0]] + s[1..];
      [x] + s
    else
      NotLessEq(x, s[0]);
      var t := Insert(s[1..], x);
      InsertHead(s, x, t);
      [s[0]] + t
  }

  lemma InsertHead(s: seq<GoString>, x: GoString, t: seq<GoString>)
    requires Sorted(s) && s != [] && Less(s[0], x)
    requires Sorted(t) && multiset(t) == multiset(s[1..]) + multiset{x}
    ensures Sorted([s[0]] + t)
    ensures multiset([s[0]] + t) == multiset(s) + multiset{x}
  {
    assert s == [s[0]] + s[1..];
    forall i | 0 <= i < |t|
      ensures LessEq(s[0], t[i])
    {
      assert t[i] in multiset(t);
      if t[i] != x {
        assert t[i] in multiset(s[1..]);
        var k :| 0 <= k < |s[1..]| && s[1..][k] == t[i];
        assert s[k + 1] == t[i];
      }
    }
  }

  /** sort.Strings: an ascending permutation of `s` (here by insertion; the library's
      algorithm is not part of this model, only its result). */
  method SortStrings(s: seq<GoString>) returns (r: seq<GoString>)
    ensures Sorted(r) && multiset(r) == multiset(s)
  {
    r := [];
    for i := 0 to |s|
      invariant Sorted(r) && multiset(r) == multiset(s[..i])
    {
      assert s[..i + 1] == s[..i] + [s[i]];
      r := Insert(r, s[i]);
    }
    assert s[..|s|] == s;
  }

  /** A duplicate-free sequence holds each of its elements once. */
  lemma {:induction false} DistinctCounts(s: seq<GoString>)
    requires Distinct(s)
    ensures forall x :: multiset(s)[x] == if x in s then 1 else 0
  {
    if s != [] {
      DistinctCounts(s[1..]);
      assert s == [s[0]] + s[1..];
      assert s[0] !in s[1..];
    }
  }

  /** NewStringDeEncoder: fill a set, pre-size the list of distinct values with
      `n` empty strings and append the set's members after them, sort, then append
      each value with its ordinal code. The members are appended in order of first
      occurrence (Go uses map iteration order); sorting makes the result the same. */
  method NewStringDeEncoder(strings: seq<GoString>) returns (de: StringDeEncoder)
    ensures Built(de, strings)
  {
    var stringset, members := Collect(strings);

    var bytes := BytesByUniques(|stringset|);

    var uniques: seq<GoString> := Padding(|stringset|);
    for i := 0 to |members|
      invariant uniques == Padding(|stringset|) + members[..i]
    {
      uniques := uniques + [members[i]];
    }
    assert members[..|members|] == members;
    PaddedCounts(strings, members);

    uniques := SortStrings(uniques);

    var values, encoding := AppendWithCodes(uniques, bytes);
    de := StringDeEncoder(values, encoding, bytes);
  }

  /** The padded list before sorting: `n` empty strings and each distinct input once. */
  lemma PaddedCounts(strings: seq<GoString>, members: seq<GoString>)
    requires Distinct(members) && |members| == Uniques(strings)
    requires forall x :: x in members <==> x in strings
    ensures var n := Uniques(strings);
      forall x :: multiset(Padding(n) + members)[x] == (if x == [] then n else 0) + (if x in strings then 1 else 0)
  {
    var n := Uniques(strings);
    DistinctCounts(members);
    forall x ensures multiset(Padding(n) + members)[x] == (if x == [] then n else 0) + (if x in strings then 1 else 0) {
      PaddingCount(n, x);
    }
  }

  /** `make([]string, n)` holds `n` empty strings and nothing else. */
  lemma {:induction false} PaddingCount(n: nat, x: GoString)
    ensures multiset(Padding(n))[x] == if x == [] then n else 0
  {
    if n > 0 {
      PaddingCount(n - 1, x);
      assert Padding(n) == Padding(n - 1) + [[]];
    }
  }

  // ---------------------------------------------------------------------------
  // What the built dictionary holds and answers

  /** The first `n` values are the padding: empty strings. */
  lemma {:induction false} EmptiesFirst(s: seq<GoString>, i: int)
    requires Sorted(s) && 0 <= i < multiset(s)[[]]
    ensures s[i] == []
  {
    assert [] in multiset(s);
    var j :| 0 <= j < |s| && s[j] == [];
    assert LessEq(s[0], s[j]);
    assert s == [s[0]] + s[1..];
    if i > 0 {
      EmptiesFirst(s[1..], i - 1);
    }
  }

  lemma PaddingFirst(de: StringDeEncoder, strings: seq<GoString>)
    requires Built(de, strings)
    ensures forall i :: 0 <= i < Uniques(strings) ==> de.values[i] == []
  {
    forall i | 0 <= i < Uniques(strings) ensures de.values[i] == [] {
      EmptiesFirst(de.values, i);
    }
  }

  lemma LessEqAntisymmetric(a: GoString, b: GoString)
    requires LessEq(a, b) && LessEq(b, a)
    ensures a == b
  {
    CompareFlip(a, b);
  }

  /** Two ascending sequences with the same elements are equal. */
  lemma {:induction false} SortedUnique(a: seq<GoString>, b: seq<GoString>)
    requires Sorted(a) && Sorted(b) && multiset(a) == multiset(b)
    ensures a == b
    decreases |a|
  {
    if b != [] {
      assert b[0] in multiset(a);
    }
    if a != [] {
      HeadsEqual(a, b);
      TailMultiset(a);
      TailMultiset(b);
      SortedTail(a);
      SortedTail(b);
      SortedUnique(a[1..], b[1..]);
      assert a == [a[0]] + a[1..];
      assert b == [b[0]] + b[1..];
    }
  }

  /** Two ascending sequences with the same elements start alike. */
  lemma HeadsEqual(a: seq<GoString>, b: seq<GoString>)
    requires Sorted(a) && Sorted(b) && multiset(a) == multiset(b) && a != []
    ensures b != [] && a[0] == b[0]
  {
    assert a[0] in multiset(b);
    var j :| 0 <= j < |b| && b[j] == a[0];
    assert b[0] in multiset(a);
    var i :| 0 <= i < |a| && a[i] == b[0];
    assert LessEq(a[0], a[i]);
    assert LessEq(b[0], b[j]);
    LessEqAntisymmetric(a[0], b[0]);
  }

  lemma TailMultiset(a: seq<GoString>)
    requires a != []
    ensures multiset(a[1..]) == multiset(a) - multiset{a[0]}
  {
    assert a == [a[0]] + a[1..];
  }

  lemma SortedTail(a: seq<GoString>)
    requires Sorted(a) && a != []
    ensures Sorted(a[1..])
  {
    var t := a[1..];
    assert forall k :: 0 <= k < |t| ==> t[k] == a[k + 1];
  }

  /** Encode finds every input string, and also the empty string whenever the
      dictionary is non-empty; a non-empty input gets an ordinal at or past `n`. */
  lemma EncodeStored(de: StringDeEncoder, strings: seq<GoString>, v: GoString)
    requires Built(de, strings) && (v in strings || (v == [] && Uniques(strings) > 0))
    ensures SearchStrings(de.values, v) < |de.values|
    ensures de.values[SearchStrings(de.values, v)] == v
    ensures Encode(de, v) == Some(de.encoding[SearchStrings(de.values, v)])
    ensures v != [] ==> Uniques(strings) <= SearchStrings(de.values, v)
    ensures v == [] ==> Encode(de, v) == Some(ToBytes(0, de.width))
  {
    var n := Uniques(strings);
    assert multiset(de.values)[v] > 0;
    FoundAtLowerBound(de.values, v);
    var idx := SearchStrings(de.values, v);
    if v != [] {
      PaddingFirst(de, strings);
    } else {
      LowerBound(de.values, v);
      CompareFlip(de.values[0], v);
      assert idx == 0;
    }
  }

  /** In ascending values a stored string sits at its lower bound. */
  lemma FoundAtLowerBound(values: seq<GoString>, v: GoString)
    requires Sorted(values) && v in values
    ensures SearchStrings(values, v) < |values| && values[SearchStrings(values, v)] == v
  {
    var idx := SearchStrings(values, v);
    LowerBound(values, v);
    var j :| 0 <= j < |values| && values[j] == v;
    NotLessEq(v, v);
    assert idx <= j;
    NotLessEq(values[idx], v);
    assert LessEq(values[idx], values[j]);
    LessEqAntisymmetric(values[idx], v);
  }

  /** Encode misses exactly the strings that were neither input nor padding. */
  lemma EncodeMissing(de: StringDeEncoder, strings: seq<GoString>, v: GoString)
    requires Built(de, strings) && SearchStrings(de.values, v) < |de.values|
    ensures Encode(de, v).None? <==> v !in strings && v != []
  {
    var n := Uniques(strings);
    if v in strings || v == [] {
      if v !in strings {
        assert n > 0;
      }
      EncodeStored(de, strings, v);
    } else {
      assert multiset(de.values)[v] == 0;
    }
  }

  /** Transform brackets `v` between the greatest value below it and the least
      value not below it. */
  lemma TransformNeighbours(de: StringDeEncoder, v: GoString)
    requires Sorted(de.values) && |de.encoding| == |de.values| && |de.values| > 0
    ensures Transform(de, v).0 == None <==> forall k :: 0 <= k < |de.values| ==> !Less(de.values[k], v)
    ensures forall k :: (0 <= k < |de.values| && Less(de.values[k], v) && (k + 1 == |de.values| || !Less(de.values[k + 1], v))
                         ==> Transform(de, v).0 == Some(de.encoding[k]))
    ensures Transform(de, v).1 == None <==> forall k :: 0 <= k < |de.values| ==> Less(de.values[k], v)
    ensures forall k :: (0 <= k < |de.values| && !Less(de.values[k], v) && (k == 0 || Less(de.values[k - 1], v))
                         ==> Transform(de, v).1 == Some(de.encoding[k]))
  {
    LowerBound(de.values, v);
    TransformBelow(de, v);
    TransformAbove(de, v);
  }

  /** The lower code of Transform: that of the greatest value below `v`. */
  lemma TransformBelow(de: StringDeEncoder, v: GoString)
    requires |de.encoding| == |de.values| && |de.values| > 0
    requires forall k :: 0 <= k < SearchStrings(de.values, v) ==> Less(de.values[k], v)
    requires forall k :: SearchStrings(de.values, v) <= k < |de.values| ==> !Less(de.values[k], v)
    ensures Transform(de, v).0 == None <==> forall k :: 0 <= k < |de.values| ==> !Less(de.values[k], v)
    ensures forall k :: (0 <= k < |de.values| && Less(de.values[k], v) && (k + 1 == |de.values| || !Less(de.values[k + 1], v))
                         ==> Transform(de, v).0 == Some(de.encoding[k]))
  {
    var idx := SearchStrings(de.values, v);
    if idx > 0 {
      assert Less(de.values[0], v);
    }
  }

  /** The upper code of Transform: that of the least value not below `v`. */
  lemma TransformAbove(de: StringDeEncoder, v: GoString)
    requires |de.encoding| == |de.values| && |de.values| > 0
    requires forall k :: 0 <= k < SearchStrings(de.values, v) ==> Less(de.values[k], v)
    requires forall k :: SearchStrings(de.values, v) <= k < |de.values| ==> !Less(de.values[k], v)
    ensures Transform(de, v).1 == None <==> forall k :: 0 <= k < |de.values| ==> Less(de.values[k], v)
    ensures forall k :: (0 <= k < |de.values| && !Less(de.values[k], v) && (k == 0 || Less(de.values[k - 1], v))
                         ==> Transform(de, v).1 == Some(de.encoding[k]))
  {
    var n, idx := |de.values|, SearchStrings(de.values, v);
    if idx < n {
      assert !Less(de.values[n - 1], v);
    }
  }

  /** Decoding the code issued at position k gives the string at position k + 1:
      the value after the one that was encoded. */
  lemma DecodeNext(de: StringDeEncoder, strings: seq<GoString>, k: int)
    requires Built(de, strings) && |de.values| <= Pow256(de.width) && 0 <= k && k + 1 < |de.values|
    ensures SearchCodes(de.encoding, de.encoding[k]) == k + 1
    ensures Decode(de, de.encoding[k]) == de.values[k + 1]
  {
    SearchIssued(de.encoding, de.width, k);
  }

  /** Decoding the last issued code indexes past the end. */
  lemma DecodeLastOutOfRange(de: StringDeEncoder, strings: seq<GoString>)
    requires Built(de, strings) && |de.values| <= Pow256(de.width) && |de.values| > 0
    ensures SearchCodes(de.encoding, de.encoding[|de.values| - 1]) == |de.values|
  {
    SearchIssued(de.encoding, de.width, |de.values| - 1);
  }

  /** Up to 128 distinct inputs the `2n` codes fit the width chosen for `n`. */
  lemma RoomUpTo128(de: StringDeEncoder, strings: seq<GoString>)
    requires Built(de, strings) && Uniques(strings) <= 128
    ensures |de.values| <= Pow256(de.width)
  {
    var n := Uniques(strings);
    if n > 0 {
      WidthOneByte(n);
    }
  }

  /** At 129 distinct inputs the width is one byte for 258 positions: position 256
      gets the code of position 0. */
  lemma CodesCollideAt129(de: StringDeEncoder, strings: seq<GoString>)
    requires Built(de, strings) && Uniques(strings) == 129
    ensures Bytes(de) == 1 && |de.encoding| == 258
    ensures de.encoding[0] == de.encoding[256] == [0]
  {
    WidthOneByte(129);
    assert ToBytes(0, 1) == [0];
    assert ToBytes(256, 1) == [0];
  }

  // ---------------------------------------------------------------------------
  // The package's "two ints" case as strings: "01" and "10"

  lemma TwoStringsCount()
    ensures Uniques([[48, 49], [49, 48]]) == 2 && Distinct([[48, 49], [49, 48]])
  {
    var strings: seq<GoString> := [[48, 49], [49, 48]];
    assert strings[0] != strings[1] by {
      assert strings[0][0] != strings[1][0];
    }
    assert Distinct(strings);
    assert (set x | x in strings) == {[48, 49], [49, 48]};
  }

  lemma TwoStringsSorted()
    ensures Sorted([[], [], [48, 49], [49, 48]])
  {
    assert Less([48, 49], [49, 48]);
  }

  lemma TwoStringsMultiset(de: StringDeEncoder)
    requires Built(de, [[48, 49], [49, 48]])
    ensures multiset(de.values) == multiset([[], [], [48, 49], [49, 48]])
  {
    var strings: seq<GoString> := [[48, 49], [49, 48]];
    var expected: seq<GoString> := [[], [], [48, 49], [49, 48]];
    TwoStringsCount();
    assert expected == Padding(2) + strings;
    forall x ensures multiset(de.values)[x] == multiset(expected)[x] {
      assert multiset(strings)[x] == if x in strings then 1 else 0 by {
        DistinctCounts(strings);
      }
      PaddingCount(2, x);
    }
  }

  lemma TwoStringsLayout(de: StringDeEncoder)
    requires Built(de, [[48, 49], [49, 48]])
    ensures de.values == [[], [], [48, 49], [49, 48]] && Bytes(de) == 1
    ensures de.encoding == [[0], [1], [2], [3]]
  {
    TwoStringsCount();
    TwoStringsSorted();
    TwoStringsMultiset(de);
    SortedUnique(de.values, [[], [], [48, 49], [49, 48]]);
    assert WidthFrom(2, 0, 1) == 1;
    OneByte(0); OneByte(1); OneByte(2); OneByte(3);
  }

  /** "01" encodes as [2] rather than [0], and [2] decodes to "10": the round trip
      through Encode and Decode does not give "01" back. The lower bound of "11" is
      past the last value, where Go's Encode indexes out of range. */
  lemma TwoStringsScenario(de: StringDeEncoder)
    requires Built(de, [[48, 49], [49, 48]])
    ensures |de.values| == |de.encoding| == 4
    ensures SearchStrings(de.values, [48, 49]) == 2 && SearchStrings(de.values, [49, 48]) == 3
    ensures SearchStrings(de.values, []) == 0 && SearchStrings(de.values, [48, 48]) == 2
    ensures SearchCodes(de.encoding, [2]) == 3
    ensures Encode(de, [48, 49]) == Some([2]) && Encode(de, [49, 48]) == Some([3])
    ensures Encode(de, []) == Some([0])
    ensures Encode(de, [48, 48]) == None
    ensures Transform(de, [48, 48]) == (Some([1]), Some([2]))
    ensures Decode(de, [2]) == [49, 48]
    ensures Decode(de, Encode(de, [48, 49]).value) != [48, 49]
    ensures SearchStrings(de.values, [49, 49]) == |de.values|
  {
    TwoStringsStored(de);
    TwoStringsGaps(de);
  }

  /** The stored strings of the scenario: where they sit and what they encode as. */
  lemma TwoStringsStored(de: StringDeEncoder)
    requires Built(de, [[48, 49], [49, 48]])
    ensures |de.values| == |de.encoding| == 4
    ensures SearchStrings(de.values, [48, 49]) == 2 && SearchStrings(de.values, [49, 48]) == 3
    ensures SearchStrings(de.values, []) == 0
    ensures SearchCodes(de.encoding, [2]) == 3
    ensures Encode(de, [48, 49]) == Some([2]) && Encode(de, [49, 48]) == Some([3])
    ensures Encode(de, []) == Some([0])
    ensures Decode(de, [2]) == [49, 48]
  {
    var strings: seq<GoString> := [[48, 49], [49, 48]];
    TwoStringsLayout(de);
    TwoStringsCount();
    EncodeStored(de, strings, [48, 49]);
    EncodeStored(de, strings, [49, 48]);
    EncodeStored(de, strings, []);
    DecodeNext(de, strings, 2);
  }

  /** The strings of the scenario that were not input: "00" between the padding and
      "01", "11" above everything. */
  lemma TwoStringsGaps(de: StringDeEncoder)
    requires Built(de, [[48, 49], [49, 48]])
    ensures |de.values| == |de.encoding| == 4
    ensures SearchStrings(de.values, [48, 48]) == 2
    ensures Encode(de, [48, 48]) == None
    ensures Transform(de, [48, 48]) == (Some([1]), Some([2]))
    ensures SearchStrings(de.values, [49, 49]) == |de.values|
  {
    TwoStringsLayout(de);
    assert Less([], [48, 48]) && Less([48, 48], [48, 49]);
    LowerBound(de.values, [48, 48]);
    assert Less([49, 48], [49, 49]);
    LowerBound(de.values, [49, 49]);
  }
}
