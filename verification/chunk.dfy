/**
  Row chunks and the per-value helpers of a histogram scan (internal/table/chunk.go).
  A chunk holds packed rows; an iterator walks its rows and exposes one column's
  bytes of the current row as a byte view; `byteViewInt` reads those bytes as a
  big-endian unsigned integer and `byteIndexer` maps that integer to a bin slot.
*/
module Chunk {
  import opened Arith
  import opened ByteCodec

  /** `byteView`: a window onto a row. */
  datatype ByteView = ByteView(bs: seq<int>)

  /** `chunk`: packed rows. */
  datatype Chunk = Chunk(data: seq<seq<int>>)

  /** newByteView: the bytes `[start, end)` of `r`. Go slices up to the capacity of
      `r`; only its length is modelled, so the window must lie within it. */
  function NewByteView(r: seq<int>, start: int, end: int): (v: ByteView)
    requires 0 <= start <= end <= |r|
    ensures |v.bs| == end - start
    ensures forall k :: 0 <= k < end - start ==> v.bs[k] == r[start + k]
  {
    ByteView(r[start..end])
  }

  /** `iterator`: a cursor over the rows of one chunk, exposing the bytes
      `[start, end)` of the current row. */
  class Iterator {
    var len: int
    var cursor: int
    var c: Chunk
    var start: int
    var end: int

    constructor (len: int, c: Chunk, start: int, end: int)
      ensures this.len == len && this.cursor == 0 && this.c == c
      ensures this.start == start && this.end == end
    {
      this.len := len;
      this.cursor := 0;
      this.c := c;
      this.start := start;
      this.end := end;
    }

    /** Next: advance, and report whether the cursor is still on a row. */
    method Next() returns (more: bool)
      modifies this
      ensures cursor == old(cursor) + 1
      ensures more <==> cursor <= len
      ensures len == old(len) && c == old(c) && start == old(start) && end == old(end)
    {
      cursor := cursor + 1;
      more := cursor <= len;
    }

    /** Value: the window of the row the last successful Next moved onto. */
    function Value(): (v: ByteView)
      reads this
      requires 1 <= cursor <= |c.data| && 0 <= start <= end <= |c.data[cursor - 1]|
      ensures |v.bs| == end - start
      ensures forall k :: 0 <= k < end - start ==> v.bs[k] == c.data[cursor - 1][start + k]
    {
      NewByteView(c.data[cursor - 1], start, end)
    }
  }

  /** chunk.query: an iterator over all rows of `c`, positioned before the first,
      exposing the `width` bytes from offset `idx`. */
  method Query(c: Chunk, idx: int, width: int) returns (it: Iterator)
    ensures fresh(it)
    ensures it.len == |c.data| && it.cursor == 0 && it.c == c
    ensures it.start == idx && it.end == idx + width
  {
    it := new Iterator(|c.data|, c, idx, idx + width);
  }

  // ---------------------------------------------------------------------------
  // byteViewInt

  /** byteViewInt(length)(bv): the sum of `bs[i] << 8(length-1-i)` over the first
      `length` bytes; one byte is read directly. */
  method ByteViewInt(length: int, bv: ByteView) returns (res: int)
    requires 0 <= length <= |bv.bs|
    ensures res == BigEndian(bv.bs[..length])
  {
    if length == 1 {
      assert bv.bs[..1][1..] == [];
      return bv.bs[0];
    }
    res := 0;
    for i := 0 to length
      invariant res + BigEndian(bv.bs[i..length]) == BigEndian(bv.bs[..length])
    {
      ghost var rest := bv.bs[i..length];
      assert rest[1..] == bv.bs[i + 1..length];
      res := res + bv.bs[i] * Pow256(length - i - 1);
    }
    assert bv.bs[..length] == bv.bs[0..length];
  }

  /** Reading back a code gives its ordinal: byteViewInt inverts intToBytes. */
  lemma ViewOfCode(v: int, width: nat)
    requires 0 <= v < Pow256(width)
    ensures BigEndian(NewByteView(ToBytes(v, width), 0, width).bs[..width]) == v
  {
    CodeRoundTrip(v, width);
    assert NewByteView(ToBytes(v, width), 0, width).bs[..width] == ToBytes(v, width);
  }

  // ---------------------------------------------------------------------------
  // byteViewComparer

  /** At the first position where two equal-length sequences differ, that position
      decides `bytes.Compare`; equal sequences are not less. */
  lemma {:induction false} FirstDifference(a: seq<int>, b: seq<int>, i: int)
    requires |a| == |b| && 0 <= i < |a| && a[..i] == b[..i] && a[i] != b[i]
    ensures Less(a, b) <==> a[i] < b[i]
    decreases i
  {
    if i > 0 {
      assert a[0] == a[..i][0] == b[..i][0] == b[0];
      assert a[1..][..i - 1] == a[..i][1..] == b[..i][1..] == b[1..][..i - 1];
      FirstDifference(a[1..], b[1..], i - 1);
    }
  }

  /** byteViewComparer(length)(bv, cmp): walks the first `length` bytes against the
      bytes of `cmp` (arithmetic shift, low eight bits) and answers at the first
      difference; equal means not less. */
  method ByteViewComparer(length: int, bv: ByteView, cmp: int) returns (less: bool)
    requires 0 <= length <= |bv.bs|
    ensures less <==> Less(bv.bs[..length], ToBytes(cmp, length))
  {
    var code := ToBytes(cmp, length);
    for i := 0 to length
      invariant bv.bs[..i] == code[..i]
    {
      var b := (cmp / Pow256(length - i - 1)) % 256;
      assert b == code[i];
      if bv.bs[i] == b {
        assert bv.bs[..i + 1] == bv.bs[..i] + [bv.bs[i]];
        assert code[..i + 1] == code[..i] + [code[i]];
        continue;
      }
      FirstDifference(bv.bs[..length], code, i);
      assert bv.bs[..length][..i] == bv.bs[..i];
      return bv.bs[i] < b;
    }
    assert bv.bs[..length] == code;
    return false;
  }

  /** For a view of bytes the comparer decides "less than `cmp` modulo 256^length". */
  lemma ComparerIsNumeric(length: nat, bv: ByteView, cmp: int)
    requires length <= |bv.bs| && IsBytes(bv.bs[..length])
    ensures Less(bv.bs[..length], ToBytes(cmp, length)) <==> BigEndian(bv.bs[..length]) < cmp % Pow256(length)
  {
    BigEndianOfToBytes(cmp, length);
    assert IsBytes(ToBytes(cmp, length));
    CompareIsNumeric(bv.bs[..length], ToBytes(cmp, length));
  }

  // ---------------------------------------------------------------------------
  // byteIndexer

  /** The number of bins at or below `v`: the slot the commented-out binary search
      `sort.Search(len(bins), bins[i] > v)` would give. */
  function CountLE(bins: seq<int>, v: int): (n: nat)
    ensures n <= |bins|
  {
    if bins == [] then 0
    else CountLE(bins[..|bins| - 1], v) + (if bins[|bins| - 1] <= v then 1 else 0)
  }

  /** `binW`: the width of an equal-width bin, rounded down. */
  function BinWidth(bins: seq<int>): int
    requires |bins| >= 2
  {
    (bins[|bins| - 1] - bins[0]) / (|bins| - 1)
  }

  /** The first guess of the walk: `((iv - min) / binW) - 1`. */
  function Guess(bins: seq<int>, iv: int): int
    requires |bins| >= 2 && BinWidth(bins) > 0
  {
    (iv - bins[0]) / BinWidth(bins) - 1
  }

  /** What a call of the indexer on value `iv` needs in order not to panic: the
      value is not below the first bin, and unless it is at or past the last bin,
      the bin width is positive and the first guess stays inside `bins`. */
  predicate IndexerDefined(bins: seq<int>, iv: int)
  {
    && |bins| >= 2
    && SortedInts(bins)
    && bins[0] <= iv
    && (iv < bins[|bins| - 1] ==> BinWidth(bins) > 0 && Guess(bins, iv) + 1 <= |bins| - 1)
  }

  /** On sorted bins, slot k is the count of bins at or below `v` exactly when `v`
      lies in `[bins[k-1], bins[k])`, the missing bound open. */
  lemma {:induction false} CountLEPosition(bins: seq<int>, v: int, k: int)
    requires SortedInts(bins) && 0 <= k <= |bins|
    requires k == 0 || bins[k - 1] <= v
    requires k == |bins| || v < bins[k]
    ensures CountLE(bins, v) == k
    decreases |bins|
  {
    if bins != [] {
      var init := bins[..|bins| - 1];
      if k == |bins| {
        if k - 1 > 0 {
          assert init[k - 2] <= bins[k - 1];
        }
        CountLEPosition(init, v, k - 1);
      } else {
        CountLEPosition(init, v, k);
      }
    }
  }

  /** byteIndexer(width, bins)(v): decode the view; at or past the last bin give
      `len(bins)`; otherwise guess a bin from the equal-width estimate and walk
      left or right, never turning back, until `bins[idx] <= iv < bins[idx+1]`. */
  method ByteIndexer(width: int, bins: seq<int>, v: ByteView) returns (slot: int)
    requires 0 <= width <= |v.bs|
    requires IndexerDefined(bins, BigEndian(v.bs[..width]))
    ensures slot == CountLE(bins, BigEndian(v.bs[..width]))
  {
    var iv := ByteViewInt(width, v);
    var max, min := bins[|bins| - 1], bins[0];
    if iv >= max {
      CountLEPosition(bins, iv, |bins|);
      return |bins|;
    }
    var binW := (max - min) / (|bins| - 1);
    var idx := ((iv - min) / binW) - 1;
    var dir := 0;
    while true
      invariant -1 <= idx <= |bins| - 2
      invariant idx == -1 ==> dir == 0
      invariant dir == 0 || dir == 1 || dir == -1
      invariant dir == 1 ==> 0 <= idx && bins[idx] <= iv
      invariant dir == -1 ==> iv < bins[idx + 1]
      decreases (if dir == 0 then 1 else 0), (if dir == 1 then |bins| - idx else idx + 1)
    {
      if iv < bins[idx + 1] {
        if iv >= bins[idx] {
          CountLEPosition(bins, iv, idx + 1);
          return idx + 1;
        }
        if dir == 1 || idx == 0 {
          assert false;
          return 0;
        }
        idx := idx - 1;
        dir := -1;
        continue;
      }
      if dir == -1 || idx == |bins| - 1 {
        assert false;
        return |bins|;
      }
      idx := idx + 1;
      dir := 1;
    }
  }

  /** The slot lies in `1..len(bins)`; `len(bins)` exactly at or past the last bin,
      otherwise slot j brackets the value as `bins[j-1] <= v < bins[j]`. */
  lemma SlotMeaning(bins: seq<int>, v: int)
    requires IndexerDefined(bins, v)
    ensures 1 <= CountLE(bins, v) <= |bins|
    ensures CountLE(bins, v) == |bins| <==> v >= bins[|bins| - 1]
    ensures CountLE(bins, v) < |bins| ==> bins[CountLE(bins, v) - 1] <= v < bins[CountLE(bins, v)]
  {
    var n := |bins|;
    var k := 0;
    while k < n && bins[k] <= v
      invariant 0 <= k <= n
      invariant forall j :: 0 <= j < k ==> bins[j] <= v
    {
      k := k + 1;
    }
    CountLEPosition(bins, v, k);
  }

  /** Sorted bins whose value 4 sends the first guess past the end: for bins
      [0, 1, 2, 5] the bin width is 5 / 3 = 1 and the guess for 4 is 3, so the
      walk reads `bins[4]`. */
  lemma GuessPastEnd()
    ensures SortedInts([0, 1, 2, 5]) && BinWidth([0, 1, 2, 5]) == 1
    ensures 4 < 5 && Guess([0, 1, 2, 5], 4) + 1 == 4
    ensures !IndexerDefined([0, 1, 2, 5], 4)
  {
  }

  /** Equal-width bins always keep the first guess inside `bins`. */
  lemma EqualWidthDefined(min: int, w: int, n: int, v: int)
    requires w > 0 && n >= 2 && min <= v
    ensures IndexerDefined(seq(n, i => min + i * w), v)
  {
    var bins := seq(n, i => min + i * w);
    forall i, j | 0 <= i <= j < n ensures bins[i] <= bins[j] {
      MulMono(w, i, j);
    }
    assert bins[n - 1] - bins[0] == (n - 1) * w;
    DivUnique((n - 1) * w, n - 1, w, 0);
    assert BinWidth(bins) == w;
    if v < bins[n - 1] {
      DivBelow(v - min, w, n - 1);
    }
  }
}
