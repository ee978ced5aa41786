/**
  The column table (internal/table/table.go). `New` packs the columns side by
  side into rows, records where each column starts in a packed row, and cuts the
  rows into chunks of 65536; `Histogram` counts, over all chunks, how many rows
  of one column fall into each bin.
*/
module Table {
  import opened Wrappers
  import opened Arith
  import opened ByteCodec
  import opened DictBuild
  import opened Chunk

  /** `Column`: an ID, a declared width and one byte slice per row. */
  datatype Column = Column(id: int, width: int, data: seq<seq<int>>)

  /** `entry`: where column `id` starts in a packed row, and its width. */
  datatype Entry = Entry(id: int, idx: int, width: int)

  datatype Table = Table(entries: seq<Entry>, chunks: seq<Chunk>)

  /** The errors of New and Histogram (Go builds them from message strings). */
  datatype Error = RowCountMismatch | DuplicateColumnID | BinsNotSorted | TooFewBins | ColumnNotFound

  /** `chunksize`: 256 * 256 rows. */
  const ChunkSize: nat := 65536

  // ---------------------------------------------------------------------------
  // What New builds

  /** The start of column k in a packed row: the sum of the widths before it. */
  function Offset(cols: seq<Column>, k: nat): int
    requires k <= |cols|
  {
    if k == 0 then 0 else Offset(cols, k - 1) + cols[k - 1].width
  }

  function Entries(cols: seq<Column>): seq<Entry>
  {
    seq(|cols|, k requires 0 <= k < |cols| => Entry(cols[k].id, Offset(cols, k), cols[k].width))
  }

  /** No two columns share an ID. */
  predicate DistinctIds(cols: seq<Column>)
  {
    forall i, j :: 0 <= i < j < |cols| ==> cols[i].id != cols[j].id
  }

  predicate SameRowCount(cols: seq<Column>)
  {
    forall i, j :: 0 <= i < |cols| && 0 <= j < |cols| ==> |cols[i].data| == |cols[j].data|
  }

  /** The row count New works with: that of the last column (zero without columns). */
  function RowCount(cols: seq<Column>): nat
  {
    if cols == [] then 0 else |cols[|cols| - 1].data|
  }

  /** Packed row i: the row-i slices of the columns, in column order. */
  function PackRow(cols: seq<Column>, i: nat): seq<int>
    requires forall k :: 0 <= k < |cols| ==> i < |cols[k].data|
  {
    if cols == [] then [] else PackRow(cols[..|cols| - 1], i) + cols[|cols| - 1].data[i]
  }

  function Rows(cols: seq<Column>): seq<seq<int>>
    requires SameRowCount(cols)
  {
    seq(RowCount(cols), i requires 0 <= i < RowCount(cols) => PackRow(cols, i))
  }

  function NumChunks(n: nat): nat
  {
    (n + ChunkSize - 1) / ChunkSize
  }

  function Min(a: int, b: int): int
  {
    if a <= b then a else b
  }

  /** Rows cut into consecutive chunks of ChunkSize, the last one possibly shorter. */
  function Chunked(rows: seq<seq<int>>): seq<Chunk>
  {
    seq(NumChunks(|rows|), k requires 0 <= k < NumChunks(|rows|) =>
      Chunk(rows[k * ChunkSize .. Min((k + 1) * ChunkSize, |rows|)]))
  }

  /** The rows of all chunks, in chunk order. */
  function AllRows(chunks: seq<Chunk>): seq<seq<int>>
  {
    if chunks == [] then [] else AllRows(chunks[..|chunks| - 1]) + chunks[|chunks| - 1].data
  }

  // ---------------------------------------------------------------------------
  // New

  /** The set of row counts has at most one element exactly when all agree. */
  lemma RowCountSet(cols: seq<Column>, s2: set<int>)
    requires s2 == LengthSet(cols, |cols|)
    ensures |s2| <= 1 <==> SameRowCount(cols)
  {
    if SameRowCount(cols) {
      AgreeingCounts(cols, s2);
    } else {
      DisagreeingCounts(cols, s2);
    }
  }

  lemma AgreeingCounts(cols: seq<Column>, s2: set<int>)
    requires s2 == LengthSet(cols, |cols|) && SameRowCount(cols)
    ensures |s2| <= 1
  {
    if cols != [] {
      assert s2 == {|cols[0].data|};
    } else {
      assert s2 == {};
    }
  }

  lemma DisagreeingCounts(cols: seq<Column>, s2: set<int>)
    requires s2 == LengthSet(cols, |cols|) && !SameRowCount(cols)
    ensures |s2| >= 2
  {
    var i, j :| 0 <= i < |cols| && 0 <= j < |cols| && |cols[i].data| != |cols[j].data|;
    var a, b := |cols[i].data|, |cols[j].data|;
    var rest := s2 - {a};
    assert b in rest;
    assert s2 == rest + {a} && a !in rest;
  }

  /** The pass of New over the columns: the set of IDs, the set of row counts, the
      entries with running offsets, and the row count of the last column. */
  method ScanColumns(cols: seq<Column>) returns (s: set<int>, s2: set<int>, entries: seq<Entry>, length: int)
    ensures |s| == |cols| <==> DistinctIds(cols)
    ensures |s2| <= 1 <==> SameRowCount(cols)
    ensures entries == Entries(cols)
    ensures length == RowCount(cols)
  {
    s, s2 := {}, {};
    var idx := 0;
    length := 0;
    entries := [];
    for k := 0 to |cols|
      invariant s == IdSet(cols, k)
      invariant s2 == LengthSet(cols, k)
      invariant |s| <= k && (|s| == k <==> DistinctIds(cols[..k]))
      invariant idx == Offset(cols, k)
      invariant entries == Entries(cols)[..k]
      invariant length == if k == 0 then 0 else |cols[k - 1].data|
    {
      length := |cols[k].data|;
      IdStep(cols, k, s);
      SetsStep(cols, k);
      s2 := s2 + {|cols[k].data|};
      s := s + {cols[k].id};
      EntriesStep(cols, k);
      entries := entries + [Entry(cols[k].id, idx, cols[k].width)];
      idx := idx + cols[k].width;
    }
    assert cols[..|cols|] == cols;
    RowCountSet(cols, s2);
  }

  lemma EntriesStep(cols: seq<Column>, k: int)
    requires 0 <= k < |cols|
    ensures Entries(cols)[..k + 1] == Entries(cols)[..k] + [Entry(cols[k].id, Offset(cols, k), cols[k].width)]
  {
    var e := Entries(cols);
    assert e[k] == Entry(cols[k].id, Offset(cols, k), cols[k].width);
    assert e[..k + 1] == e[..k] + [e[k]];
  }

  lemma SetsStep(cols: seq<Column>, k: int)
    requires 0 <= k < |cols|
    ensures IdSet(cols, k + 1) == IdSet(cols, k) + {cols[k].id}
    ensures LengthSet(cols, k + 1) == LengthSet(cols, k) + {|cols[k].data|}
  {
  }

  /** The IDs of the first k columns. */
  function IdSet(cols: seq<Column>, k: int): set<int>
    requires 0 <= k <= |cols|
  {
    set j | 0 <= j < k :: cols[j].id
  }

  /** The row counts of the first k columns. */
  function LengthSet(cols: seq<Column>, k: int): set<int>
    requires 0 <= k <= |cols|
  {
    set j | 0 <= j < k :: |cols[j].data|
  }

  /** The inner loop of New: append the row-i slice of every column. */
  method PackRowOf(cols: seq<Column>, i: nat) returns (row: seq<int>)
    requires forall k :: 0 <= k < |cols| ==> i < |cols[k].data|
    ensures row == PackRow(cols, i)
  {
    row := [];
    for k := 0 to |cols|
      invariant row == PackRow(cols[..k], i)
    {
      assert cols[..k + 1][..k] == cols[..k];
      row := row + cols[k].data[i];
    }
    assert cols[..|cols|] == cols;
  }

  /** The row loop of New: pack each row into the current chunk, starting a new
      chunk before every multiple of 65536, and keep the last chunk if non-empty. */
  method PackChunks(cols: seq<Column>, length: int) returns (chunks: seq<Chunk>)
    requires SameRowCount(cols) && length == RowCount(cols)
    ensures chunks == Chunked(Rows(cols))
  {
    ghost var rows := Rows(cols);
    chunks := [];
    var current := Chunk([]);
    for i := 0 to length
      invariant |chunks| == if i == 0 then 0 else (i - 1) / ChunkSize
      invariant forall k :: 0 <= k < |chunks| ==> chunks[k].data == rows[k * ChunkSize .. (k + 1) * ChunkSize]
      invariant current.data == rows[|chunks| * ChunkSize .. i]
    {
      if i != 0 {
        ChunkBoundary(i);
      }
      if i != 0 && i % ChunkSize == 0 {
        chunks := chunks + [current];
        current := Chunk([]);
      }
      var row := PackRowOf(cols, i);
      assert row == rows[i];
      SliceExtend(rows, |chunks| * ChunkSize, i);
      current := Chunk(current.data + [row]);
    }
    if |current.data| > 0 {
      chunks := chunks + [current];
    }
    ChunksAre(rows, chunks);
  }

  lemma SliceExtend<T>(xs: seq<T>, lo: int, hi: int)
    requires 0 <= lo <= hi < |xs|
    ensures xs[lo .. hi + 1] == xs[lo .. hi] + [xs[hi]]
  {
  }

  /** Row i starts a new chunk exactly when it is a positive multiple of ChunkSize. */
  lemma ChunkBoundary(i: int)
    requires i >= 1
    ensures i % ChunkSize == 0 ==> (i - 1) / ChunkSize + 1 == i / ChunkSize && (i / ChunkSize) * ChunkSize == i
    ensures i % ChunkSize != 0 ==> (i - 1) / ChunkSize == i / ChunkSize
  {
  }

  /** New: unequal row counts fail first, then a repeated ID; otherwise the table
      holds the entries and the packed rows cut into chunks. */
  method New(cols: seq<Column>) returns (r: Result<Table, Error>)
    ensures !SameRowCount(cols) ==> r == Failure(RowCountMismatch)
    ensures SameRowCount(cols) && !DistinctIds(cols) ==> r == Failure(DuplicateColumnID)
    ensures SameRowCount(cols) && DistinctIds(cols) ==> r == Success(Table(Entries(cols), Chunked(Rows(cols))))
  {
    var s, s2, entries, length := ScanColumns(cols);
    if |s2| > 1 {
      return Failure(RowCountMismatch);
    }
    if |s| != |cols| {
      return Failure(DuplicateColumnID);
    }
    var chunks := PackChunks(cols, length);
    return Success(Table(entries, chunks));
  }

  /** Adding column k's ID to the set of the IDs before it keeps the count of the
      set equal to k exactly while the IDs are distinct. */
  lemma IdStep(cols: seq<Column>, k: int, s: set<int>)
    requires 0 <= k < |cols| && s == IdSet(cols, k)
    requires |s| <= k && (|s| == k <==> DistinctIds(cols[..k]))
    ensures |s + {cols[k].id}| <= k + 1
    ensures |s + {cols[k].id}| == k + 1 <==> DistinctIds(cols[..k + 1])
  {
    var pre, ext := cols[..k], cols[..k + 1];
    if cols[k].id in s {
      var j :| 0 <= j < k && cols[j].id == cols[k].id;
      assert ext[j].id == ext[k].id;
    } else {
      if DistinctIds(pre) {
        forall a, b | 0 <= a < b < k + 1 ensures ext[a].id != ext[b].id {
          if b == k {
            assert cols[a].id in s;
          } else {
            assert pre[a] == ext[a] && pre[b] == ext[b];
          }
        }
      }
      if DistinctIds(ext) {
        forall a, b | 0 <= a < b < k ensures pre[a].id != pre[b].id {
          assert ext[a] == pre[a] && ext[b] == pre[b];
        }
      }
    }
  }

  /** The chunk list the row loop leaves is Chunked(rows). */
  lemma ChunksAre(rows: seq<seq<int>>, chunks: seq<Chunk>)
    requires |rows| == 0 ==> chunks == []
    requires |rows| > 0 ==> |chunks| == (|rows| - 1) / ChunkSize + 1
    requires forall k :: 0 <= k < |chunks| - 1 ==> chunks[k].data == rows[k * ChunkSize .. (k + 1) * ChunkSize]
    requires |chunks| > 0 ==> chunks[|chunks| - 1].data == rows[(|chunks| - 1) * ChunkSize .. |rows|]
    ensures chunks == Chunked(rows)
  {
  }

  // ---------------------------------------------------------------------------
  // index

  /** The position and width of the first entry with that ID, or (-1, 0). */
  function IndexOf(entries: seq<Entry>, id: int): (int, int)
  {
    if entries == [] then (-1, 0)
    else if entries[0].id == id then (entries[0].idx, entries[0].width)
    else IndexOf(entries[1..], id)
  }

  /** index: scan the entries in order. */
  method Index(t: Table, id: int) returns (idx: int, width: int)
    ensures (idx, width) == IndexOf(t.entries, id)
  {
    for k := 0 to |t.entries|
      invariant IndexOf(t.entries[k..], id) == IndexOf(t.entries, id)
    {
      assert t.entries[k..][1..] == t.entries[k + 1..];
      if t.entries[k].id == id {
        return t.entries[k].idx, t.entries[k].width;
      }
    }
    return -1, 0;
  }

  /** IndexOf gives the first match, and (-1, 0) when there is none. */
  lemma {:induction false} IndexOfFirst(entries: seq<Entry>, id: int, j: int)
    requires 0 <= j < |entries| && entries[j].id == id
    requires forall i :: 0 <= i < j ==> entries[i].id != id
    ensures IndexOf(entries, id) == (entries[j].idx, entries[j].width)
    decreases j
  {
    if j > 0 {
      IndexOfFirst(entries[1..], id, j - 1);
    }
  }

  lemma {:induction false} IndexOfMissing(entries: seq<Entry>, id: int)
    requires forall i :: 0 <= i < |entries| ==> entries[i].id != id
    ensures IndexOf(entries, id) == (-1, 0)
  {
    if entries != [] {
      IndexOfMissing(entries[1..], id);
    }
  }

  /** In a table New built, the index of column k is its offset and width. */
  lemma IndexOfBuilt(cols: seq<Column>, k: int)
    requires DistinctIds(cols) && 0 <= k < |cols|
    ensures IndexOf(Entries(cols), cols[k].id) == (Offset(cols, k), cols[k].width)
  {
    IndexOfFirst(Entries(cols), cols[k].id, k);
  }

  // ---------------------------------------------------------------------------
  // The chunk layout

  /** Every chunk but the last holds ChunkSize rows, none is empty, and row i sits
      at position i % ChunkSize of chunk i / ChunkSize. */
  lemma ChunkLayout(rows: seq<seq<int>>)
    ensures |rows| == 0 <==> Chunked(rows) == []
    ensures forall k :: 0 <= k < |Chunked(rows)| ==> |Chunked(rows)[k].data| > 0
    ensures forall k :: 0 <= k < |Chunked(rows)| - 1 ==> |Chunked(rows)[k].data| == ChunkSize
    ensures forall i :: 0 <= i < |rows| ==>
      i / ChunkSize < |Chunked(rows)| && i % ChunkSize < |Chunked(rows)[i / ChunkSize].data| &&
      Chunked(rows)[i / ChunkSize].data[i % ChunkSize] == rows[i]
  {
    var chunks := Chunked(rows);
    forall i | 0 <= i < |rows|
      ensures i / ChunkSize < |chunks| && i % ChunkSize < |chunks[i / ChunkSize].data|
      ensures chunks[i / ChunkSize].data[i % ChunkSize] == rows[i]
    {
      var k := i / ChunkSize;
      assert k * ChunkSize <= i < (k + 1) * ChunkSize;
    }
  }

  /** Reading the chunks in order gives back the rows. */
  lemma ChunkedRows(rows: seq<seq<int>>)
    ensures AllRows(Chunked(rows)) == rows
  {
    var chunks := Chunked(rows);
    ChunkedPrefix(rows, |chunks|);
    assert chunks[..|chunks|] == chunks;
  }

  lemma {:induction false} ChunkedPrefix(rows: seq<seq<int>>, k: nat)
    requires k <= NumChunks(|rows|)
    ensures AllRows(Chunked(rows)[..k]) == rows[..Min(k * ChunkSize, |rows|)]
  {
    if k > 0 {
      ChunkedPrefix(rows, k - 1);
      var chunks := Chunked(rows);
      var lo, hi := (k - 1) * ChunkSize, Min(k * ChunkSize, |rows|);
      ChunkStart(|rows|, k - 1);
      assert chunks[k - 1].data == rows[lo .. hi];
      assert chunks[..k][..k - 1] == chunks[..k - 1];
      assert AllRows(chunks[..k]) == AllRows(chunks[..k - 1]) + chunks[k - 1].data;
      assert rows[..hi] == rows[..lo] + rows[lo .. hi];
    }
  }

  /** Every chunk starts on a row. */
  lemma ChunkStart(n: nat, k: nat)
    requires k < NumChunks(n)
    ensures k * ChunkSize < n
  {
  }

  /** Packed row i holds the row-i slice of column k at the column's offset, when
      every slice has its column's declared width. */
  lemma {:induction false} ColumnSlice(cols: seq<Column>, i: nat, k: int)
    requires RowFits(cols, i)
    requires 0 <= k < |cols|
    ensures |PackRow(cols, i)| == Offset(cols, |cols|)
    ensures 0 <= Offset(cols, k) && Offset(cols, k) + cols[k].width <= |PackRow(cols, i)|
    ensures PackRow(cols, i)[Offset(cols, k) .. Offset(cols, k) + cols[k].width] == cols[k].data[i]
    decreases |cols|
  {
    var n := |cols|;
    var init := cols[..n - 1];
    var a, b := PackRow(init, i), cols[n - 1].data[i];
    assert PackRow(cols, i) == a + b;
    RowFitsPrefix(cols, i);
    PackRowLength(init, i);
    PackRowLength(cols, i);
    OffsetPrefixOf(cols, n - 1, n - 1);
    assert CellFits(cols[n - 1], i);
    if k < n - 1 {
      ColumnSlice(init, i, k);
      OffsetPrefixOf(cols, n - 1, k);
      assert init[k] == cols[k];
      SliceLeft(a, b, Offset(cols, k), Offset(cols, k) + cols[k].width);
    } else {
      SliceRight(a, b);
    }
  }

  lemma SliceLeft<T>(a: seq<T>, b: seq<T>, lo: int, hi: int)
    requires 0 <= lo <= hi <= |a|
    ensures (a + b)[lo .. hi] == a[lo .. hi]
  {
  }

  lemma SliceRight<T>(a: seq<T>, b: seq<T>)
    ensures (a + b)[|a| .. |a| + |b|] == b
  {
  }

  lemma RowFitsPrefix(cols: seq<Column>, i: int)
    requires RowFits(cols, i) && cols != []
    ensures RowFits(cols[..|cols| - 1], i)
  {
    var init := cols[..|cols| - 1];
    forall j | 0 <= j < |init| ensures CellFits(init[j], i) {
      assert init[j] == cols[j];
    }
  }

  /** A packed row is as long as the widths add up to. */
  lemma {:induction false} PackRowLength(cols: seq<Column>, i: nat)
    requires RowFits(cols, i)
    ensures |PackRow(cols, i)| == Offset(cols, |cols|)
    decreases |cols|
  {
    if cols != [] {
      var n := |cols|;
      RowFitsPrefix(cols, i);
      PackRowLength(cols[..n - 1], i);
      OffsetPrefixOf(cols, n - 1, n - 1);
    }
  }

  /** Offsets within a prefix agree with those of the whole. */
  lemma {:induction false} OffsetPrefixOf(cols: seq<Column>, n: nat, k: nat)
    requires k <= n <= |cols|
    ensures Offset(cols[..n], k) == Offset(cols, k)
  {
    if k > 0 {
      OffsetPrefixOf(cols, n, k - 1);
    }
  }

  // ---------------------------------------------------------------------------
  // Histogram

  /** The column value of a packed row: its `width` bytes from `idx`, big-endian. */
  function FieldValue(row: seq<int>, idx: int, width: int): int
    requires 0 <= idx && 0 <= width && idx + width <= |row|
  {
    BigEndian(row[idx .. idx + width])
  }

  /** Rows the histogram scan can read: each holds the column's bytes, and the
      indexer is defined on its value. */
  predicate Scannable(rows: seq<seq<int>>, idx: int, width: int, bins: seq<int>)
  {
    forall i :: 0 <= i < |rows| ==> RowScannable(rows[i], idx, width, bins)
  }

  predicate RowScannable(row: seq<int>, idx: int, width: int, bins: seq<int>)
  {
    FieldIn(row, idx, width) && IndexerDefined(bins, FieldValue(row, idx, width))
  }

  /** The bytes `[idx, idx + width)` lie within the row. */
  predicate FieldIn(row: seq<int>, idx: int, width: int)
  {
    0 <= idx && 0 <= width && idx + width <= |row|
  }

  predicate ChunksScannable(chunks: seq<Chunk>, idx: int, width: int, bins: seq<int>)
  {
    forall k :: 0 <= k < |chunks| ==> Scannable(chunks[k].data, idx, width, bins)
  }

  /** The number of rows whose indexer slot is `s`. */
  function SlotCount(rows: seq<seq<int>>, idx: int, width: int, bins: seq<int>, s: int): (n: nat)
    requires Scannable(rows, idx, width, bins)
    ensures n <= |rows|
  {
    if rows == [] then 0
    else
      var last := rows[|rows| - 1];
      SlotCount(rows[..|rows| - 1], idx, width, bins, s) + (if CountLE(bins, FieldValue(last, idx, width)) == s then 1 else 0)
  }

  /** The per-chunk counts of slot `s`, summed over the chunks. */
  function ChunksCount(chunks: seq<Chunk>, idx: int, width: int, bins: seq<int>, s: int): nat
    requires ChunksScannable(chunks, idx, width, bins)
  {
    if chunks == [] then 0
    else ChunksCount(chunks[..|chunks| - 1], idx, width, bins, s) + SlotCount(chunks[|chunks| - 1].data, idx, width, bins, s)
  }

  /** The histogram of a column: entry i counts the rows in slot i + 1. */
  function Counts(chunks: seq<Chunk>, idx: int, width: int, bins: seq<int>): seq<int>
    requires |bins| >= 2 && ChunksScannable(chunks, idx, width, bins)
  {
    seq(|bins| - 1, i requires 0 <= i < |bins| - 1 => ChunksCount(chunks, idx, width, bins, i + 1))
  }

  /** What Histogram needs of its caller for the scan not to panic: once the checks
      pass, every row of every chunk is scannable for the column found. */
  predicate HistogramDefined(t: Table, columnID: int, bins: seq<int>)
  {
    SortedInts(bins) && |bins| >= 2 && IndexOf(t.entries, columnID).0 != -1 ==>
      ChunksScannable(t.chunks, IndexOf(t.entries, columnID).0, IndexOf(t.entries, columnID).1, bins)
  }

  /** Histogram: check the bins and find the column, then for each chunk count its
      rows per slot in a local array and add slots 1 .. len(bins)-1 into the result.
      Go hands the chunks to eight goroutines and adds atomically; the sums are the
      same in any order, so one sequential pass models it. */
  method Histogram(t: Table, columnID: int, bins: seq<int>) returns (r: Result<seq<int>, Error>)
    requires HistogramDefined(t, columnID, bins)
    ensures !SortedInts(bins) ==> r == Failure(BinsNotSorted)
    ensures SortedInts(bins) && |bins| < 2 ==> r == Failure(TooFewBins)
    ensures SortedInts(bins) && |bins| >= 2 && IndexOf(t.entries, columnID).0 == -1 ==> r == Failure(ColumnNotFound)
    ensures SortedInts(bins) && |bins| >= 2 && IndexOf(t.entries, columnID).0 != -1 ==>
      r == Success(Counts(t.chunks, IndexOf(t.entries, columnID).0, IndexOf(t.entries, columnID).1, bins))
  {
    if !SortedInts(bins) {
      return Failure(BinsNotSorted);
    }
    if |bins| < 2 {
      return Failure(TooFewBins);
    }
    var idx, width := Index(t, columnID);
    if idx == -1 {
      return Failure(ColumnNotFound);
    }
    var n := |bins|;
    var hist := new int[n - 1](_ => 0);
    ChunksPrefix(t.chunks, 0, idx, width, bins);
    assert hist[..] == Counts(t.chunks[..0], idx, width, bins);
    for ci := 0 to |t.chunks|
      invariant ChunksScannable(t.chunks[..ci], idx, width, bins)
      invariant hist[..] == Counts(t.chunks[..ci], idx, width, bins)
    {
      var chist := CountChunk(t.chunks[ci], idx, width, bins);
      CountsStep(t.chunks, ci, idx, width, bins);
      ghost var prev, next := Counts(t.chunks[..ci], idx, width, bins), Counts(t.chunks[..ci + 1], idx, width, bins);
      for i := 0 to n - 1
        invariant forall j :: 0 <= j < i ==> hist[j] == next[j]
        invariant forall j :: i <= j < n - 1 ==> hist[j] == prev[j]
      {
        hist[i] := hist[i] + chist[i + 1];
      }
      assert hist[..] == next;
    }
    assert t.chunks[..|t.chunks|] == t.chunks;
    return Success(hist[..]);
  }

  /** Adding chunk k adds its own count to every entry of the histogram. */
  lemma CountsStep(chunks: seq<Chunk>, k: int, idx: int, width: int, bins: seq<int>)
    requires |bins| >= 2 && ChunksScannable(chunks, idx, width, bins) && 0 <= k < |chunks|
    ensures ChunksScannable(chunks[..k], idx, width, bins) && ChunksScannable(chunks[..k + 1], idx, width, bins)
    ensures forall i :: 0 <= i < |bins| - 1 ==>
      Counts(chunks[..k + 1], idx, width, bins)[i] == Counts(chunks[..k], idx, width, bins)[i] + SlotCount(chunks[k].data, idx, width, bins, i + 1)
  {
    ChunksPrefix(chunks, k, idx, width, bins);
    ChunksPrefix(chunks, k + 1, idx, width, bins);
    ChunksCountStep(chunks, k, idx, width, bins);
  }

  /** The first k of scannable chunks are scannable. */
  lemma ChunksPrefix(cs: seq<Chunk>, k: int, idx: int, width: int, bins: seq<int>)
    requires ChunksScannable(cs, idx, width, bins) && 0 <= k <= |cs|
    ensures ChunksScannable(cs[..k], idx, width, bins)
  {
    var pre := cs[..k];
    assert forall j :: 0 <= j < |pre| ==> pre[j] == cs[j];
  }

  /** One worker's pass over a chunk: `chist[s]` counts the chunk's rows in slot s,
      for s in 0 .. len(bins). */
  method CountChunk(c: Chunk, idx: int, width: int, bins: seq<int>) returns (chist: seq<int>)
    requires Scannable(c.data, idx, width, bins)
    ensures |chist| == |bins| + 1
    ensures forall s :: 0 <= s <= |bins| ==> chist[s] == SlotCount(c.data, idx, width, bins, s)
  {
    var counts := new int[|bins| + 1](_ => 0);
    var iter := Query(c, idx, width);
    var more := iter.Next();
    ghost var done := 0;
    assert counts[..] == SlotCounts(c.data[..0], idx, width, bins);
    while more
      invariant iter.c == c && iter.len == |c.data| && iter.start == idx && iter.end == idx + width
      invariant iter.cursor == done + 1 && done <= |c.data|
      invariant more <==> done < |c.data|
      invariant counts[..] == SlotCounts(c.data[..done], idx, width, bins)
      decreases |c.data| - done
    {
      var row := c.data[done];
      assert RowScannable(row, idx, width, bins);
      var v := iter.Value();
      WindowValue(v, row, idx, width, bins);
      var slot := ByteIndexer(width, bins, v);
      SlotCountsStep(c.data, done, idx, width, bins);
      counts[slot] := counts[slot] + 1;
      done := done + 1;
      more := iter.Next();
    }
    assert c.data[..|c.data|] == c.data;
    chist := counts[..];
  }

  /** The count of every slot 0 .. |bins|. */
  function SlotCounts(rows: seq<seq<int>>, idx: int, width: int, bins: seq<int>): (h: seq<int>)
    requires Scannable(rows, idx, width, bins)
    ensures |h| == |bins| + 1
    ensures forall s :: 0 <= s <= |bins| ==> h[s] == SlotCount(rows, idx, width, bins, s)
  {
    seq(|bins| + 1, s requires 0 <= s <= |bins| => SlotCount(rows, idx, width, bins, s))
  }

  /** One more row adds one to the count of its own slot and nothing to the others. */
  lemma SlotCountsStep(rows: seq<seq<int>>, n: int, idx: int, width: int, bins: seq<int>)
    requires Scannable(rows, idx, width, bins) && 0 <= n < |rows|
    ensures Scannable(rows[..n], idx, width, bins) && Scannable(rows[..n + 1], idx, width, bins)
    ensures var h, slot := SlotCounts(rows[..n], idx, width, bins), CountLE(bins, FieldValue(rows[n], idx, width));
      SlotCounts(rows[..n + 1], idx, width, bins) == h[slot := h[slot] + 1]
  {
    ScannablePrefix(rows, n, idx, width, bins);
    ScannablePrefix(rows, n + 1, idx, width, bins);
    assert rows[..n + 1][..n] == rows[..n];
    assert rows[..n + 1][n] == rows[n];
  }

  /** The window the iterator shows on a row holds the row's field. */
  lemma WindowValue(v: ByteView, row: seq<int>, idx: int, width: int, bins: seq<int>)
    requires RowScannable(row, idx, width, bins) && |v.bs| == width
    requires forall k :: 0 <= k < width ==> v.bs[k] == row[idx + k]
    ensures v.bs[..width] == row[idx .. idx + width]
    ensures IndexerDefined(bins, BigEndian(v.bs[..width]))
    ensures CountLE(bins, BigEndian(v.bs[..width])) == CountLE(bins, FieldValue(row, idx, width))
  {
    assert v.bs[..width] == row[idx .. idx + width];
  }

  lemma ScannablePrefix(rows: seq<seq<int>>, n: int, idx: int, width: int, bins: seq<int>)
    requires Scannable(rows, idx, width, bins) && 0 <= n <= |rows|
    ensures Scannable(rows[..n], idx, width, bins)
  {
    forall i | 0 <= i < n ensures RowScannable(rows[..n][i], idx, width, bins) {
      assert rows[..n][i] == rows[i];
    }
  }

  /** Adding chunk k to the chunks before it adds its own count. */
  lemma ChunksCountStep(chunks: seq<Chunk>, k: int, idx: int, width: int, bins: seq<int>)
    requires ChunksScannable(chunks, idx, width, bins) && 0 <= k < |chunks|
    ensures forall s :: ChunksCount(chunks[..k + 1], idx, width, bins, s)
                     == ChunksCount(chunks[..k], idx, width, bins, s) + SlotCount(chunks[k].data, idx, width, bins, s)
  {
    assert chunks[..k + 1][..k] == chunks[..k];
  }

  // ---------------------------------------------------------------------------
  // What the histogram counts

  lemma ScannableAppend(a: seq<seq<int>>, b: seq<seq<int>>, idx: int, width: int, bins: seq<int>)
    requires Scannable(a, idx, width, bins) && Scannable(b, idx, width, bins)
    ensures Scannable(a + b, idx, width, bins)
  {
    forall i | 0 <= i < |a + b| ensures RowScannable((a + b)[i], idx, width, bins) {
      if i < |a| {
        assert (a + b)[i] == a[i];
      } else {
        assert (a + b)[i] == b[i - |a|];
      }
    }
  }

  lemma {:induction false} AllRowsScannable(chunks: seq<Chunk>, idx: int, width: int, bins: seq<int>)
    requires ChunksScannable(chunks, idx, width, bins)
    ensures Scannable(AllRows(chunks), idx, width, bins)
  {
    if chunks != [] {
      AllRowsScannable(chunks[..|chunks| - 1], idx, width, bins);
      ScannableAppend(AllRows(chunks[..|chunks| - 1]), chunks[|chunks| - 1].data, idx, width, bins);
    }
  }

  /** Counting over two runs of rows adds up. */
  lemma {:induction false} SlotCountAppend(a: seq<seq<int>>, b: seq<seq<int>>, idx: int, width: int, bins: seq<int>, s: int)
    requires Scannable(a, idx, width, bins) && Scannable(b, idx, width, bins)
    ensures Scannable(a + b, idx, width, bins)
    ensures SlotCount(a + b, idx, width, bins, s) == SlotCount(a, idx, width, bins, s) + SlotCount(b, idx, width, bins, s)
    decreases |b|
  {
    ScannableAppend(a, b, idx, width, bins);
    if b == [] {
      assert a + b == a;
    } else {
      var init := b[..|b| - 1];
      assert forall i :: 0 <= i < |init| ==> init[i] == b[i];
      SlotCountAppend(a, init, idx, width, bins, s);
      assert (a + b)[..|a + b| - 1] == a + init;
    }
  }

  /** The chunk sums count the rows of all chunks taken together. */
  lemma {:induction false} ChunksCountAllRows(chunks: seq<Chunk>, idx: int, width: int, bins: seq<int>, s: int)
    requires ChunksScannable(chunks, idx, width, bins)
    ensures Scannable(AllRows(chunks), idx, width, bins)
    ensures ChunksCount(chunks, idx, width, bins, s) == SlotCount(AllRows(chunks), idx, width, bins, s)
  {
    AllRowsScannable(chunks, idx, width, bins);
    if chunks != [] {
      var init := chunks[..|chunks| - 1];
      ChunksCountAllRows(init, idx, width, bins, s);
      SlotCountAppend(AllRows(init), chunks[|chunks| - 1].data, idx, width, bins, s);
    }
  }

  lemma {:induction false} ChunksCountAppend(a: seq<Chunk>, b: seq<Chunk>, idx: int, width: int, bins: seq<int>, s: int)
    requires ChunksScannable(a, idx, width, bins) && ChunksScannable(b, idx, width, bins)
    ensures ChunksScannable(a + b, idx, width, bins)
    ensures ChunksCount(a + b, idx, width, bins, s) == ChunksCount(a, idx, width, bins, s) + ChunksCount(b, idx, width, bins, s)
    decreases |b|
  {
    if b == [] {
      assert a + b == a;
    } else {
      var init := b[..|b| - 1];
      ChunksCountAppend(a, init, idx, width, bins, s);
      assert (a + b)[..|a + b| - 1] == a + init;
    }
  }

  /** Taking one chunk out of the middle takes its count out of the total. */
  lemma ChunksCountRemove(left: seq<Chunk>, last: Chunk, right: seq<Chunk>, idx: int, width: int, bins: seq<int>, s: int)
    requires ChunksScannable(left, idx, width, bins) && ChunksScannable(right, idx, width, bins)
    requires Scannable(last.data, idx, width, bins)
    ensures ChunksScannable(left + [last] + right, idx, width, bins) && ChunksScannable(left + right, idx, width, bins)
    ensures ChunksCount(left + [last] + right, idx, width, bins, s)
         == ChunksCount(left + right, idx, width, bins, s) + SlotCount(last.data, idx, width, bins, s)
  {
    ChunksCountAppend(left, right, idx, width, bins, s);
    ChunksCountAppend(left, [last], idx, width, bins, s);
    ChunksCountAppend(left + [last], right, idx, width, bins, s);
    assert ChunksCount([last], idx, width, bins, s) == SlotCount(last.data, idx, width, bins, s) by {
      assert [last][..0] == [];
    }
  }

  /** Removing the last element of one sequence and a matching element of another
      keeps their multisets equal. */
  lemma MultisetRemove<T>(c1: seq<T>, c2: seq<T>, j: int)
    requires multiset(c1) == multiset(c2) && c1 != [] && 0 <= j < |c2| && c2[j] == c1[|c1| - 1]
    ensures multiset(c1[..|c1| - 1]) == multiset(c2[..j] + c2[j + 1..])
  {
    var last := c1[|c1| - 1];
    assert c2 == c2[..j] + [last] + c2[j + 1..];
    assert c1 == c1[..|c1| - 1] + [last];
    assert multiset(c2[..j] + c2[j + 1..]) == multiset(c2) - multiset{last};
  }

  /** The histogram does not depend on the order of the chunks: any rearrangement
      of them gives the same counts. */
  lemma {:induction false} ChunkOrderIrrelevant(c1: seq<Chunk>, c2: seq<Chunk>, idx: int, width: int, bins: seq<int>, s: int)
    requires multiset(c1) == multiset(c2) && ChunksScannable(c1, idx, width, bins)
    ensures ChunksScannable(c2, idx, width, bins)
    ensures ChunksCount(c1, idx, width, bins, s) == ChunksCount(c2, idx, width, bins, s)
    decreases |c1|
  {
    ChunksScannablePerm(c1, c2, idx, width, bins);
    if c1 != [] {
      var n := |c1|;
      var last := c1[n - 1];
      assert last in multiset(c2);
      var j :| 0 <= j < |c2| && c2[j] == last;
      MultisetRemove(c1, c2, j);
      ChunksScannableParts(c1, n - 1, idx, width, bins);
      ChunksScannableParts(c2, j, idx, width, bins);
      ChunkOrderIrrelevant(c1[..n - 1], c2[..j] + c2[j + 1..], idx, width, bins, s);
      ChunksCountRemove(c2[..j], last, c2[j + 1..], idx, width, bins, s);
      assert c1 == c1[..n - 1] + [last];
      ChunksCountStep(c1, n - 1, idx, width, bins);
    }
  }

  /** A rearrangement of scannable chunks is scannable. */
  lemma ChunksScannablePerm(c1: seq<Chunk>, c2: seq<Chunk>, idx: int, width: int, bins: seq<int>)
    requires multiset(c1) == multiset(c2) && ChunksScannable(c1, idx, width, bins)
    ensures ChunksScannable(c2, idx, width, bins)
  {
    forall k | 0 <= k < |c2| ensures Scannable(c2[k].data, idx, width, bins) {
      assert c2[k] in multiset(c1);
    }
  }

  /** The chunks before and after position j of scannable chunks are scannable. */
  lemma ChunksScannableParts(cs: seq<Chunk>, j: int, idx: int, width: int, bins: seq<int>)
    requires ChunksScannable(cs, idx, width, bins) && 0 <= j < |cs|
    ensures cs == cs[..j] + [cs[j]] + cs[j + 1..]
    ensures ChunksScannable(cs[..j], idx, width, bins) && ChunksScannable(cs[j + 1..], idx, width, bins)
  {
    var left, right := cs[..j], cs[j + 1..];
    assert forall k :: 0 <= k < |left| ==> left[k] == cs[k];
    assert forall k :: 0 <= k < |right| ==> right[k] == cs[j + 1 + k];
  }

  // ---------------------------------------------------------------------------
  // Every scanned row lands in exactly one slot

  /** The total of slots lo .. hi-1. */
  function SumSlots(rows: seq<seq<int>>, idx: int, width: int, bins: seq<int>, lo: int, hi: int): nat
    requires Scannable(rows, idx, width, bins)
    decreases hi - lo
  {
    if lo >= hi then 0 else SumSlots(rows, idx, width, bins, lo, hi - 1) + SlotCount(rows, idx, width, bins, hi - 1)
  }

  /** Adding a row to the end adds one to the total of the slots it falls in. */
  lemma {:induction false} SumSlotsStep(rows: seq<seq<int>>, idx: int, width: int, bins: seq<int>, lo: int, hi: int)
    requires Scannable(rows, idx, width, bins) && rows != []
    ensures Scannable(rows[..|rows| - 1], idx, width, bins)
    ensures var slot := CountLE(bins, FieldValue(rows[|rows| - 1], idx, width));
      SumSlots(rows, idx, width, bins, lo, hi)
      == SumSlots(rows[..|rows| - 1], idx, width, bins, lo, hi) + (if lo <= slot < hi then 1 else 0)
    decreases hi - lo
  {
    if lo < hi {
      SumSlotsStep(rows, idx, width, bins, lo, hi - 1);
    }
  }

  /** The slots 0 .. len(bins) partition the rows. */
  lemma {:induction false} SlotsPartition(rows: seq<seq<int>>, idx: int, width: int, bins: seq<int>)
    requires Scannable(rows, idx, width, bins)
    ensures SumSlots(rows, idx, width, bins, 0, |bins| + 1) == |rows|
  {
    if rows != [] {
      var last := rows[|rows| - 1];
      SumSlotsStep(rows, idx, width, bins, 0, |bins| + 1);
      SlotsPartition(rows[..|rows| - 1], idx, width, bins);
      assert RowScannable(last, idx, width, bins);
    } else {
      SumSlotsOfNone(idx, width, bins, 0, |bins| + 1);
    }
  }

  lemma {:induction false} SumSlotsOfNone(idx: int, width: int, bins: seq<int>, lo: int, hi: int)
    ensures SumSlots([], idx, width, bins, lo, hi) == 0
    decreases hi - lo
  {
    if lo < hi {
      SumSlotsOfNone(idx, width, bins, lo, hi - 1);
    }
  }

  /** No scannable row lands in slot 0: the indexer is only defined from the first bin on. */
  lemma {:induction false} SlotZeroEmpty(rows: seq<seq<int>>, idx: int, width: int, bins: seq<int>)
    requires Scannable(rows, idx, width, bins)
    ensures SlotCount(rows, idx, width, bins, 0) == 0
  {
    if rows != [] {
      var last := rows[|rows| - 1];
      assert RowScannable(last, idx, width, bins);
      SlotMeaning(bins, FieldValue(last, idx, width));
      var init := rows[..|rows| - 1];
      assert forall i :: 0 <= i < |init| ==> init[i] == rows[i];
      SlotZeroEmpty(init, idx, width, bins);
      assert CountLE(bins, FieldValue(last, idx, width)) != 0;
    }
  }

  function Sum(xs: seq<int>): int
  {
    if xs == [] then 0 else Sum(xs[..|xs| - 1]) + xs[|xs| - 1]
  }

  /** The first k histogram entries add up to the rows in slots 1 .. k. */
  lemma {:induction false} CountsPrefixSum(chunks: seq<Chunk>, idx: int, width: int, bins: seq<int>, k: int)
    requires |bins| >= 2 && ChunksScannable(chunks, idx, width, bins) && 0 <= k <= |bins| - 1
    ensures Scannable(AllRows(chunks), idx, width, bins)
    ensures Sum(Counts(chunks, idx, width, bins)[..k]) == SumSlots(AllRows(chunks), idx, width, bins, 1, k + 1)
  {
    AllRowsScannable(chunks, idx, width, bins);
    if k > 0 {
      var h := Counts(chunks, idx, width, bins);
      CountsPrefixSum(chunks, idx, width, bins, k - 1);
      assert h[..k][..k - 1] == h[..k - 1];
      ChunksCountAllRows(chunks, idx, width, bins, k);
    }
  }

  /** What the histogram accounts for: its entries plus the rows at or past the
      last bin edge, which it drops, are all the rows of the table. */
  lemma HistogramTotal(chunks: seq<Chunk>, idx: int, width: int, bins: seq<int>)
    requires |bins| >= 2 && ChunksScannable(chunks, idx, width, bins)
    ensures Scannable(AllRows(chunks), idx, width, bins)
    ensures Sum(Counts(chunks, idx, width, bins)) + SlotCount(AllRows(chunks), idx, width, bins, |bins|) == |AllRows(chunks)|
  {
    var rows := AllRows(chunks);
    var h := Counts(chunks, idx, width, bins);
    CountsPrefixSum(chunks, idx, width, bins, |bins| - 1);
    assert h[..|bins| - 1] == h;
    SlotsPartition(rows, idx, width, bins);
    SlotZeroEmpty(rows, idx, width, bins);
    SumSlotsFrom(rows, idx, width, bins, |bins| + 1);
  }

  /** Peeling slot 0 off the front of a total. */
  lemma {:induction false} SumSlotsFrom(rows: seq<seq<int>>, idx: int, width: int, bins: seq<int>, hi: int)
    requires Scannable(rows, idx, width, bins) && hi >= 1
    ensures SumSlots(rows, idx, width, bins, 0, hi) == SlotCount(rows, idx, width, bins, 0) + SumSlots(rows, idx, width, bins, 1, hi)
    decreases hi
  {
    if hi > 1 {
      SumSlotsFrom(rows, idx, width, bins, hi - 1);
    }
  }

  // ---------------------------------------------------------------------------
  // The histogram of a table New builds

  /** Every cell of every column has its column's declared width. */
  predicate CellsFit(cols: seq<Column>)
  {
    forall j, i :: 0 <= j < |cols| && 0 <= i < |cols[j].data| ==> |cols[j].data[i]| == cols[j].width
  }

  /** Both rows hold the field, with the same value. */
  predicate SameField(a: seq<int>, ia: int, b: seq<int>, ib: int, width: int)
  {
    FieldIn(a, ia, width) && FieldIn(b, ib, width) && FieldValue(a, ia, width) == FieldValue(b, ib, width)
  }

  /** Two runs of rows whose fields agree one for one fall into the same slots. */
  lemma {:induction false} SlotCountSameValues(r1: seq<seq<int>>, i1: int, r2: seq<seq<int>>, i2: int, width: int, bins: seq<int>, s: int)
    requires Scannable(r1, i1, width, bins) && |r1| == |r2|
    requires forall i :: 0 <= i < |r2| ==> SameField(r1[i], i1, r2[i], i2, width)
    ensures Scannable(r2, i2, width, bins)
    ensures SlotCount(r1, i1, width, bins, s) == SlotCount(r2, i2, width, bins, s)
  {
    if r1 != [] {
      var n := |r1|;
      assert forall i :: 0 <= i < n - 1 ==> r1[..n - 1][i] == r1[i] && r2[..n - 1][i] == r2[i];
      SlotCountSameValues(r1[..n - 1], i1, r2[..n - 1], i2, width, bins, s);
    }
  }

  /** Packed row i shows column k's cell of row i at the column's offset. */
  lemma PackedField(cols: seq<Column>, k: int, i: nat)
    requires RowFits(cols, i) && 0 <= k < |cols|
    ensures SameField(cols[k].data[i], 0, PackRow(cols, i), Offset(cols, k), cols[k].width)
  {
    assert CellFits(cols[k], i);
    ColumnSlice(cols, i, k);
    FieldOfSlice(cols[k].data[i], PackRow(cols, i), Offset(cols, k), cols[k].width);
  }

  lemma FieldOfSlice(cell: seq<int>, row: seq<int>, off: int, w: int)
    requires |cell| == w && 0 <= off && off + w <= |row| && row[off .. off + w] == cell
    ensures SameField(cell, 0, row, off, w)
  {
    assert cell[0 .. w] == cell;
  }

  /** Row i of every column exists and has its column's width. */
  predicate RowFits(cols: seq<Column>, i: int)
  {
    forall j :: 0 <= j < |cols| ==> CellFits(cols[j], i)
  }

  predicate CellFits(col: Column, i: int)
  {
    0 <= i < |col.data| && |col.data[i]| == col.width
  }

  lemma RowFitsOf(cols: seq<Column>, k: int, i: int)
    requires SameRowCount(cols) && CellsFit(cols) && 0 <= k < |cols| && 0 <= i < |cols[k].data|
    ensures RowFits(cols, i)
  {
    forall j | 0 <= j < |cols| ensures CellFits(cols[j], i) {
      assert |cols[j].data| == |cols[k].data|;
    }
  }

  /** The packed rows show column k's values at the column's offset, so they fall
      into the same slots as the column's own cells. */
  lemma PackedColumnCount(cols: seq<Column>, k: int, bins: seq<int>, s: int)
    requires SameRowCount(cols) && CellsFit(cols) && 0 <= k < |cols|
    requires Scannable(cols[k].data, 0, cols[k].width, bins)
    ensures Scannable(Rows(cols), Offset(cols, k), cols[k].width, bins)
    ensures SlotCount(Rows(cols), Offset(cols, k), cols[k].width, bins, s) == SlotCount(cols[k].data, 0, cols[k].width, bins, s)
  {
    var rows := Rows(cols);
    var idx, w := Offset(cols, k), cols[k].width;
    var cells := cols[k].data;
    assert |rows| == |cells| by {
      assert |cells| == RowCount(cols);
    }
    forall i | 0 <= i < |rows| ensures SameField(cells[i], 0, rows[i], idx, w) {
      RowFitsOf(cols, k, i);
      PackedField(cols, k, i);
      assert rows[i] == PackRow(cols, i);
    }
    SlotCountSameValues(cells, 0, rows, idx, w, bins, s);
  }

  /** Cutting scannable rows into chunks gives scannable chunks. */
  lemma ChunkedScannable(rows: seq<seq<int>>, idx: int, width: int, bins: seq<int>)
    requires Scannable(rows, idx, width, bins)
    ensures ChunksScannable(Chunked(rows), idx, width, bins)
  {
    forall c | 0 <= c < |Chunked(rows)| ensures Scannable(Chunked(rows)[c].data, idx, width, bins) {
      var d := Chunked(rows)[c].data;
      assert forall i :: 0 <= i < |d| ==> d[i] == rows[c * ChunkSize + i];
    }
  }

  /** On a table New builds from columns whose cells fit their widths, entry i of
      the histogram of column k is the number of that column's own values in slot
      i + 1: packing the rows and cutting them into chunks loses and adds nothing. */
  lemma HistogramOfColumn(cols: seq<Column>, k: int, bins: seq<int>)
    requires SameRowCount(cols) && CellsFit(cols) && 0 <= k < |cols| && |bins| >= 2
    requires Scannable(cols[k].data, 0, cols[k].width, bins)
    ensures ChunksScannable(Chunked(Rows(cols)), Offset(cols, k), cols[k].width, bins)
    ensures forall i :: 0 <= i < |bins| - 1 ==>
      Counts(Chunked(Rows(cols)), Offset(cols, k), cols[k].width, bins)[i] == SlotCount(cols[k].data, 0, cols[k].width, bins, i + 1)
  {
    PackedColumnCount(cols, k, bins, 0);
    ChunkedScannable(Rows(cols), Offset(cols, k), cols[k].width, bins);
    forall i | 0 <= i < |bins| - 1
      ensures Counts(Chunked(Rows(cols)), Offset(cols, k), cols[k].width, bins)[i] == SlotCount(cols[k].data, 0, cols[k].width, bins, i + 1)
    {
      HistogramEntryOfColumn(cols, k, bins, i);
    }
  }

  lemma HistogramEntryOfColumn(cols: seq<Column>, k: int, bins: seq<int>, i: int)
    requires SameRowCount(cols) && CellsFit(cols) && 0 <= k < |cols| && |bins| >= 2 && 0 <= i < |bins| - 1
    requires Scannable(cols[k].data, 0, cols[k].width, bins)
    ensures ChunksScannable(Chunked(Rows(cols)), Offset(cols, k), cols[k].width, bins)
    ensures Counts(Chunked(Rows(cols)), Offset(cols, k), cols[k].width, bins)[i] == SlotCount(cols[k].data, 0, cols[k].width, bins, i + 1)
  {
    PackedColumnCount(cols, k, bins, i + 1);
    CountsEntry(Rows(cols), Offset(cols, k), cols[k].width, bins, i);
  }

  /** Entry i of the histogram of chunked rows counts slot i + 1 over the rows. */
  lemma CountsEntry(rows: seq<seq<int>>, idx: int, width: int, bins: seq<int>, i: int)
    requires Scannable(rows, idx, width, bins) && |bins| >= 2 && 0 <= i < |bins| - 1
    ensures ChunksScannable(Chunked(rows), idx, width, bins)
    ensures Counts(Chunked(rows), idx, width, bins)[i] == SlotCount(rows, idx, width, bins, i + 1)
  {
    ChunkedScannable(rows, idx, width, bins);
    ChunkedRows(rows);
    ChunksCountAllRows(Chunked(rows), idx, width, bins, i + 1);
  }
}
