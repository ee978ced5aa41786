# retas core in Dafny

This is a verified model of the two sequential subsystems of retas, a small in-memory columnar engine written in Go.

**Order-preserving dictionary encoders** (`internal/encoder`)
- Integer and string dictionaries deduplicate their input, sort it, and give the i-th value the fixed-width big-endian code `intToBytes(i, w)`.
- The width `w` is `bytesByUniques` of the number of distinct values.
- `Encode` and `Transform` are lower-bound searches over the sorted values.
- `Decode` is a byte-lexicographic search over the codes.

**Chunked row store and histogram** (`internal/table`)
- `New` checks the columns, lays out their byte offsets, packs each row as the concatenation of its column slices, and cuts the rows into chunks of 65536.
- `Histogram` checks its bins and finds the column.
- It then walks every chunk with a cursor-style iterator, which shows one column's bytes per row.
- It reads those bytes as a big-endian integer and maps the integer to a bin slot with `byteIndexer`, an interpolation guess followed by a one-way correction walk.
- Finally it adds up the per-chunk counts of slots `1 .. len(bins)-1`.

Modules:
- `ByteCodec` (`general.go`): the codes and `bytes.Compare` as an order.
- `Search`: Go's `sort.Search`.
- `DictBuild`: the construction steps both dictionaries share.
- `IntEncoder` (`int.go`).
- `StringEncoder` (`string.go`, as written).
- `StringEncoderFixed`: the string dictionary as the package's tests expect it.
- `Chunk` (`chunk.go`).
- `Table` (`table.go`).
- `Arith` and `Wrappers`: helpers.

Representation:
- Bytes are integers in 0..255.
- Go strings are their byte sequences, ordered by the same comparison as `bytes.Compare`.
- Go `int` is a mathematical integer.
- The encoders are immutable values built by imperative constructors.
- The iterator is a class whose `Next` mutates its cursor.
- `byteViewInt`, `byteViewComparer`, `byteIndexer`, `index`, `New` and `Histogram` are methods with loops, each proved against a specification function.

Where a description of the string dictionary as the integer dictionary's twin disagrees with `string.go`, the model follows the code.

## Model

| member | source | states |
|---|---|---|
| ByteCodec.IntToBytes | internal/encoder/general.go:3-10 | returns exactly `width` bytes, each in 0..255, byte k being digit `w-1-k` of `v` in base 256 (`ToBytes`) |
| ByteCodec.BigEndianOfToBytes | internal/encoder/general.go:3-10 | reading a code back gives `v mod 256^w` |
| ByteCodec.CodeRoundTrip | internal/encoder/general.go:3-10 | for `0 <= v < 256^w` the code is v's base-256 digits and reads back as `v` |
| ByteCodec.BytesRoundTrip | internal/encoder/general.go:3-10 | every byte sequence is the code of its own big-endian value |
| ByteCodec.CompareIsNumeric | internal/encoder/int.go:68 | for equal-width byte sequences, `bytes.Compare` orders them as the integers they denote |
| ByteCodec.CodeOrder | internal/encoder/general.go:3-10 | `0 <= i < j < 256^w` implies the code of i is byte-wise smaller than the code of j |
| ByteCodec.BigEndianInjective | internal/encoder/general.go:3-10 | equal-width byte sequences denoting the same integer are equal |
| ByteCodec.CodeExamples | internal/encoder/encode_test.go:144-173 | 150 gives [150], 255 gives [255], 0 gives [0], 4104 gives [16,8], 4104+2^16+2^17+2^23 gives [131,16,8] |
| ByteCodec.CompareFlip | internal/encoder/int.go:68 | `bytes.Compare` is antisymmetric and zero only on equal sequences |
| ByteCodec.LessTransitive | internal/encoder/int.go:68 | byte-wise "less" is transitive |
| ByteCodec.BytesByUniques | internal/encoder/general.go:12-23 | the loop returns `WidthOf(n)`, the value of the recursive reading of the same loop |
| ByteCodec.WidthBounds | internal/encoder/general.go:12-23 | 0 for n <= 0; otherwise at least 1 and never wider than needed; there is room for n codes except when `256^w < n < 256^w + 256^(w-2)` |
| ByteCodec.WidthMonotone | internal/encoder/general.go:12-23 | more distinct values never get a narrower width: `a <= b` implies `bytesByUniques(a) <= bytesByUniques(b)` |
| ByteCodec.WidthOneByte | internal/encoder/general.go:18 | the width is 1 exactly when 1 <= n <= 256, and at least 2 from 257 on |
| ByteCodec.WidthMinimalUpTo3Bytes | internal/encoder/general.go:12-23 | up to 256^3 values the width is the smallest with room for every ordinal |
| ByteCodec.WidthShortAt16777217 | internal/encoder/general.go:21 | 256^3+1 values get width 3, which holds only 256^3 codes (`mod` keeps only the latest remainder) |
| ByteCodec.WidthExamples | internal/encoder/encode_test.go:192-197 | the package's points: 0 to 0, 1 to 1, 256 to 1, 257 to 2, 65536 to 2, 65537 to 3 |
| Search.SearchFindsFirst | internal/encoder/int.go:68 | on monotone answers, the search returns the first index answering true, or the length |
| DictBuild.Collect | internal/encoder/int.go:73-85 | the set is exactly the input's values; the list holds each of them once |
| DictBuild.AppendWithCodes | internal/encoder/int.go:93-96 | values are the sorted list; `encoding[i]` is the code of ordinal i, parallel to values |
| DictBuild.SearchIssued | internal/encoder/int.go:68 | when codes are ordinals within capacity, the first code greater than code k is at k+1 |
| IntEncoder.NewIntDeEncoder | internal/encoder/int.go:72-98 | `Built`: values strictly ascending and exactly the distinct inputs; width `bytesByUniques(#distinct)`; `encoding[i]` the code of i |
| IntEncoder.SortInts | internal/encoder/int.go:87 | the result is ascending and a permutation of the input |
| IntEncoder.Bytes | internal/encoder/int.go:42 | when the codes are the ordinal codes of the dictionary's width, every code is exactly `Bytes()` bytes long |
| IntEncoder.Encode | internal/encoder/int.go:44-53 | Some only with the code stored at a position holding v (no code for an unseen value); the full iff is `EncodeExact` |
| IntEncoder.Transform | internal/encoder/int.go:55-64 | each side, when present, is one of the stored codes; which one is `TransformNeighbours` |
| IntEncoder.Decode | internal/encoder/int.go:66-70 | the result is one of the stored values; which one is `DecodeIssued` |
| IntEncoder.LowerBound | internal/encoder/int.go:45 | on sorted values, everything before the search position is below v and nothing from it on is |
| IntEncoder.EncodeExact | internal/encoder/int.go:44-53 | Encode gives the stored code of v when v is stored, and None otherwise, including above the maximum |
| IntEncoder.TransformNeighbours | internal/encoder/int.go:55-64 | lower is None iff no value is below v, else the code of the greatest value below v; upper is None iff all values are below v, else the code of the least value not below v |
| IntEncoder.DecodeIssued | internal/encoder/int.go:66-70 | decoding the k-th code gives the k-th value |
| IntEncoder.LookupsAt | internal/encoder/int.go:44-64 | Encode and Transform below the first value, above the last, and strictly between neighbours |
| IntEncoder.RoundTrip | internal/encoder/int.go:44-70 | for every input v, Encode(v) exists and Decode of it is v (given room for the codes) |
| IntEncoder.EncodeOrder | internal/encoder/int.go:44-53 | a < b among the inputs implies code(a) is byte-wise smaller than code(b) |
| IntEncoder.BuiltHasRoom | internal/encoder/int.go:80 | up to 256^3 distinct values every ordinal has its own code |
| IntEncoder.TwoIntsScenario | internal/encoder/encode_test.go:49-62 | {1,10}: codes [0] and [1]; 0, 2 and 11 missing; Transform gives (None,[0]), ([0],[1]) and ([1],None); decode back |
| IntEncoder.OneTo256Scenario | internal/encoder/encode_test.go:63-76 | 1..256: width 1, 1 to [0], 100 to [99], 256 to [255], 0 and 257 missing and bracketed |
| IntEncoder.OddTo515Scenario | internal/encoder/encode_test.go:77-91 | 1,3,..,515: width 2, 1 to [0,0], 513 to [1,0], 515 to [1,1], 0, 2 and 516 missing and bracketed |
| StringEncoder.NewStringDeEncoder | internal/encoder/string.go:49-75 | `Built`: values ascending, holding n empty strings plus each distinct input once (2n values); width `bytesByUniques(n)`; `encoding[i]` the code of i |
| StringEncoder.SortStrings | internal/encoder/string.go:64 | the result is ascending and a permutation of the input |
| StringEncoder.Bytes | internal/encoder/string.go:22 | when the codes are the ordinal codes of the dictionary's width, every code is exactly `Bytes()` bytes long |
| StringEncoder.Transform | internal/encoder/string.go:32-41 | each side, when present, is one of the stored codes; which one is `TransformNeighbours` |
| StringEncoder.Decode | internal/encoder/string.go:43-47 | the result is one of the stored values; `DecodeNext` shows it is the one after the matching code |
| StringEncoder.LowerBound | internal/encoder/string.go:25 | on sorted values, everything before the search position is below v and nothing from it on is |
| StringEncoder.Encode | internal/encoder/string.go:24-30 | Some only with the code at a position holding v; None only when v is absent from sorted values |
| StringEncoder.EncodeStored | internal/encoder/string.go:24-30 | every input, and "" when there is any input, is found; a non-empty input's ordinal is at least n; "" gets code 0 |
| StringEncoder.EncodeMissing | internal/encoder/string.go:24-30 | Encode misses exactly the strings that are neither inputs nor "" |
| StringEncoder.TransformNeighbours | internal/encoder/string.go:32-41 | lower and upper codes are those of the greatest value below v and the least value not below v, None exactly when there is none |
| StringEncoder.DecodeNext | internal/encoder/string.go:43-47 | decoding the k-th code gives the value at k+1, the next value |
| StringEncoder.DecodeLastOutOfRange | internal/encoder/string.go:45-46 | decoding the last code searches to the end of values |
| StringEncoder.RoomUpTo128 | internal/encoder/string.go:57-73 | up to 128 distinct inputs, the 2n codes fit the width chosen for n |
| StringEncoder.CodesCollideAt129 | internal/encoder/string.go:57-73 | at 129 distinct inputs the width is 1 byte for 258 positions, and positions 0 and 256 share code [0] |
| StringEncoder.TwoStringsScenario | internal/encoder/string.go:24-75 | "01","10": "01" encodes as [2] and "10" as [3]; "" as [0]; "00" is missing; Decode([2]) is "10", so "01" does not round-trip; "11" searches past the end |
| StringEncoderFixed.NewStringDeEncoder | internal/encoder/string.go:49-75 | with an empty starting list: values ascending, each distinct input exactly once; width and codes as for integers |
| StringEncoderFixed.Encode | internal/encoder/string.go:24-30 | Some only with the code of v; None on sorted values only when v is absent |
| StringEncoderFixed.Decode | internal/encoder/string.go:43-47 | corrected to the value before the first code greater than `buf`, as int.go:69 reads; the result is one of the stored values, and `RoundTrip` shows it inverts Encode |
| StringEncoderFixed.EncodeStored | internal/encoder/string.go:24-30 | every input is found at its own position |
| StringEncoderFixed.EncodeMissing | internal/encoder/string.go:24-30 | Encode is None exactly for the strings that were not input |
| StringEncoderFixed.RoundTrip | internal/encoder/string.go:43-47 | for every input v, Encode(v) exists and Decode of it is v (given room for the codes) |
| StringEncoderFixed.EncodeOrder | internal/encoder/string.go:24-30 | a string smaller than another gets a byte-wise smaller code |
| StringEncoderFixed.HasRoom | internal/encoder/string.go:57 | up to 256^3 distinct inputs every position has its own code |
| StringEncoderFixed.TwoStringsScenario | internal/encoder/encode_test.go:210-249 | "01","10": codes [0],[1] that decode back; "00", "02" and "11" are missing and bracketed by (None,[0]), ([0],[1]) and ([1],None) |
| Chunk.NewByteView | internal/table/chunk.go:121-123 | the view has `end-start` bytes, byte k being `r[start+k]` |
| Chunk.Iterator.constructor | internal/table/chunk.go:29-36 | fields set as given, cursor 0 |
| Chunk.Iterator.Next | internal/table/chunk.go:20-23 | cursor goes up by one; true exactly while the new cursor is at most `len`; nothing else changes |
| Chunk.Iterator.Value | internal/table/chunk.go:16-18 | after a successful Next, the bytes `[start, end)` of row `cursor-1` |
| Chunk.Query | internal/table/chunk.go:29-37 | a fresh iterator with `len` = number of rows, cursor 0, window `[idx, idx+width)` |
| Chunk.ByteViewInt | internal/table/chunk.go:78-91 | both the one-byte case and the loop return the big-endian value of the first `length` bytes |
| Chunk.ViewOfCode | internal/table/chunk.go:78-91 | reading a view of an in-range code gives back its ordinal |
| Chunk.FirstDifference | internal/table/chunk.go:106-114 | the first differing position decides byte-wise "less" |
| Chunk.ByteViewComparer | internal/table/chunk.go:106-114 | true exactly when the first `length` bytes are byte-wise less than the code of `cmp` |
| Chunk.ComparerIsNumeric | internal/table/chunk.go:106-114 | on bytes, the comparer's answer is "value < cmp mod 256^length"; equality gives false |
| Chunk.CountLEPosition | internal/table/chunk.go:58-64 | on sorted bins, `bins[k-1] <= v < bins[k]` (missing bounds open) gives slot k |
| Chunk.ByteIndexer | internal/table/chunk.go:39-76 | the walk ends and returns the number of bins at or below the value, under the precondition `IndexerDefined` |
| Chunk.SlotMeaning | internal/table/chunk.go:51-71 | the slot is in 1..len(bins), len(bins) exactly at or past the last bin; otherwise `bins[j-1] <= v < bins[j]` |
| Chunk.GuessPastEnd | internal/table/chunk.go:55-58 | bins [0,1,2,5] with value 4: the first guess reads `bins[4]`, past the end |
| Chunk.EqualWidthDefined | internal/table/chunk.go:44-55 | for equally spaced bins, every value from the first bin on meets the indexer's precondition |
| Table.ScanColumns | internal/table/table.go:89-104 | the ID set is full iff the IDs are distinct; the length set has at most one element iff all columns have the same row count; entries with running offsets; last length |
| Table.RowCountSet | internal/table/table.go:105 | `len(s2) <= 1` exactly when all columns have the same row count |
| Table.PackRowOf | internal/table/table.go:120-123 | the row is the column slices of row i concatenated in column order |
| Table.PackChunks | internal/table/table.go:112-128 | the chunk list is the packed rows cut into chunks of 65536 |
| Table.New | internal/table/table.go:88-134 | row-count mismatch fails first, then duplicate ID; otherwise the table of `Entries(cols)` and the chunked packed rows |
| Table.ChunkLayout | internal/table/table.go:112-128 | no rows iff no chunks; no chunk empty; all but the last hold 65536 rows; row i at chunk i/65536, position i%65536 |
| Table.ChunkedRows | internal/table/table.go:112-128 | the rows of all chunks in order are the packed rows |
| Table.ColumnSlice | internal/table/table.go:98-103 | when cells fit their widths, packed row i holds column k's cell at the column's offset |
| Table.Index | internal/table/table.go:25-32 | returns `IndexOf`: (Idx, Width) of the first entry with that ID, else (-1, 0) |
| Table.IndexOfFirst | internal/table/table.go:25-32 | the first matching entry decides |
| Table.IndexOfMissing | internal/table/table.go:31 | an absent ID gives (-1, 0) |
| Table.IndexOfBuilt | internal/table/table.go:25-32 | on a built table, column k's ID finds its offset and width |
| Table.CountChunk | internal/table/table.go:55-60 | `chist[s]` is the number of the chunk's rows whose slot is s, for each s in 0..len(bins) |
| Table.Histogram | internal/table/table.go:34-74 | errors in order: unsorted bins, fewer than 2 bins, unknown column; otherwise entry i sums over chunks the rows in slot i+1 |
| Table.ChunksCountAllRows | internal/table/table.go:67-69 | summing per chunk equals counting over all rows together |
| Table.ChunkOrderIrrelevant | internal/table/table.go:52-69 | any rearrangement of the chunks gives the same counts |
| Table.SlotsPartition | internal/table/table.go:55-58 | slots 0..len(bins) count every row exactly once |
| Table.SlotZeroEmpty | internal/table/table.go:58 | no row that can be scanned lands in slot 0 |
| Table.HistogramTotal | internal/table/table.go:49-63 | the histogram's entries plus the rows at or past the last bin make up all rows |
| Table.PackedColumnCount | internal/table/table.go:112-124 | counting column k in the packed rows equals counting the column's own cells |
| Table.HistogramOfColumn | internal/table/table.go:34-134 | on a table built by New, entry i of column k's histogram counts that column's values in slot i+1 |

## Left out

- Goroutines, the work channel, the WaitGroup and `atomic.AddUint64` in `Histogram`: replaced by one sequential pass over the chunks. `ChunkOrderIrrelevant` shows the result does not depend on the order in which chunks are counted.
- Table.Histogram: counts are mathematical integers, with no `uint64` wrap-around.
- Table.Histogram: requires `HistogramDefined`. Once the checks pass, every row must hold the column's bytes and satisfy the indexer's precondition. On other input Go either panics (division by zero, index out of range) or, for a row shorter than the column's window, reads past the row's length into its spare capacity; neither is modelled.
- Chunk.ByteIndexer: requires `IndexerDefined`: at least two sorted bins, a value not below the first bin, and, below the last bin, a positive bin width and a first guess inside `bins`. Go does not check that the bins are sorted. The only caller, `Histogram`, rejects unsorted bins first (internal/table/table.go:35-37). For sorted bins, Go divides by zero or indexes out of range when any other part fails (see `GuessPastEnd`). Under these conditions Go's truncating division equals Dafny's, because the operands are non-negative.
- Chunk.ByteViewInt: no 64-bit overflow for views of 8 bytes or more. The result is the mathematical big-endian value.
- Chunk.ByteViewComparer: `cmp` is an unbounded integer. Its bytes are taken as `(cmp / 256^k) mod 256`, which equals Go's arithmetic shift and low byte.
- Chunk.NewByteView: the window must lie within the row's length. Slicing up to a slice's capacity is not modelled.
- StringEncoder.Encode: requires the lower-bound position to be inside `values`. Go indexes out of range there.
- StringEncoder.Decode: requires a code greater than `buf`. Go indexes out of range otherwise.
- StringEncoder.Transform: requires a non-empty dictionary. Go indexes `encoding[-1]` otherwise.
- IntEncoder.Transform: requires a non-empty dictionary, for the same reason.
- IntEncoder.Decode: requires a code at or below `buf`. Go indexes `values[-1]` otherwise.
- IntEncoder.RoundTrip: assumes room for every ordinal's code. `IntEncoder.EncodeOrder`, `IntEncoder.DecodeIssued`, `StringEncoder.DecodeNext`, `StringEncoderFixed.RoundTrip` and `StringEncoderFixed.EncodeOrder` assume the same, for the same reason. This is proved up to 256^3 distinct values (`BuiltHasRoom`). It fails just above 256^3, as `WidthShortAt16777217` shows.
- Go map iteration order in the constructors: distinct values are listed in order of first occurrence. Sorting makes the result the same.
- `sort.Ints` and `sort.Strings`: modelled by their result (an ascending permutation), computed by insertion.
- The input iterator of `NewIntDeEncoder` is a finite sequence.
- The parameter of `NewStringDeEncoder` is declared with the undefined type `Stringtring` (internal/encoder/string.go:49). The model reads it as `[]string`, which is what the `range` over it and the package's test supply.
- Strings are byte sequences: there is no UTF-8 decoding.
- `New`'s two loops are split into helper methods: the column scan becomes `ScanColumns`; the row loop becomes `PackRowOf` for its nested column loop and `PackChunks` for the rows and the chunk split. The lengths of cells are not checked against the column widths, as in Go. The layout lemmas that need the cells to fit (`ColumnSlice`, `HistogramOfColumn`) assume it.
- Error messages: errors are datatype variants, without text.
- `table.Query` (a stub returning nil) and the commented-out alternatives in chunk.go.
- internal/encoder/encode.go is not part of this model: it is an older duplicate of the encoder.
- internal/table/rows.go is not part of this model: it is referenced nowhere.

## Findings

| source | as written | input that shows it | evidently intended | confidence | as-written member | corrected member |
|---|---|---|---|---|---|---|
| internal/encoder/string.go:59-62 | `make([]string, len(stringset))` followed by appends leaves n empty strings before the n inputs | inputs "01","10": "01" encodes as [2], not the [0] the test at encode_test.go:220-227 expects | a list that starts empty (`make([]string, 0, n)`), as in int.go | high (contradicts the package's own test); not executed | StringEncoder.TwoStringsScenario | StringEncoderFixed.TwoStringsScenario |
| internal/encoder/string.go:46 | Decode returns `values[idx]`, the value after the matching code | inputs "01","10": Decode(Encode("01")) is "10" | `values[idx-1]`, as in int.go:69, so that Decode inverts Encode (encode_test.go:229-232) | high; not executed | StringEncoder.TwoStringsScenario | StringEncoderFixed.RoundTrip |
| internal/encoder/string.go:26-29 | when the lower bound is the end of `values`, Encode indexes `encoding[len]` | inputs "01","10", looking up "11": the search ends past the last value | report a miss (`nil, false`), as int.go:46-48 does and encode_test.go:235-238 expects | high; not executed | StringEncoder.TwoStringsScenario | StringEncoderFixed.TwoStringsScenario |
