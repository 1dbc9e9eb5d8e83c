# Sliding-window document chunker, modelled in Dafny

This project models `make_chunks`, the chunking step of a retrieval-augmented
generation pipeline. It takes a table of documents whose columns may include
`id`, `title`, `url` and `text`. It returns a table of chunk records.

- A row whose text is empty, or every row of a table without a `text` column,
  yields nothing.
- Every other row yields one record per window `[start, end)` over its text.
- The first window starts at 0. Each window ends at `min(n, start + chunk_size)`.
- The loop stops once a window ends at `n`. Otherwise the next start is
  `max(end - chunk_overlap, start + 1)`.
- Each record carries the document id, the title and the url of its row.
  When the table has no `id` column the document id falls back to the row
  position; without a `title` or `url` column those fall back to `""`.
- Each record has the chunk id `{doc_id}_{start}_{end}` and the text
  `text[start:end]`.

Modules:

- `SlidingWindow` (`sliding_window.dfy`): the window loop on offsets, as a
  recursive function with `decreases n - start`. It terminates for every
  integer `chunk_size` and `chunk_overlap`.
- `WindowCount` (`window_count.dfy`): a closed form of the same loop, used as
  an independent reference. For any parameters, window `k` is
  `[k*stride, min(n, k*stride + size))` with stride `max(size - overlap, 1)`.
  With `chunk_size >= 1` and `chunk_overlap >= 0` the number of windows is a
  ceiling division.
- `Chunker` (`make_chunks.dfy`): rows, chunk records, the whole-table function
  `MakeChunks`, and the record-level properties. It also holds two imperative
  loops shaped like the source (`WindowLoop`, `MakeChunksLoop`), each proved
  equal to the functional definition.
- `ChunkIds` (`chunk_id.dfy`): the chunk id format and a parser for it. The
  parse round trip shows that a chunk id determines the document id, the start
  and the end.
- `Decimal` (`decimal.dfy`): Python's `str(int)`, with a reader.
- `PySlice` (`py_slice.dfy`): Python's `s[a:b]`, including negative indices
  and clamping.
- `Optional` (`optional.dfy`): a column that may be absent.
- `Seqs` (`seqs.dfy`): generic sequence facts (mapping a function over a
  sequence, regrouping concatenations) used by the proofs.
- `Scenarios` (`scenarios.dfy`): worked examples.

`MakeChunks` takes any integers as parameters. For `chunk_size <= 0` it
follows Python's slicing rules, and only the properties marked "for any
parameters" below are claimed there. The content, bounds and coverage properties
assume `chunk_size >= 1`. The coverage and final-window properties also assume
`chunk_overlap >= 0`.

When `chunk_overlap >= chunk_size`, `end - overlap` never gets past `start`,
so the `start + 1` floor (src/chunk/make_chunks.py:13) decides and the window slides one
character at a time. Size = overlap = 100 on 250 characters gives 151 windows
`[k, k + 100)` for `k = 0..150`, not `[0,100), [100,200), [200,250)`
(`WindowCount.OverlapEqualsSizeExample`).

## Model

| member | source | states |
|---|---|---|
| SlidingWindow.Windows | src/chunk/make_chunks.py:8-13 | The loop terminates for all integer parameters (`n - start` shrinks). It emits nothing exactly when `start >= n`. The first window starts at `start`. Every window starts in `[start, n)` and ends at or before `n`. |
| SlidingWindow.NextStart | src/chunk/make_chunks.py:13 | The advance always moves strictly forward, whatever the overlap. |
| SlidingWindow.NonFinalWindowsFull | src/chunk/make_chunks.py:10-12 | For any parameters, every window but the last is exactly `chunk_size` wide and ends before `n`. |
| SlidingWindow.WindowsBounded | src/chunk/make_chunks.py:8-10 | With `chunk_size >= 1`, every window satisfies `0 <= start < end <= n` and `end - start <= chunk_size`. |
| SlidingWindow.LastWindowEndsAtN | src/chunk/make_chunks.py:9-13 | With `chunk_size >= 1` and `chunk_overlap >= 0`, a non-empty text gets at least one window, and the last one ends exactly at `n`. |
| SlidingWindow.StartsStrictlyIncreasing | src/chunk/make_chunks.py:10-13 | For any parameters, window starts strictly increase along the whole list. |
| SlidingWindow.EndsMonotone | src/chunk/make_chunks.py:10-13 | For any parameters, window ends never decrease. |
| SlidingWindow.WindowsDistinct | src/chunk/make_chunks.py:10-13 | For any parameters, no window is emitted twice. |
| SlidingWindow.OverlapIsExact | src/chunk/make_chunks.py:13 | With `0 <= chunk_overlap < chunk_size`, each next start is the previous end minus `chunk_overlap`, so neighbours share exactly `chunk_overlap` characters. |
| SlidingWindow.LargeOverlapStepsByOne | src/chunk/make_chunks.py:13 | With `chunk_overlap >= chunk_size`, each window starts one character after the previous one. |
| SlidingWindow.NoGaps | src/chunk/make_chunks.py:13 | With `chunk_size >= 1` and `chunk_overlap >= 0`, no window starts after its predecessor ends. |
| SlidingWindow.WindowsCover | src/chunk/make_chunks.py:8-13 | With `chunk_size >= 1` and `chunk_overlap >= 0`, every offset in `[start, n)` lies inside some window. |
| SlidingWindow.ShortTextOneWindow | src/chunk/make_chunks.py:10-12 | A text of `1..chunk_size` characters gets exactly one window, covering all of it. |
| WindowCount.NextStartIsStride | src/chunk/make_chunks.py:13 | For any parameters, after a full window the advance equals the stride `max(size - overlap, 1)`: `size - overlap`, or 1 when the overlap is at least the size. |
| WindowCount.WindowsCount | src/chunk/make_chunks.py:8-13 | With `chunk_size >= 1` and `chunk_overlap >= 0`, the loop emits `1` window if `n <= size`, and otherwise `1 + ceil((n - size) / stride)` windows. |
| WindowCount.ClosedForm | src/chunk/make_chunks.py:8-13 | For any parameters, window `k` is `[start + k*stride, min(n, start + k*stride + size))` with stride `max(size - overlap, 1)`. This is an independent description of the loop. |
| WindowCount.CountFormula | src/chunk/make_chunks.py:8-13 | With `0 <= chunk_overlap < chunk_size` and a text longer than the overlap, the loop emits exactly `ceil((n - overlap) / (size - overlap))` windows. |
| WindowCount.OverlapEqualsSizeExample | src/chunk/make_chunks.py:13 | Size = overlap = 100 on 250 characters gives 151 windows `[k, k+100)`. |
| Decimal.NatToString | src/chunk/make_chunks.py:11 | The offsets in a chunk id are canonical decimal digits: non-empty, all digits, and no leading zero. |
| Decimal.IntToString | src/chunk/make_chunks.py:6 | `str(int)`: non-empty, a leading `-` exactly for negatives, and digits everywhere else. |
| Decimal.NoUnderscore | src/chunk/make_chunks.py:11 | A rendered integer never contains `_`, the separator of chunk ids. |
| Decimal.ParseIntRoundTrip | src/chunk/make_chunks.py:11 | Reading a rendered integer gives back the integer. |
| Decimal.IntToStringInjective | src/chunk/make_chunks.py:11 | Distinct integers are rendered as distinct strings. |
| ChunkIds.ChunkId | src/chunk/make_chunks.py:11 | The id `{doc_id}_{start}_{end}`. It has no contract of its own; `ChunkIds.ParseChunkIdRoundTrip` and `ChunkIds.ChunkIdInjective` state that it reads back and determines the document id, start and end. |
| ChunkIds.LastIndexOf | src/chunk/make_chunks.py:11 | Finds the last separator, or reports that there is none. It is used to split chunk ids from the right. |
| ChunkIds.SplitLastAround | src/chunk/make_chunks.py:11 | Splitting `a + "_" + b` at its last `_` gives back `a` and `b` whenever `b` has no `_`. |
| ChunkIds.ParseChunkIdRoundTrip | src/chunk/make_chunks.py:11 | Splitting a chunk id at its last two underscores recovers the document id, start and end. This holds even when the document id contains underscores. |
| ChunkIds.ChunkIdInjective | src/chunk/make_chunks.py:11 | Two chunk ids are equal if and only if their document ids, starts and ends are equal. |
| PySlice.AdjustIndex | src/chunk/make_chunks.py:10 | One slice bound, adjusted as Python does: kept when in range, counted from the end when negative, and clamped into `[0, len]`. |
| PySlice.Slice | src/chunk/make_chunks.py:10 | Python slicing never returns more than the string. In range it is exactly `s[start..stop]`, and it is empty when `0 <= stop <= start`. |
| Chunker.DocId | src/chunk/make_chunks.py:6 | The `id` cell, or the row position rendered by `str` when the table has no `id` column. It has no contract of its own; `Chunker.RowChunksMetadata` states the fallback. |
| Chunker.TitleOf | src/chunk/make_chunks.py:6 | The `title` cell, or `""` when the table has no `title` column. It has no contract of its own; `Chunker.RowChunksMetadata` states the fallback. |
| Chunker.UrlOf | src/chunk/make_chunks.py:6 | The `url` cell, or `""` when the table has no `url` column. It has no contract of its own; `Chunker.RowChunksMetadata` states the fallback. |
| Chunker.TextOf | src/chunk/make_chunks.py:6-8 | The `text` cell, or `""` when the table has no `text` column. It has no contract of its own; `Chunker.RowChunks` states that an empty result yields no records. |
| Chunker.ChunkOf | src/chunk/make_chunks.py:10-11 | The record of one window carries the document's id, title and url. `Chunker.ChunkOfNamesWindow` states that its id reads back as the document id and the window. |
| Chunker.ChunkOfNamesWindow | src/chunk/make_chunks.py:11 | The id of a window's record parses to exactly the document id, start and end of that window. |
| Chunker.ChunksOf | src/chunk/make_chunks.py:9-13 | One record per window, in window order. It has no contract of its own; `Chunker.ChunksOfIndex` states it. |
| Chunker.ChunksOfIndex | src/chunk/make_chunks.py:9-11 | Record `k` is built from window `k`: the given metadata, the id `{doc_id}_{start}_{end}` and the text `text[start:end]`. There is one record per window, in window order. |
| Chunker.RowChunks | src/chunk/make_chunks.py:6-7 | A row yields no records exactly when its text is empty or the table has no `text` column. |
| Chunker.RowChunksMetadata | src/chunk/make_chunks.py:6-11 | Every record copies the row's document id, title and url. Without an `id` column the document id is the row position; without a `title` or `url` column those are `""`. |
| Chunker.MakeChunksFrom | src/chunk/make_chunks.py:4-14 | The records of rows `index..` in row order. It has no contract of its own; `Chunker.MakeChunksFromEmpty`, `Chunker.ChunksNameOwnDoc`, `Chunker.ChunkIdsUnique` and `Chunker.AppendRow` state its properties. |
| Chunker.MakeChunksFromEmpty | src/chunk/make_chunks.py:4-7 | Rows `index..` produce no records exactly when none of them has text. |
| Chunker.MakeChunks | src/chunk/make_chunks.py:3-14 | `make_chunks` for any integer parameters. It has no contract of its own; `Chunker.MakeChunksEmpty`, `Chunker.MakeChunksSnoc`, `Chunker.ChunkIdsUnique` and `Chunker.MakeChunksLoop` state its properties. |
| Chunker.MakeChunksEmpty | src/chunk/make_chunks.py:3-14 | The whole output is empty exactly when no row has text. |
| Chunker.RowChunksWellFormed | src/chunk/make_chunks.py:8-11 | With `chunk_size >= 1`, each record's id parses to `(doc_id, s, e)` with `0 <= s < e <= n` and `e - s <= size`. Its text is exactly `text[s..e]`, non-empty and at most `size` long. |
| Chunker.RowChunksCoverText | src/chunk/make_chunks.py:8-13 | With `chunk_size >= 1` and `chunk_overlap >= 0`, every character of a row's text lies in a record whose id names a window containing it. |
| Chunker.RowChunksSpanWholeText | src/chunk/make_chunks.py:8-13 | With `chunk_size >= 1` and `chunk_overlap >= 0`, a non-empty text yields records. The first record's id starts at 0, and the last record's id ends at the text length. |
| Chunker.RowChunkIdsNameDoc | src/chunk/make_chunks.py:11 | Every record's id reads back as the record's own document id. |
| Chunker.RowChunkIdsDistinct | src/chunk/make_chunks.py:10-13 | For any parameters, no two records of one row share a chunk id. |
| Chunker.ChunksNameOwnDoc | src/chunk/make_chunks.py:4-14 | Every output record has an id that reads back as the record's own document id. |
| Chunker.ChunksAvoidDocId | src/chunk/make_chunks.py:4-14 | A document id that no row from `index` on uses appears on none of their records. |
| Chunker.ChunkIdsUnique | src/chunk/make_chunks.py:4-14 | If the rows' document ids are distinct, all chunk ids of the output are distinct. |
| Chunker.AppendRow | src/chunk/make_chunks.py:4-14 | Processing an extra final row appends exactly that row's records. |
| Chunker.MakeChunksSnoc | src/chunk/make_chunks.py:4-14 | The output is the per-row outputs concatenated in row order. |
| Chunker.RechunkIsFixedPoint | src/chunk/make_chunks.py:7-13 | With `chunk_size >= 1`, re-chunking any record's text as a new document gives exactly one record with the same text. |
| Chunker.WindowLoop | src/chunk/make_chunks.py:8-13 | The `while`/`break` loop over one text builds exactly the records of the recursive window definition. |
| Chunker.MakeChunksLoop | src/chunk/make_chunks.py:3-14 | The loop over rows, skipping empty texts, builds exactly `MakeChunks`. |
| Scenarios.ThousandCharacters | src/chunk/make_chunks.py:8-13 | 1000 characters with 800/200 give `[0,800)` then `[600,1000)`. |
| Scenarios.FiveHundredCharacters | src/chunk/make_chunks.py:8-13 | 500 characters with 800/200 give the single window `[0,500)`. |
| Scenarios.EmptyTextRows | src/chunk/make_chunks.py:6-7 | Rows with empty text, or with no `text` column, give an empty output. |
| Scenarios.MissingMetadata | src/chunk/make_chunks.py:6-11 | The row at position 3 with no id, title or url gets doc id "3", chunk id "3_0_500", and an empty title and url. |
| Scenarios.DefaultParameters | src/chunk/make_chunks.py:3-14 | With the default 800/200, a two-row table whose second row is empty gives records `d_0_800` and `d_600_1000` with the row's metadata. |
| Scenarios.NegativeOverlapDropsTail | src/chunk/make_chunks.py:13 | With a negative overlap the loop can stop early and leave offsets uncovered. This is why the coverage properties assume `chunk_overlap >= 0`. |

## Left out

- The command-line block (src/chunk/make_chunks.py:15-19) is I/O plumbing and is not modelled: argument parsing, reading the CSV file, writing the Parquet file, creating directories and printing the row count.
- pandas details are not modelled: `iterrows`, and the `str(...)` coercion of non-string cells (a NaN cell becomes `"nan"`). Rows are modelled as records whose cells are already strings, or absent when the table lacks that column.
- The fallback document id uses the row's position. This matches the default index of a freshly read CSV table; other index labels are not modelled.
- Characters are Dafny `char`s. Offsets count them the way Python counts string characters, and no text encoding is modelled.
- Nothing is stated about the content of windows when `chunk_size <= 0`. The model follows Python's negative-index slicing there, but only the properties marked "for any parameters" are claimed.
- `src/__init__.py` only re-exports modules whose code is not part of this model (embedding, retrieval, reranking, generation, query rewriting). `tests/conftest.py` holds test fixtures only.
