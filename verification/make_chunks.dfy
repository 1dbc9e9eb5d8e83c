/**
 `make_chunks` (src/chunk/make_chunks.py:3-14): turns a table of documents
 into a table of overlapping text chunks. Each input row may lack any of its
 `id`, `title`, `url` and `text` cells; a row whose text is empty yields
 nothing, and every other row yields one chunk record per sliding window over
 its text, tagged with the row's metadata and an identifier built from the
 document id and the window's offsets.
 */
module Chunker {
  import opened Optional
  import opened Decimal
  import opened ChunkIds
  import opened PySlice
  import opened SlidingWindow
  import opened Seqs

  /** An input row; `None` stands for a column the table does not have. */
  datatype Row = Row(id: Option<string>, title: Option<string>, url: Option<string>, text: Option<string>)

  /** An output row. */
  datatype Chunk = Chunk(docId: string, chunkId: string, title: string, url: string, text: string)

  /** Default chunk size and overlap of `make_chunks` (line 3), also used by the command line. */
  const DefaultChunkSize := 800
  const DefaultChunkOverlap := 200

  /** The document id: the `id` cell, or the row's position rendered as a string. */
  function DocId(row: Row, index: nat): string {
    row.id.GetOr(IntToString(index))
  }

  /** The title cell, or `""` when the table has no title column. */
  function TitleOf(row: Row): string { row.title.GetOr("") }

  /** The url cell, or `""` when the table has no url column. */
  function UrlOf(row: Row): string { row.url.GetOr("") }

  /** The text cell, or `""` when the table has no text column. */
  function TextOf(row: Row): string { row.text.GetOr("") }

  /**
   The record emitted for window `w` of a document (line 11): it carries the
   document's metadata, and its identifier and text are those of the window.
   */
  function ChunkOf(docId: string, title: string, url: string, text: string, w: Span): (c: Chunk)
    ensures c.docId == docId && c.title == title && c.url == url
  {
    Chunk(docId, ChunkId(docId, w.start, w.end), title, url, Slice(text, w.start, w.end))
  }

  /** The identifier of a window's record reads back as the document id and the window. */
  lemma ChunkOfNamesWindow(docId: string, title: string, url: string, text: string, w: Span)
    ensures ParseChunkId(ChunkOf(docId, title, url, text, w).chunkId) == Some(ChunkKey(docId, w.start, w.end))
  {
    ParseChunkIdRoundTrip(docId, w.start, w.end);
  }

  /** The record-maker of one document, as a function of the window. */
  function RecordOf(docId: string, title: string, url: string, text: string): Span -> Chunk {
    w => ChunkOf(docId, title, url, text, w)
  }

  /** The records of a list of windows, in order. */
  function ChunksOf(docId: string, title: string, url: string, text: string, ws: seq<Span>): seq<Chunk> {
    Map(RecordOf(docId, title, url, text), ws)
  }

  /** Record `k` is the record of window `k`, and there is one record per window. */
  lemma ChunksOfIndex(docId: string, title: string, url: string, text: string, ws: seq<Span>)
    ensures |ChunksOf(docId, title, url, text, ws)| == |ws|
    ensures forall k :: 0 <= k < |ws| ==> ChunksOf(docId, title, url, text, ws)[k] == ChunkOf(docId, title, url, text, ws[k])
  {
    MapIndex(RecordOf(docId, title, url, text), ws);
  }

  /** Record `k` of a row with text is the record of its window `k`. */
  lemma RowChunksIndex(row: Row, index: nat, size: int, overlap: int)
    ensures forall k :: 0 <= k < |RowChunks(row, index, size, overlap)| ==>
      && k < |RowWindows(row, size, overlap)|
      && RowChunks(row, index, size, overlap)[k]
        == ChunkOf(DocId(row, index), TitleOf(row), UrlOf(row), TextOf(row), RowWindows(row, size, overlap)[k])
  {
    var ws := RowWindows(row, size, overlap);
    var cs := RowChunks(row, index, size, overlap);
    if TextOf(row) != [] {
      var d, title, url, text := DocId(row, index), TitleOf(row), UrlOf(row), TextOf(row);
      assert cs == ChunksOf(d, title, url, text, ws);
      ChunksOfIndex(d, title, url, text, ws);
      forall k | 0 <= k < |cs|
        ensures k < |ws| && cs[k] == ChunkOf(d, title, url, text, ws[k])
      {
      }
    }
  }

  /** The windows cut from a row's text. */
  function RowWindows(row: Row, size: int, overlap: int): seq<Span> {
    Windows(0, |TextOf(row)|, size, overlap)
  }

  /** The records one row contributes (lines 6-13). */
  function RowChunks(row: Row, index: nat, size: int, overlap: int): (cs: seq<Chunk>)
    ensures TextOf(row) == [] <==> cs == []
  {
    if TextOf(row) == [] then []
    else ChunksOf(DocId(row, index), TitleOf(row), UrlOf(row), TextOf(row), RowWindows(row, size, overlap))
  }

  /** Every record carries its row's metadata. */
  predicate CarriesMetadata(cs: seq<Chunk>, docId: string, title: string, url: string) {
    forall k :: 0 <= k < |cs| ==> cs[k].docId == docId && cs[k].title == title && cs[k].url == url
  }

  /**
   Every record of a row copies the row's document id (its `id` cell or its
   position), its title and its url, with `""` when the table has no title or url column.
   */
  lemma RowChunksMetadata(row: Row, index: nat, size: int, overlap: int)
    ensures CarriesMetadata(RowChunks(row, index, size, overlap), DocId(row, index), TitleOf(row), UrlOf(row))
    ensures row.id.None? ==> DocId(row, index) == IntToString(index)
    ensures row.title.None? ==> TitleOf(row) == ""
    ensures row.url.None? ==> UrlOf(row) == ""
  {
    RowChunksIndex(row, index, size, overlap);
  }

  /** The records of rows `index..` in row order. */
  function MakeChunksFrom(rows: seq<Row>, index: nat, size: int, overlap: int): seq<Chunk>
    requires index <= |rows|
    decreases |rows| - index
  {
    if index == |rows| then []
    else RowChunks(rows[index], index, size, overlap) + MakeChunksFrom(rows, index + 1, size, overlap)
  }

  /** `make_chunks(df, chunk_size, chunk_overlap)`, for any integer parameters. */
  function MakeChunks(rows: seq<Row>, size: int, overlap: int): seq<Chunk> {
    MakeChunksFrom(rows, 0, size, overlap)
  }

  /** None of rows `index..` has text. */
  predicate NoText(rows: seq<Row>, index: nat) {
    forall j :: index <= j < |rows| ==> TextOf(rows[j]) == []
  }

  /** Rows `index..` produce no records exactly when none of them has text. */
  lemma {:induction false} MakeChunksFromEmpty(rows: seq<Row>, index: nat, size: int, overlap: int)
    requires index <= |rows|
    decreases |rows| - index
    ensures MakeChunksFrom(rows, index, size, overlap) == [] <==> NoText(rows, index)
  {
    if index < |rows| {
      var h := RowChunks(rows[index], index, size, overlap);
      var t := MakeChunksFrom(rows, index + 1, size, overlap);
      MakeChunksFromEmpty(rows, index + 1, size, overlap);
      MakeChunksFromStep(rows, index, size, overlap);
      ConcatEmpty(h, t);
      assert NoText(rows, index) <==> TextOf(rows[index]) == [] && NoText(rows, index + 1);
    }
  }

  /** The whole output is empty exactly when no row has text. */
  lemma MakeChunksEmpty(rows: seq<Row>, size: int, overlap: int)
    ensures MakeChunks(rows, size, overlap) == [] <==> NoText(rows, 0)
  {
    MakeChunksFromEmpty(rows, 0, size, overlap);
  }

  /**
   What a consumer can check of a record on its own: its identifier reads
   back as this document's id and a window `[s, e)` with `0 <= s < e <= n`
   and `e - s <= size`, and its text is exactly `text[s:e]`, non-empty.
   */
  predicate WellFormedChunk(c: Chunk, docId: string, text: string, size: int) {
    match ParseChunkId(c.chunkId)
    case None => false
    case Some(key) =>
      && key.docId == docId
      && 0 <= key.start < key.end <= |text|
      && key.end - key.start <= size
      && c.text == text[key.start..key.end]
      && 1 <= |c.text| <= size
  }

  predicate AllWellFormed(cs: seq<Chunk>, docId: string, text: string, size: int) {
    forall k :: 0 <= k < |cs| ==> WellFormedChunk(cs[k], docId, text, size)
  }

  /**
   With `chunk_size >= 1`, every record of a row is a non-empty piece of the
   row's text of at most `size` characters, located by its identifier.
   */
  lemma RowChunksWellFormed(row: Row, index: nat, size: int, overlap: int)
    requires size >= 1
    ensures AllWellFormed(RowChunks(row, index, size, overlap), DocId(row, index), TextOf(row), size)
  {
    var cs := RowChunks(row, index, size, overlap);
    var ws := RowWindows(row, size, overlap);
    WindowsBounded(0, |TextOf(row)|, size, overlap);
    RowChunksIndex(row, index, size, overlap);
    forall k | 0 <= k < |cs|
      ensures WellFormedChunk(cs[k], DocId(row, index), TextOf(row), size)
    {
      ParseChunkIdRoundTrip(DocId(row, index), ws[k].start, ws[k].end);
    }
  }

  /** The record's identifier names a window of `docId` containing offset `p`. */
  predicate ChunkHolds(c: Chunk, docId: string, p: int) {
    match ParseChunkId(c.chunkId)
    case None => false
    case Some(key) => key.docId == docId && key.start <= p < key.end
  }

  /** Some record of `cs` holds offset `p` of document `docId`. */
  predicate CoveredBy(cs: seq<Chunk>, docId: string, p: int) {
    exists k :: 0 <= k < |cs| && ChunkHolds(cs[k], docId, p)
  }

  /**
   With `chunk_size >= 1` and `chunk_overlap >= 0`, every character of a
   row's text lies in one of the row's records.
   */
  lemma RowChunksCoverText(row: Row, index: nat, size: int, overlap: int, p: int)
    requires size >= 1 && overlap >= 0
    requires 0 <= p < |TextOf(row)|
    ensures CoveredBy(RowChunks(row, index, size, overlap), DocId(row, index), p)
  {
    var ws := RowWindows(row, size, overlap);
    var cs := RowChunks(row, index, size, overlap);
    WindowsCover(0, |TextOf(row)|, size, overlap, p);
    RowChunksIndex(row, index, size, overlap);
    var k :| 0 <= k < |ws| && ws[k].start <= p < ws[k].end;
    ParseChunkIdRoundTrip(DocId(row, index), ws[k].start, ws[k].end);
    assert ChunkHolds(cs[k], DocId(row, index), p);
  }

  /** The record's identifier reads back as the document id the record carries. */
  predicate IdNamesOwnDoc(c: Chunk) {
    && ParseChunkId(c.chunkId).Some?
    && ParseChunkId(c.chunkId).value.docId == c.docId
  }

  predicate AllNameOwnDoc(cs: seq<Chunk>) {
    forall k :: 0 <= k < |cs| ==> IdNamesOwnDoc(cs[k])
  }

  /** Every record's identifier starts with its own document id, for any parameters. */
  lemma RowChunkIdsNameDoc(row: Row, index: nat, size: int, overlap: int)
    ensures AllNameOwnDoc(RowChunks(row, index, size, overlap))
  {
    var cs := RowChunks(row, index, size, overlap);
    var ws := RowWindows(row, size, overlap);
    RowChunksIndex(row, index, size, overlap);
    forall k | 0 <= k < |cs|
      ensures IdNamesOwnDoc(cs[k])
    {
      ParseChunkIdRoundTrip(DocId(row, index), ws[k].start, ws[k].end);
    }
  }

  /** No two records share a chunk identifier. */
  predicate DistinctChunkIds(cs: seq<Chunk>) {
    forall j, k :: 0 <= j < k < |cs| ==> cs[j].chunkId != cs[k].chunkId
  }

  /** Within one row no two records share a chunk identifier, for any parameters. */
  lemma RowChunkIdsDistinct(row: Row, index: nat, size: int, overlap: int)
    ensures DistinctChunkIds(RowChunks(row, index, size, overlap))
  {
    var cs := RowChunks(row, index, size, overlap);
    var ws := RowWindows(row, size, overlap);
    WindowsDistinct(0, |TextOf(row)|, size, overlap);
    RowChunksIndex(row, index, size, overlap);
    forall j, k | 0 <= j < k < |cs|
      ensures cs[j].chunkId != cs[k].chunkId
    {
      assert ws[j] != ws[k];
      ChunkIdInjective(DocId(row, index), ws[j].start, ws[j].end, DocId(row, index), ws[k].start, ws[k].end);
    }
  }

  /** Naming its own document survives concatenation. */
  lemma ConcatNameOwnDoc(h: seq<Chunk>, t: seq<Chunk>)
    requires AllNameOwnDoc(h) && AllNameOwnDoc(t)
    ensures AllNameOwnDoc(h + t)
  {
    forall k | 0 <= k < |h + t|
      ensures IdNamesOwnDoc((h + t)[k])
    {
      if k >= |h| {
        assert (h + t)[k] == t[k - |h|];
      }
    }
  }

  /**
   Every record from rows `index..`, whatever the parameters, has an
   identifier that reads back as the record's own document id.
   */
  lemma {:induction false} ChunksNameOwnDoc(rows: seq<Row>, index: nat, size: int, overlap: int)
    requires index <= |rows|
    decreases |rows| - index
    ensures AllNameOwnDoc(MakeChunksFrom(rows, index, size, overlap))
  {
    if index < |rows| {
      var h := RowChunks(rows[index], index, size, overlap);
      var t := MakeChunksFrom(rows, index + 1, size, overlap);
      ChunksNameOwnDoc(rows, index + 1, size, overlap);
      RowChunkIdsNameDoc(rows[index], index, size, overlap);
      ConcatNameOwnDoc(h, t);
    }
  }

  /** No record of `cs` belongs to document `docId`. */
  predicate AvoidsDoc(cs: seq<Chunk>, docId: string) {
    forall k :: 0 <= k < |cs| ==> cs[k].docId != docId
  }

  /** Avoiding a document survives concatenation. */
  lemma ConcatAvoidsDoc(h: seq<Chunk>, t: seq<Chunk>, docId: string)
    requires AvoidsDoc(h, docId) && AvoidsDoc(t, docId)
    ensures AvoidsDoc(h + t, docId)
  {
    forall k | 0 <= k < |h + t|
      ensures (h + t)[k].docId != docId
    {
      if k >= |h| {
        assert (h + t)[k] == t[k - |h|];
      }
    }
  }

  /** A document id used by none of rows `index..` appears on none of their records. */
  lemma {:induction false} ChunksAvoidDocId(rows: seq<Row>, index: nat, size: int, overlap: int, docId: string)
    requires index <= |rows|
    requires forall j :: index <= j < |rows| ==> DocId(rows[j], j) != docId
    decreases |rows| - index
    ensures AvoidsDoc(MakeChunksFrom(rows, index, size, overlap), docId)
  {
    if index < |rows| {
      var h := RowChunks(rows[index], index, size, overlap);
      var t := MakeChunksFrom(rows, index + 1, size, overlap);
      ChunksAvoidDocId(rows, index + 1, size, overlap, docId);
      RowChunksMetadata(rows[index], index, size, overlap);
      assert AvoidsDoc(h, docId);
      ConcatAvoidsDoc(h, t, docId);
    }
  }

  /** No two rows share a document id. */
  predicate DistinctDocIds(rows: seq<Row>) {
    forall i, j :: 0 <= i < j < |rows| ==> DocId(rows[i], i) != DocId(rows[j], j)
  }

  /**
   Two record lists with distinct identifiers stay distinct when joined, as
   long as every identifier names its own document and the documents of the
   first list never occur in the second.
   */
  lemma ConcatDistinct(h: seq<Chunk>, t: seq<Chunk>, docId: string, title: string, url: string)
    requires DistinctChunkIds(h) && DistinctChunkIds(t)
    requires AllNameOwnDoc(h) && AllNameOwnDoc(t)
    requires CarriesMetadata(h, docId, title, url) && AvoidsDoc(t, docId)
    ensures DistinctChunkIds(h + t)
  {
    var cs := h + t;
    forall a, b | 0 <= a < b < |cs|
      ensures cs[a].chunkId != cs[b].chunkId
    {
      if b < |h| {
        assert cs[a] == h[a] && cs[b] == h[b];
      } else if a >= |h| {
        assert cs[a] == t[a - |h|] && cs[b] == t[b - |h|];
      } else {
        assert cs[a] == h[a] && cs[b] == t[b - |h|];
        assert IdNamesOwnDoc(cs[a]) && IdNamesOwnDoc(cs[b]);
      }
    }
  }

  /**
   When the rows' document ids are distinct, so are all chunk identifiers of
   the output, for any parameters.
   */
  lemma {:induction false} ChunkIdsUnique(rows: seq<Row>, index: nat, size: int, overlap: int)
    requires index <= |rows|
    requires DistinctDocIds(rows)
    decreases |rows| - index
    ensures DistinctChunkIds(MakeChunksFrom(rows, index, size, overlap))
  {
    if index < |rows| {
      var row := rows[index];
      var h := RowChunks(row, index, size, overlap);
      var t := MakeChunksFrom(rows, index + 1, size, overlap);
      ChunkIdsUnique(rows, index + 1, size, overlap);
      RowChunkIdsDistinct(row, index, size, overlap);
      RowChunkIdsNameDoc(row, index, size, overlap);
      ChunksNameOwnDoc(rows, index + 1, size, overlap);
      RowChunksMetadata(row, index, size, overlap);
      ChunksAvoidDocId(rows, index + 1, size, overlap, DocId(row, index));
      ConcatDistinct(h, t, DocId(row, index), TitleOf(row), UrlOf(row));
    }
  }

  /** Appending a row appends exactly that row's records (lines 4-5 and 11). */
  lemma {:induction false} AppendRow(rows: seq<Row>, row: Row, index: nat, size: int, overlap: int)
    requires index <= |rows|
    decreases |rows| - index
    ensures MakeChunksFrom(rows + [row], index, size, overlap)
      == MakeChunksFrom(rows, index, size, overlap) + RowChunks(row, |rows|, size, overlap)
  {
    var h := RowChunks(row, |rows|, size, overlap);
    if index < |rows| {
      var r := RowChunks(rows[index], index, size, overlap);
      assert (rows + [row])[index] == rows[index];
      AppendRow(rows, row, index + 1, size, overlap);
      AppendAssoc(r, MakeChunksFrom(rows, index + 1, size, overlap), h);
    } else {
      assert (rows + [row])[index] == row;
      assert MakeChunksFrom(rows + [row], index, size, overlap) == h + [];
    }
  }

  /** The output for `rows` is the output for its prefix followed by the records of the last row. */
  lemma MakeChunksSnoc(rows: seq<Row>, row: Row, size: int, overlap: int)
    ensures MakeChunks(rows + [row], size, overlap) == MakeChunks(rows, size, overlap) + RowChunks(row, |rows|, size, overlap)
  {
    AppendRow(rows, row, 0, size, overlap);
  }

  /**
   With `chunk_size >= 1` and `chunk_overlap >= 0`, a row with non-empty
   text yields at least one record; the first starts at offset 0 and the last
   ends at the end of the text.
   */
  lemma RowChunksSpanWholeText(row: Row, index: nat, size: int, overlap: int)
    requires size >= 1 && overlap >= 0
    requires TextOf(row) != []
    ensures RowChunks(row, index, size, overlap) != []
    ensures ParseChunkId(RowChunks(row, index, size, overlap)[0].chunkId).Some?
    ensures ParseChunkId(RowChunks(row, index, size, overlap)[0].chunkId).value.start == 0
    ensures ParseChunkId(Last(RowChunks(row, index, size, overlap)).chunkId).Some?
    ensures ParseChunkId(Last(RowChunks(row, index, size, overlap)).chunkId).value.end == |TextOf(row)|
  {
    var ws := RowWindows(row, size, overlap);
    var cs := RowChunks(row, index, size, overlap);
    var d, title, url, text := DocId(row, index), TitleOf(row), UrlOf(row), TextOf(row);
    LastWindowEndsAtN(0, |text|, size, overlap);
    RowChunksIndex(row, index, size, overlap);
    assert cs[0] == ChunkOf(d, title, url, text, ws[0]);
    assert Last(cs) == ChunkOf(d, title, url, text, ws[|ws| - 1]);
    ChunkOfNamesWindow(d, title, url, text, ws[0]);
    ChunkOfNamesWindow(d, title, url, text, ws[|ws| - 1]);
  }

  /**
   Re-chunking any record's text as a fresh document with the same
   parameters gives back that text as a single record: every record is
   already at most one window long.
   */
  lemma RechunkIsFixedPoint(row: Row, index: nat, size: int, overlap: int, k: nat, j: nat)
    requires size >= 1
    requires k < |RowChunks(row, index, size, overlap)|
    ensures var c := RowChunks(row, index, size, overlap)[k];
      RowChunks(Row(Some(c.chunkId), Some(c.title), Some(c.url), Some(c.text)), j, size, overlap)
        == [Chunk(c.chunkId, ChunkId(c.chunkId, 0, |c.text|), c.title, c.url, c.text)]
  {
    var c := RowChunks(row, index, size, overlap)[k];
    RowChunksWellFormed(row, index, size, overlap);
    assert WellFormedChunk(c, DocId(row, index), TextOf(row), size);
    ShortTextOneWindow(|c.text|, size, overlap);
    assert Slice(c.text, 0, |c.text|) == c.text;
  }

  lemma ChunksOfCons(docId: string, title: string, url: string, text: string, w: Span, ws: seq<Span>)
    ensures ChunksOf(docId, title, url, text, [w] + ws)
      == [ChunkOf(docId, title, url, text, w)] + ChunksOf(docId, title, url, text, ws)
  {
    MapCons(RecordOf(docId, title, url, text), w, ws);
  }

  /** One turn of the window loop: the first record, then the records of the rest. */
  lemma ChunksStep(docId: string, title: string, url: string, text: string, start: int, end: int, size: int, overlap: int)
    requires start < |text|
    requires end == Min(|text|, start + size)
    ensures ChunksOf(docId, title, url, text, Windows(start, |text|, size, overlap))
      == [Chunk(docId, ChunkId(docId, start, end), title, url, Slice(text, start, end))]
        + (if end == |text| then [] else ChunksOf(docId, title, url, text, Windows(Max(end - overlap, start + 1), |text|, size, overlap)))
  {
    var rest := if end == |text| then [] else Windows(Max(end - overlap, start + 1), |text|, size, overlap);
    assert Windows(start, |text|, size, overlap) == [Span(start, end)] + rest;
    ChunksOfCons(docId, title, url, text, Span(start, end), rest);
  }

  /**
   The window loop of lines 8-13 for one document: appends one record per
   window, breaks once a window reaches `n`, and otherwise advances to
   `max(end - overlap, start + 1)`.
   */
  method WindowLoop(docId: string, title: string, url: string, text: string, size: int, overlap: int)
    returns (cs: seq<Chunk>)
    ensures cs == ChunksOf(docId, title, url, text, Windows(0, |text|, size, overlap))
  {
    ghost var total := ChunksOf(docId, title, url, text, Windows(0, |text|, size, overlap));
    cs := [];
    var start, n := 0, |text|;
    while start < n
      invariant cs + ChunksOf(docId, title, url, text, Windows(start, n, size, overlap)) == total
      decreases n - start
    {
      var end := Min(n, start + size);
      var c := Chunk(docId, ChunkId(docId, start, end), title, url, Slice(text, start, end));
      ghost var later := if end == n then [] else ChunksOf(docId, title, url, text, Windows(Max(end - overlap, start + 1), n, size, overlap));
      ChunksStep(docId, title, url, text, start, end, size, overlap);
      AppendAssoc(cs, [c], later);
      cs := cs + [c];
      if end == n {
        assert cs + later == cs;
        break;
      }
      start := Max(end - overlap, start + 1);
    }
  }

  /** The records of row `i` with non-empty text are those of its windows. */
  lemma RowChunksOfText(row: Row, i: nat, size: int, overlap: int)
    requires TextOf(row) != []
    ensures RowChunks(row, i, size, overlap)
      == ChunksOf(DocId(row, i), TitleOf(row), UrlOf(row), TextOf(row), Windows(0, |TextOf(row)|, size, overlap))
  {
  }

  /** One turn of the row loop: row `i`'s records, then those of the rows after it. */
  lemma MakeChunksFromStep(rows: seq<Row>, i: nat, size: int, overlap: int)
    requires i < |rows|
    ensures MakeChunksFrom(rows, i, size, overlap)
      == RowChunks(rows[i], i, size, overlap) + MakeChunksFrom(rows, i + 1, size, overlap)
  {
  }

  /**
   The row loop of lines 4-14: rows in order, empty texts skipped, each
   row's records appended. It computes exactly `MakeChunks`.
   */
  method MakeChunksLoop(rows: seq<Row>, size: int, overlap: int) returns (out: seq<Chunk>)
    ensures out == MakeChunks(rows, size, overlap)
  {
    out := [];
    var i := 0;
    while i < |rows|
      invariant 0 <= i <= |rows|
      invariant out + MakeChunksFrom(rows, i, size, overlap) == MakeChunks(rows, size, overlap)
    {
      var row := rows[i];
      var text := TextOf(row);
      ghost var here := RowChunks(row, i, size, overlap);
      ghost var rest := MakeChunksFrom(rows, i + 1, size, overlap);
      MakeChunksFromStep(rows, i, size, overlap);
      if text != [] {
        var cs := WindowLoop(DocId(row, i), TitleOf(row), UrlOf(row), text, size, overlap);
        RowChunksOfText(row, i, size, overlap);
        assert cs == here;
        AppendAssoc(out, cs, rest);
        out := out + cs;
      } else {
        assert here == [];
        SkipEmpty(out, here, rest);
      }
      i := i + 1;
    }
  }
}
