/**
 Worked examples of the chunker on small tables, stated as lemmas.
 */
module Scenarios {
  import opened Optional
  import opened SlidingWindow
  import opened ChunkIds
  import opened PySlice
  import opened Chunker

  /** A text of `n` copies of one character. */
  function Text(n: nat): (s: string)
    ensures |s| == n
  {
    seq(n, _ => 'a')
  }

  /** 1000 characters with size 800 and overlap 200: `[0, 800)` then `[600, 1000)`. */
  lemma ThousandCharacters()
    ensures Windows(0, 1000, 800, 200) == [Span(0, 800), Span(600, 1000)]
  {
  }

  /** 500 characters with size 800: one window `[0, 500)`. */
  lemma FiveHundredCharacters()
    ensures Windows(0, 500, 800, 200) == [Span(0, 500)]
  {
  }

  /** A row with empty text, or from a table without a text column, contributes nothing. */
  lemma EmptyTextRows()
    ensures MakeChunks([Row(Some("a"), None, None, Some("")), Row(None, None, None, None)], 800, 200) == []
  {
    assert MakeChunksFrom([Row(Some("a"), None, None, Some("")), Row(None, None, None, None)], 2, 800, 200) == [];
  }

  /**
   A row at position 3 without `id`, `title` and `url` cells: its id is "3"
   and the title and url are empty.
   */
  lemma MissingMetadata()
    ensures RowChunks(Row(None, None, None, Some(Text(500))), 3, 800, 200)
      == [Chunk("3", "3_0_500", "", "", Text(500))]
  {
    var row := Row(None, None, None, Some(Text(500)));
    assert DocId(row, 3) == "3";
    assert RowWindows(row, 800, 200) == [Span(0, 500)];
    assert ChunkId("3", 0, 500) == "3_0_500";
    assert Slice(Text(500), 0, 500) == Text(500);
  }

  /** The identifier of window `[0, 800)` of document `d`. */
  lemma FirstDefaultId()
    ensures ChunkId("d", 0, 800) == "d_0_800"
  {
  }

  /** The identifier of window `[600, 1000)` of document `d`. */
  lemma SecondDefaultId()
    ensures ChunkId("d", 600, 1000) == "d_600_1000"
  {
  }

  /** The records of document `d` over the windows `[0, 800)` and `[600, 1000)`. */
  lemma DefaultRecords()
    ensures ChunksOf("d", "T", "U", Text(1000), [Span(0, 800), Span(600, 1000)])
      == [Chunk("d", "d_0_800", "T", "U", Text(1000)[0..800]), Chunk("d", "d_600_1000", "T", "U", Text(1000)[600..1000])]
  {
    FirstDefaultId();
    SecondDefaultId();
    ChunksOfIndex("d", "T", "U", Text(1000), [Span(0, 800), Span(600, 1000)]);
  }

  /** A two-row table with the default parameters, the second row empty. */
  lemma DefaultParameters()
    ensures MakeChunks([Row(Some("d"), Some("T"), Some("U"), Some(Text(1000))), Row(None, None, None, Some(""))],
      DefaultChunkSize, DefaultChunkOverlap)
      == [Chunk("d", "d_0_800", "T", "U", Text(1000)[0..800]), Chunk("d", "d_600_1000", "T", "U", Text(1000)[600..1000])]
  {
    var rows := [Row(Some("d"), Some("T"), Some("U"), Some(Text(1000))), Row(None, None, None, Some(""))];
    var expected := [Chunk("d", "d_0_800", "T", "U", Text(1000)[0..800]), Chunk("d", "d_600_1000", "T", "U", Text(1000)[600..1000])];
    ThousandCharacters();
    DefaultRecords();
    assert RowChunks(rows[0], 0, 800, 200) == expected;
    assert MakeChunksFrom(rows, 1, 800, 200) == [];
    MakeChunksFromStep(rows, 0, 800, 200);
    assert expected + [] == expected;
  }

  /**
   A negative overlap pushes the next start past the end of the previous
   window: with size 4 and overlap -8 on 10 characters the loop stops after
   `[0, 4)`, and offsets 4 to 9 appear in no window.
   */
  lemma NegativeOverlapDropsTail()
    ensures Windows(0, 10, 4, -8) == [Span(0, 4)]
    ensures !Covers(Windows(0, 10, 4, -8), 4)
  {
    assert Windows(0, 10, 4, -8) == [Span(0, 4)];
  }
}
