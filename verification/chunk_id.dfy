/**
 Chunk identifiers `{doc_id}_{start}_{end}` (src/chunk/make_chunks.py:11) and
 a reader for them. The reader splits at the LAST two underscores: the two
 offsets are rendered by `str(int)`, which never writes `_`, so the split is
 unambiguous even when the document id itself contains underscores.
 */
module ChunkIds {
  import opened Optional
  import opened Decimal

  datatype ChunkKey = ChunkKey(docId: string, start: int, end: int)

  /** The identifier the chunker writes for window `[start, end)` of `docId`. */
  function ChunkId(docId: string, start: int, end: int): string {
    docId + "_" + IntToString(start) + "_" + IntToString(end)
  }

  /** Position of the last occurrence of `c` in `s`, if any. */
  function LastIndexOf(s: string, c: char): (r: Option<nat>)
    decreases |s|
    ensures r.None? <==> c !in s
    ensures r.Some? ==> r.value < |s| && s[r.value] == c && c !in s[r.value + 1..]
  {
    if |s| == 0 then None
    else if s[|s| - 1] == c then Some(|s| - 1)
    else LastIndexOf(s[..|s| - 1], c)
  }

  /** Cuts `s` at the last occurrence of `c` into what comes before and after it. */
  function SplitLast(s: string, c: char): Option<(string, string)> {
    match LastIndexOf(s, c)
    case None => None
    case Some(j) => Some((s[..j], s[j + 1..]))
  }

  /** Recovers document id and offsets from a chunk identifier. */
  function ParseChunkId(id: string): Option<ChunkKey> {
    match SplitLast(id, '_')
    case None => None
    case Some((head, endText)) =>
      match SplitLast(head, '_')
      case None => None
      case Some((docId, startText)) => Some(ChunkKey(docId, ParseInt(startText), ParseInt(endText)))
  }

  /** The last `c` of `a + [c] + b` is the one between `a` and `b` when `b` has none. */
  lemma {:induction false} LastIndexOfSplit(a: string, c: char, b: string)
    requires c !in b
    decreases |b|
    ensures LastIndexOf(a + [c] + b, c) == Some(|a|)
  {
    var s := a + [c] + b;
    if b != [] {
      var b' := b[..|b| - 1];
      assert s[|s| - 1] == b[|b| - 1];
      assert s[..|s| - 1] == a + [c] + b';
      LastIndexOfSplit(a, c, b');
    }
  }

  /** Splitting `a + [c] + b` at its last `c` gives back `a` and `b` when `b` has no `c`. */
  lemma SplitLastAround(a: string, c: char, b: string)
    requires c !in b
    ensures SplitLast(a + [c] + b, c) == Some((a, b))
  {
    LastIndexOfSplit(a, c, b);
    assert (a + [c] + b)[..|a|] == a;
    assert (a + [c] + b)[|a| + 1..] == b;
  }

  /** Reading back a written identifier gives the document id and offsets. */
  lemma ParseChunkIdRoundTrip(docId: string, start: int, end: int)
    ensures ParseChunkId(ChunkId(docId, start, end)) == Some(ChunkKey(docId, start, end))
  {
    var s := IntToString(start);
    var e := IntToString(end);
    var head := docId + ['_'] + s;
    NoUnderscore(start);
    NoUnderscore(end);
    assert ChunkId(docId, start, end) == head + ['_'] + e;
    SplitLastAround(head, '_', e);
    SplitLastAround(docId, '_', s);
    ParseIntRoundTrip(start);
    ParseIntRoundTrip(end);
  }

  /**
   Two chunk identifiers are equal exactly when document id, start and end
   all agree.
   */
  lemma ChunkIdInjective(d1: string, s1: int, e1: int, d2: string, s2: int, e2: int)
    ensures ChunkId(d1, s1, e1) == ChunkId(d2, s2, e2) <==> d1 == d2 && s1 == s2 && e1 == e2
  {
    ParseChunkIdRoundTrip(d1, s1, e1);
    ParseChunkIdRoundTrip(d2, s2, e2);
  }
}
