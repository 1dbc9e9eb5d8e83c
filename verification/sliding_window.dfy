/**
 The sliding-window loop of `make_chunks` (src/chunk/make_chunks.py:8-13) on
 offsets alone: from `start`, each step takes the window
 `[start, min(n, start + size))`, stops when that window reaches `n`, and
 otherwise moves to `max(end - overlap, start + 1)`. The function is total for
 every integer `size` and `overlap`: the `start + 1` floor makes `n - start`
 shrink on every step.
 */
module SlidingWindow {

  /** A half-open window `[start, end)` of character offsets. */
  datatype Span = Span(start: int, end: int)

  function Min(a: int, b: int): int { if a <= b then a else b }

  function Max(a: int, b: int): int { if a >= b then a else b }

  /** Where the loop goes after emitting the window `w` (line 13). */
  function NextStart(w: Span, overlap: int): (r: int)
    ensures r > w.start
  {
    Max(w.end - overlap, w.start + 1)
  }

  /** The windows the loop emits when it is entered with `start`. */
  function Windows(start: int, n: int, size: int, overlap: int): (r: seq<Span>)
    decreases n - start
    ensures start >= n <==> r == []
    ensures r != [] ==> r[0].start == start
    ensures forall k :: 0 <= k < |r| ==> start <= r[k].start < n
    ensures forall k :: 0 <= k < |r| ==> r[k].end <= n
  {
    if start >= n then []
    else
      var w := Span(start, Min(n, start + size));
      if w.end == n then [w]
      else [w] + Windows(NextStart(w, overlap), n, size, overlap)
  }

  /** Every window but the last is a full `size` wide and stops short of `n`. */
  predicate NonFinalFull(r: seq<Span>, n: int, size: int) {
    forall k :: 0 <= k < |r| - 1 ==> r[k].end == r[k].start + size && r[k].end < n
  }

  /** Every window is a non-empty interval inside `[0, n)` no wider than `size`. */
  predicate Bounded(r: seq<Span>, n: int, size: int) {
    forall k :: 0 <= k < |r| ==> 0 <= r[k].start < r[k].end <= n && r[k].end - r[k].start <= size
  }

  /** Window starts strictly increase along the whole list. */
  predicate StrictlySorted(r: seq<Span>) {
    forall j, k :: 0 <= j < k < |r| ==> r[j].start < r[k].start
  }

  /** Consecutive windows share exactly `overlap` characters. */
  predicate ExactOverlap(r: seq<Span>, overlap: int) {
    forall k :: 0 <= k < |r| - 1 ==> r[k + 1].start == r[k].end - overlap
  }

  /** Each window starts one character after the previous one. */
  predicate StepsByOne(r: seq<Span>) {
    forall k :: 0 <= k < |r| - 1 ==> r[k + 1].start == r[k].start + 1
  }

  /** No window starts after the previous one has ended. */
  predicate Gapless(r: seq<Span>) {
    forall k :: 0 <= k < |r| - 1 ==> r[k + 1].start <= r[k].end
  }

  /** Some window contains offset `p`. */
  predicate Covers(r: seq<Span>, p: int) {
    exists k :: 0 <= k < |r| && r[k].start <= p < r[k].end
  }

  /** Holds for every integer `size` and `overlap` (line 10 and the loop exit at line 12). */
  lemma {:induction false} NonFinalWindowsFull(start: int, n: int, size: int, overlap: int)
    decreases n - start
    ensures NonFinalFull(Windows(start, n, size, overlap), n, size)
  {
    var w := Span(start, Min(n, start + size));
    if start < n && w.end != n {
      var r, t := Windows(start, n, size, overlap), Windows(NextStart(w, overlap), n, size, overlap);
      assert r == [w] + t;
      NonFinalWindowsFull(NextStart(w, overlap), n, size, overlap);
      forall k | 1 <= k < |r| - 1
        ensures r[k].end == r[k].start + size && r[k].end < n
      {
        assert r[k] == t[k - 1];
      }
    }
  }

  /** With a positive size every window is non-empty, in range and at most `size` wide. */
  lemma {:induction false} WindowsBounded(start: int, n: int, size: int, overlap: int)
    requires 0 <= start
    requires size >= 1
    decreases n - start
    ensures Bounded(Windows(start, n, size, overlap), n, size)
  {
    var w := Span(start, Min(n, start + size));
    if start < n && w.end != n {
      var r, t := Windows(start, n, size, overlap), Windows(NextStart(w, overlap), n, size, overlap);
      assert r == [w] + t;
      WindowsBounded(NextStart(w, overlap), n, size, overlap);
      forall k | 1 <= k < |r|
        ensures 0 <= r[k].start < r[k].end <= n && r[k].end - r[k].start <= size
      {
        assert r[k] == t[k - 1];
      }
    }
  }

  /**
   With a positive size and a non-negative overlap the loop never runs past
   `n` without emitting a window that ends there: the last window ends at `n`.
   */
  lemma {:induction false} LastWindowEndsAtN(start: int, n: int, size: int, overlap: int)
    requires start < n
    requires size >= 1 && overlap >= 0
    decreases n - start
    ensures Windows(start, n, size, overlap) != []
    ensures Windows(start, n, size, overlap)[|Windows(start, n, size, overlap)| - 1].end == n
  {
    var w := Span(start, Min(n, start + size));
    if w.end != n {
      LastWindowEndsAtN(NextStart(w, overlap), n, size, overlap);
    }
  }

  /** Starts strictly increase along the whole list, for every `size` and `overlap`. */
  lemma {:induction false} StartsStrictlyIncreasing(start: int, n: int, size: int, overlap: int)
    decreases n - start
    ensures StrictlySorted(Windows(start, n, size, overlap))
  {
    var w := Span(start, Min(n, start + size));
    if start < n && w.end != n {
      var r, t := Windows(start, n, size, overlap), Windows(NextStart(w, overlap), n, size, overlap);
      assert r == [w] + t;
      StartsStrictlyIncreasing(NextStart(w, overlap), n, size, overlap);
      forall j, k | 0 <= j < k < |r|
        ensures r[j].start < r[k].start
      {
        assert r[k] == t[k - 1];
        if j > 0 {
          assert r[j] == t[j - 1];
        }
      }
    }
  }

  /** Window ends never move backwards. */
  predicate EndsNonDecreasing(r: seq<Span>) {
    forall j, k :: 0 <= j < k < |r| ==> r[j].end <= r[k].end
  }

  /** Ends never decrease along the list, for every `size` and `overlap`. */
  lemma {:induction false} EndsMonotone(start: int, n: int, size: int, overlap: int)
    decreases n - start
    ensures EndsNonDecreasing(Windows(start, n, size, overlap))
  {
    var w := Span(start, Min(n, start + size));
    if start < n && w.end != n {
      var r, t := Windows(start, n, size, overlap), Windows(NextStart(w, overlap), n, size, overlap);
      assert r == [w] + t;
      EndsMonotone(NextStart(w, overlap), n, size, overlap);
      forall j, k | 0 <= j < k < |r|
        ensures r[j].end <= r[k].end
      {
        assert r[k] == t[k - 1];
        if j > 0 {
          assert r[j] == t[j - 1];
        } else {
          assert t[0].start == NextStart(w, overlap);
        }
      }
    }
  }

  /** Distinct positions hold distinct windows. */
  predicate DistinctSpans(r: seq<Span>) {
    forall j, k :: 0 <= j < |r| && 0 <= k < |r| && j != k ==> r[j] != r[k]
  }

  /** No window is emitted twice, for every `size` and `overlap`. */
  lemma WindowsDistinct(start: int, n: int, size: int, overlap: int)
    ensures DistinctSpans(Windows(start, n, size, overlap))
  {
    StartsStrictlyIncreasing(start, n, size, overlap);
    var r := Windows(start, n, size, overlap);
    forall j, k | 0 <= j < |r| && 0 <= k < |r| && j != k
      ensures r[j] != r[k]
    {
      if j < k {
        assert r[j].start < r[k].start;
      } else {
        assert r[k].start < r[j].start;
      }
    }
  }

  /**
   When `0 <= overlap < size`, the loop steps back exactly `overlap`
   characters from the end of the previous window.
   */
  lemma {:induction false} OverlapIsExact(start: int, n: int, size: int, overlap: int)
    requires 0 <= overlap < size
    decreases n - start
    ensures ExactOverlap(Windows(start, n, size, overlap), overlap)
  {
    var w := Span(start, Min(n, start + size));
    if start < n && w.end != n {
      var r, t := Windows(start, n, size, overlap), Windows(NextStart(w, overlap), n, size, overlap);
      assert r == [w] + t;
      OverlapIsExact(NextStart(w, overlap), n, size, overlap);
      forall k | 1 <= k < |r| - 1
        ensures r[k + 1].start == r[k].end - overlap
      {
        assert r[k + 1] == t[k];
        assert r[k] == t[k - 1];
      }
    }
  }

  /**
   When `overlap >= size`, `end - overlap` never gets past the old start,
   and the `start + 1` floor decides: the window slides by one character.
   */
  lemma {:induction false} LargeOverlapStepsByOne(start: int, n: int, size: int, overlap: int)
    requires size <= overlap
    decreases n - start
    ensures StepsByOne(Windows(start, n, size, overlap))
  {
    var w := Span(start, Min(n, start + size));
    if start < n && w.end != n {
      var r, t := Windows(start, n, size, overlap), Windows(NextStart(w, overlap), n, size, overlap);
      assert r == [w] + t;
      LargeOverlapStepsByOne(NextStart(w, overlap), n, size, overlap);
      forall k | 1 <= k < |r| - 1
        ensures r[k + 1].start == r[k].start + 1
      {
        assert r[k + 1] == t[k];
        assert r[k] == t[k - 1];
      }
    }
  }

  /** With a positive size and a non-negative overlap no offset is skipped between windows. */
  lemma {:induction false} NoGaps(start: int, n: int, size: int, overlap: int)
    requires size >= 1 && overlap >= 0
    decreases n - start
    ensures Gapless(Windows(start, n, size, overlap))
  {
    var w := Span(start, Min(n, start + size));
    if start < n && w.end != n {
      var r, t := Windows(start, n, size, overlap), Windows(NextStart(w, overlap), n, size, overlap);
      assert r == [w] + t;
      NoGaps(NextStart(w, overlap), n, size, overlap);
      forall k | 1 <= k < |r| - 1
        ensures r[k + 1].start <= r[k].end
      {
        assert r[k + 1] == t[k];
        assert r[k] == t[k - 1];
      }
    }
  }

  /**
   With a positive size and a non-negative overlap, the windows together
   cover every offset from `start` up to `n`.
   */
  lemma {:induction false} WindowsCover(start: int, n: int, size: int, overlap: int, p: int)
    requires size >= 1 && overlap >= 0
    requires start <= p < n
    decreases n - start
    ensures Covers(Windows(start, n, size, overlap), p)
  {
    var r := Windows(start, n, size, overlap);
    var w := Span(start, Min(n, start + size));
    if p < w.end {
      assert r[0] == w;
    } else {
      var next := NextStart(w, overlap);
      var t := Windows(next, n, size, overlap);
      assert r == [w] + t;
      WindowsCover(next, n, size, overlap, p);
      var k :| 0 <= k < |t| && t[k].start <= p < t[k].end;
      assert r[k + 1] == t[k];
    }
  }

  /** A text no longer than one window gives exactly one window, spanning it. */
  lemma ShortTextOneWindow(n: int, size: int, overlap: int)
    requires 1 <= n <= size
    ensures Windows(0, n, size, overlap) == [Span(0, n)]
  {
  }
}
