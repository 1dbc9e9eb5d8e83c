/**
 A closed form of the sliding-window loop, independent of its step-by-step
 definition: the windows advance by a fixed stride, so window `k` is
 `[k * stride, min(n, k * stride + size))` for any parameters, and with
 `size >= 1` and `overlap >= 0` their number is a ceiling division.
 */
module WindowCount {
  import opened SlidingWindow

  /** Distance between consecutive starts: `size - overlap`, or 1 once the `start + 1` floor wins. */
  function Stride(size: int, overlap: int): (d: int)
    ensures d >= 1
    ensures size >= 1 && overlap >= 0 ==> d <= size
  {
    Max(size - overlap, 1)
  }

  /** Ceiling of `x / d`. */
  function CeilDiv(x: nat, d: int): nat
    requires d >= 1
  {
    (x + d - 1) / d
  }

  /** Number of windows over `m >= 1` characters. */
  function Count(m: int, size: int, overlap: int): int
    requires m >= 1 && size >= 1 && overlap >= 0
  {
    if m <= size then 1 else 1 + CeilDiv(m - size, Stride(size, overlap))
  }

  /** A multiple of `d` strictly between `-d` and `d` is zero. */
  lemma SmallMultipleIsZero(x: int, d: int)
    requires d >= 1
    requires -d < x * d < d
    ensures x == 0
  {
  }

  /** Quotient and remainder are determined by Euclidean division. */
  lemma DivUnique(a: int, d: int, q: int, r: int)
    requires d >= 1
    requires 0 <= r < d
    requires a == q * d + r
    ensures a / d == q
  {
    var q', r' := a / d, a % d;
    assert (q - q') * d == r' - r;
    SmallMultipleIsZero(q - q', d);
  }

  lemma DivAddDivisor(a: nat, d: int)
    requires d >= 1
    ensures (a + d) / d == a / d + 1
  {
    var q, r := a / d, a % d;
    assert a + d == (q + 1) * d + r;
    DivUnique(a + d, d, q + 1, r);
  }

  lemma CeilDivStep(x: nat, d: int)
    requires d >= 1
    ensures CeilDiv(x + d, d) == CeilDiv(x, d) + 1
  {
    DivAddDivisor(x + d - 1, d);
  }

  lemma CeilDivOfSmall(x: int, d: int)
    requires 1 <= x <= d
    ensures CeilDiv(x, d) == 1
  {
    var a := x + d - 1;
    assert d <= a < 2 * d;
    DivAddDivisor(a - d, d);
  }

  /** The loop's advance (line 13) is exactly the stride once a full window has been emitted. */
  lemma NextStartIsStride(start: int, size: int, overlap: int)
    ensures NextStart(Span(start, start + size), overlap) == start + Stride(size, overlap)
  {
  }

  /** Window `k` of the closed form over `[start, n)`. */
  function StrideWindow(start: int, k: int, n: int, size: int, d: int): Span {
    Span(start + k * d, Min(n, start + k * d + size))
  }

  lemma StrideWindowShift(start: int, k: int, n: int, size: int, d: int)
    ensures StrideWindow(start + d, k - 1, n, size, d) == StrideWindow(start, k, n, size, d)
  {
    assert start + d + (k - 1) * d == start + k * d;
  }

  /** Over `[start, n)` the loop emits `Count(n - start)` windows. */
  lemma {:induction false} WindowsCount(start: int, n: int, size: int, overlap: int)
    requires start < n
    requires size >= 1 && overlap >= 0
    decreases n - start
    ensures |Windows(start, n, size, overlap)| == Count(n - start, size, overlap)
  {
    var d := Stride(size, overlap);
    var m := n - start;
    if m > size {
      NextStartIsStride(start, size, overlap);
      WindowsCount(start + d, n, size, overlap);
      if m - d <= size {
        CeilDivOfSmall(m - size, d);
      } else {
        CeilDivStep(m - d - size, d);
      }
    }
  }

  /**
   Window `k` starts at `start + k * stride` and ends at `n` or `size` later,
   whichever comes first.
   */
  lemma {:induction false} ClosedForm(start: int, n: int, size: int, overlap: int)
    decreases n - start
    ensures forall k :: 0 <= k < |Windows(start, n, size, overlap)| ==>
      Windows(start, n, size, overlap)[k] == StrideWindow(start, k, n, size, Stride(size, overlap))
  {
    var d := Stride(size, overlap);
    var r := Windows(start, n, size, overlap);
    if start < n && n - start > size {
      NextStartIsStride(start, size, overlap);
      var t := Windows(start + d, n, size, overlap);
      assert r == [Span(start, start + size)] + t;
      ClosedForm(start + d, n, size, overlap);
      forall k | 1 <= k < |r|
        ensures r[k] == StrideWindow(start, k, n, size, d)
      {
        assert r[k] == t[k - 1];
        StrideWindowShift(start, k, n, size, d);
      }
    }
  }

  /**
   For `0 <= overlap < size` and a text longer than the overlap, the loop
   emits `ceil((n - overlap) / (size - overlap))` windows.
   */
  lemma CountFormula(n: int, size: int, overlap: int)
    requires 0 <= overlap < size && overlap < n
    ensures |Windows(0, n, size, overlap)| == CeilDiv(n - overlap, size - overlap)
  {
    WindowsCount(0, n, size, overlap);
    if n <= size {
      CeilDivOfSmall(n - overlap, size - overlap);
    } else {
      CeilDivStep(n - size, size - overlap);
    }
  }

  /**
   Overlap equal to size on 250 characters: 151 windows `[k, k + 100)`, the
   window sliding one character at a time.
   */
  lemma OverlapEqualsSizeExample()
    ensures |Windows(0, 250, 100, 100)| == 151
    ensures forall k :: 0 <= k < 151 ==> Windows(0, 250, 100, 100)[k] == Span(k, k + 100)
  {
    WindowsCount(0, 250, 100, 100);
    assert Count(250, 100, 100) == 151;
    ClosedForm(0, 250, 100, 100);
  }
}
