/**
 Generic facts about sequences used by the chunker's proofs: mapping a
 function over a sequence, the last element, and regrouping concatenations.
 */
module Seqs {

  /** `[f(s[0]), f(s[1]), ...]`. */
  function Map<A, B>(f: A -> B, s: seq<A>): (r: seq<B>)
    decreases |s|
    ensures |r| == |s|
  {
    if s == [] then [] else [f(s[0])] + Map(f, s[1..])
  }

  /** Element `k` of a mapped sequence is `f` of element `k`. */
  lemma {:induction false} MapIndex<A, B>(f: A -> B, s: seq<A>)
    decreases |s|
    ensures forall k :: 0 <= k < |s| ==> Map(f, s)[k] == f(s[k])
  {
    if s != [] {
      var r, t := Map(f, s), Map(f, s[1..]);
      MapIndex(f, s[1..]);
      forall k | 1 <= k < |s|
        ensures r[k] == f(s[k])
      {
        assert r[k] == t[k - 1];
      }
    }
  }

  /** Mapping over `[x] + s` maps `x` first, then `s`. */
  lemma MapCons<A, B>(f: A -> B, x: A, s: seq<A>)
    ensures Map(f, [x] + s) == [f(x)] + Map(f, s)
  {
    assert ([x] + s)[1..] == s;
  }

  function Last<T>(s: seq<T>): T
    requires s != []
  {
    s[|s| - 1]
  }

  /** A concatenation is empty exactly when both parts are. */
  lemma ConcatEmpty<T>(a: seq<T>, b: seq<T>)
    ensures a + b == [] <==> a == [] && b == []
  {
    if a != [] {
      assert (a + b)[0] == a[0];
    }
  }

  /** An empty middle part drops out of a concatenation. */
  lemma SkipEmpty<T>(a: seq<T>, b: seq<T>, c: seq<T>)
    requires b == []
    ensures a + (b + c) == a + c
  {
  }

  lemma AppendAssoc<T>(a: seq<T>, b: seq<T>, c: seq<T>)
    ensures (a + b) + c == a + (b + c)
  {
  }
}
