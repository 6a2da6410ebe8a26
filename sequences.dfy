/**
 * `Array.prototype.filter` over sequences, and what it means for one list to be
 * an order-preserving subsequence of another.
 */
module Sequences {

  /** `idx` picks the elements of `r` out of `s` at strictly increasing positions. */
  ghost predicate Embedding<T>(idx: seq<nat>, r: seq<T>, s: seq<T>) {
    && |idx| == |r|
    && (forall k :: 0 <= k < |idx| ==> idx[k] < |s| && r[k] == s[idx[k]])
    && (forall j, k :: 0 <= j < k < |idx| ==> idx[j] < idx[k])
  }

  /** `r` is `s` with some elements dropped and the rest in their original order. */
  ghost predicate IsSubsequence<T>(r: seq<T>, s: seq<T>) {
    exists idx :: Embedding(idx, r, s)
  }

  /** `s.filter(p)`: the elements of `s` that satisfy `p`, in order. */
  function Filter<T>(s: seq<T>, p: T -> bool): (r: seq<T>)
    ensures |r| <= |s|
  {
    if s == [] then []
    else if p(s[0]) then [s[0]] + Filter(s[1..], p) else Filter(s[1..], p)
  }

  /** An element is in the filtered list exactly when it is in the list and passes the test. */
  lemma {:induction false} FilterMembers<T(!new)>(s: seq<T>, p: T -> bool)
    ensures forall x :: x in Filter(s, p) <==> x in s && p(x)
  {
    if s != [] {
      FilterMembers(s[1..], p);
      assert forall x :: x in s <==> x == s[0] || x in s[1..];
    }
  }

  /** Every element that passes keeps all of its occurrences; every other element has none. */
  lemma {:induction false} FilterCounts<T(!new)>(s: seq<T>, p: T -> bool)
    ensures forall x :: multiset(Filter(s, p))[x] == if p(x) then multiset(s)[x] else 0
  {
    if s != [] {
      FilterCounts(s[1..], p);
      assert s == [s[0]] + s[1..];
      assert multiset(s) == multiset{s[0]} + multiset(s[1..]);
    }
  }

  /** Filtering a list with a given head: the head is kept exactly when it passes. */
  lemma FilterCons<T(!new)>(x: T, s: seq<T>, p: T -> bool)
    ensures Filter([x] + s, p) == if p(x) then [x] + Filter(s, p) else Filter(s, p)
  {
    assert ([x] + s)[1..] == s;
  }

  /** Filtering never reorders, duplicates or invents elements. */
  lemma {:induction false} FilterIsSubsequence<T(!new)>(s: seq<T>, p: T -> bool)
    ensures IsSubsequence(Filter(s, p), s)
  {
    if s == [] {
      assert Embedding([], Filter(s, p), s);
    } else {
      var rest := Filter(s[1..], p);
      FilterIsSubsequence(s[1..], p);
      var idx :| Embedding(idx, rest, s[1..]);
      var shifted := EmbeddingInTail(idx, rest, s);
      if p(s[0]) {
        var idx0 := EmbeddingCons(shifted, rest, s);
        assert Embedding(idx0, Filter(s, p), s);
      } else {
        assert Embedding(shifted, Filter(s, p), s);
      }
    }
  }

  /** An embedding into the tail of `s` is one into `s`, one position further on. */
  lemma EmbeddingInTail<T>(idx: seq<nat>, r: seq<T>, s: seq<T>) returns (shifted: seq<nat>)
    requires s != [] && Embedding(idx, r, s[1..])
    ensures Embedding(shifted, r, s)
    ensures forall k :: 0 <= k < |shifted| ==> shifted[k] > 0
  {
    shifted := seq(|idx|, k requires 0 <= k < |idx| => idx[k] + 1);
    forall k | 0 <= k < |shifted| ensures shifted[k] < |s| && r[k] == s[shifted[k]] {
      assert r[k] == s[1..][idx[k]];
    }
  }

  /** Keeping the head of `s` in front of an embedding that avoids position 0. */
  lemma EmbeddingCons<T>(idx: seq<nat>, r: seq<T>, s: seq<T>) returns (idx0: seq<nat>)
    requires s != [] && Embedding(idx, r, s)
    requires forall k :: 0 <= k < |idx| ==> idx[k] > 0
    ensures Embedding(idx0, [s[0]] + r, s)
  {
    idx0 := [0] + idx;
    forall k | 0 < k < |idx0| ensures idx0[k] < |s| && ([s[0]] + r)[k] == s[idx0[k]] {
      assert idx0[k] == idx[k - 1];
    }
  }

  /** Two tests that agree on every element filter every list alike. */
  lemma {:induction false} FilterExtensional<T(!new)>(s: seq<T>, p: T -> bool, q: T -> bool)
    requires forall x :: p(x) == q(x)
    ensures Filter(s, p) == Filter(s, q)
  {
    if s != [] {
      FilterExtensional(s[1..], p, q);
    }
  }

  /** A test every element passes keeps the whole list. */
  lemma {:induction false} FilterKeepsAll<T(!new)>(s: seq<T>, p: T -> bool)
    requires forall k :: 0 <= k < |s| ==> p(s[k])
    ensures Filter(s, p) == s
  {
    if s != [] {
      FilterKeepsAll(s[1..], p);
    }
  }
}
