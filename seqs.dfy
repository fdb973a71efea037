/** Order-preserving selection on sequences, the `Array.prototype.filter` of the source. */
module Seqs {

  /** The elements of `s` that satisfy `p`, in their original order. */
  function Filter<T>(p: T -> bool, s: seq<T>): (r: seq<T>)
    ensures |r| <= |s|
    ensures forall x :: x in r ==> x in s && p(x)
  {
    if s == [] then []
    else Filter(p, s[..|s| - 1]) + (if p(s[|s| - 1]) then [s[|s| - 1]] else [])
  }

  /** Filtering distributes over concatenation: the relative order of survivors is kept. */
  lemma {:induction false} FilterAppend<T>(p: T -> bool, a: seq<T>, b: seq<T>)
    ensures Filter(p, a + b) == Filter(p, a) + Filter(p, b)
    decreases |b|
  {
    if b == [] {
      assert a + b == a;
    } else {
      var b' := b[..|b| - 1];
      assert (a + b)[..|a + b| - 1] == a + b';
      assert (a + b)[|a + b| - 1] == b[|b| - 1];
      FilterAppend(p, a, b');
    }
  }

  /** Every element of `s` that satisfies `p` survives the filter. */
  lemma {:induction false} FilterKeeps<T>(p: T -> bool, s: seq<T>, x: T)
    requires x in s && p(x)
    ensures x in Filter(p, s)
  {
    var last := s[|s| - 1];
    if x != last {
      assert x in s[..|s| - 1];
      FilterKeeps(p, s[..|s| - 1], x);
    }
  }

  /** Filtering a sequence with one more element at the end. */
  lemma FilterSnoc<T>(p: T -> bool, init: seq<T>, last: T)
    ensures Filter(p, init + [last]) == Filter(p, init) + (if p(last) then [last] else [])
  {
    assert (init + [last])[..|init + [last]| - 1] == init;
  }

  /** The filter keeps every copy of an element that satisfies `p` and no copy of
      one that does not. */
  lemma {:induction false} FilterCount<T>(p: T -> bool, s: seq<T>, x: T)
    ensures multiset(Filter(p, s))[x] == if p(x) then multiset(s)[x] else 0
  {
    if s != [] {
      var init, last := s[..|s| - 1], s[|s| - 1];
      assert s == init + [last];
      FilterCount(p, init, x);
      FilterSnoc(p, init, last);
    }
  }

  /** Filtering by a predicate and by its negation splits `s` into two parts
      whose elements together are exactly those of `s`. */
  lemma {:induction false} FilterPartition<T>(p: T -> bool, q: T -> bool, s: seq<T>)
    requires forall x :: q(x) == !p(x)
    ensures multiset(Filter(p, s)) + multiset(Filter(q, s)) == multiset(s)
  {
    if s != [] {
      var init, last := s[..|s| - 1], s[|s| - 1];
      assert s == init + [last];
      FilterPartition(p, q, init);
      FilterSnoc(p, init, last);
      FilterSnoc(q, init, last);
      PartitionStep(multiset(Filter(p, init)), multiset(Filter(q, init)), multiset(init), last, p(last));
    }
  }

  lemma PartitionStep<T>(mp: multiset<T>, mq: multiset<T>, m: multiset<T>, x: T, left: bool)
    requires mp + mq == m
    ensures (if left then mp + multiset{x} else mp) + (if left then mq else mq + multiset{x}) == m + multiset{x}
  {
  }

  /** The two parts of a partition have as many elements together as `s`. */
  lemma FilterPartitionSizes<T>(p: T -> bool, q: T -> bool, s: seq<T>)
    requires forall x :: q(x) == !p(x)
    ensures |Filter(p, s)| + |Filter(q, s)| == |s|
  {
    FilterPartition(p, q, s);
    assert |multiset(Filter(p, s)) + multiset(Filter(q, s))| == |multiset(s)|;
  }

  /** A filter that keeps everything is the identity; one that keeps nothing is empty. */
  lemma {:induction false} FilterAllOrNone<T>(p: T -> bool, s: seq<T>)
    ensures (forall x :: x in s ==> p(x)) ==> Filter(p, s) == s
    ensures (forall x :: x in s ==> !p(x)) ==> Filter(p, s) == []
  {
    if s != [] {
      var init := s[..|s| - 1];
      assert forall x :: x in init ==> x in s;
      FilterAllOrNone(p, init);
      assert s == init + [s[|s| - 1]];
    }
  }

  /** `a` is `b` with some elements deleted: the survivors keep their order. */
  predicate IsSubsequence<T(==)>(a: seq<T>, b: seq<T>)
    decreases |b|
  {
    a == [] ||
    (b != [] &&
     (IsSubsequence(a, b[..|b| - 1]) ||
      (a[|a| - 1] == b[|b| - 1] && IsSubsequence(a[..|a| - 1], b[..|b| - 1]))))
  }

  /** A filter only deletes elements. */
  lemma {:induction false} FilterIsSubsequence<T>(p: T -> bool, s: seq<T>)
    ensures IsSubsequence(Filter(p, s), s)
  {
    if s != [] {
      var init := s[..|s| - 1];
      FilterIsSubsequence(p, init);
      var f := Filter(p, s);
      if p(s[|s| - 1]) {
        assert f == Filter(p, init) + [s[|s| - 1]];
        assert f[..|f| - 1] == Filter(p, init) && f[|f| - 1] == s[|s| - 1];
      } else {
        assert f == Filter(p, init);
      }
    }
  }
}
