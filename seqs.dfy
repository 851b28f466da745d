/**
 Generic facts about sequences used throughout the model: list comprehensions
 with a filter, sums of per-element counts, and the subsequence order.
 */
module Seqs {

  /** `a` can be obtained from `b` by deleting elements (order is kept).
      Decided greedily from the right end. */
  predicate IsSubsequence<T(==)>(a: seq<T>, b: seq<T>)
    decreases |b|
  {
    if a == [] then true
    else if b == [] then false
    else if a[|a| - 1] == b[|b| - 1] then IsSubsequence(a[..|a| - 1], b[..|b| - 1])
    else IsSubsequence(a, b[..|b| - 1])
  }

  /** Appending to the larger sequence keeps a subsequence a subsequence. */
  lemma {:induction false} SubsequenceExtend<T>(a: seq<T>, b: seq<T>, x: T)
    requires IsSubsequence(a, b)
    ensures IsSubsequence(a, b + [x])
    decreases |b|, 1
  {
    var b' := b + [x];
    assert b'[..|b'| - 1] == b;
    if a != [] && a[|a| - 1] == x {
      SubsequenceDropLast(a, b);
    }
  }

  /** Dropping the last element of a subsequence keeps it a subsequence. */
  lemma {:induction false} SubsequenceDropLast<T>(a: seq<T>, b: seq<T>)
    requires a != [] && IsSubsequence(a, b)
    ensures IsSubsequence(a[..|a| - 1], b)
    decreases |b|, 0
  {
    var a', b' := a[..|a| - 1], b[..|b| - 1];
    assert b == b' + [b[|b| - 1]];
    if a[|a| - 1] == b[|b| - 1] {
      SubsequenceExtend(a', b', b[|b| - 1]);
    } else {
      SubsequenceDropLast(a, b');
      SubsequenceExtend(a', b', b[|b| - 1]);
    }
  }

  /** `[x for x in s if p(x)]`: the elements of `s` that satisfy `p`, in their
      original order. */
  function Filter<T>(s: seq<T>, p: T -> bool): (r: seq<T>)
    ensures |r| <= |s|
  {
    if s == [] then []
    else Filter(s[..|s| - 1], p) + (if p(s[|s| - 1]) then [s[|s| - 1]] else [])
  }

  /** A filter keeps each element satisfying `p` exactly as often as it occurs,
      and drops every other element. */
  lemma {:induction false} FilterCounts<T>(s: seq<T>, p: T -> bool, x: T)
    ensures multiset(Filter(s, p))[x] == if p(x) then multiset(s)[x] else 0
    ensures x in Filter(s, p) <==> x in s && p(x)
  {
    if s != [] {
      var init, last := s[..|s| - 1], s[|s| - 1];
      FilterCounts(init, p, x);
      assert s == init + [last];
      assert multiset(s) == multiset(init) + multiset{last};
      var r := Filter(s, p);
      assert multiset(r) == multiset(Filter(init, p)) + multiset(if p(last) then [last] else []);
    }
    assert x in Filter(s, p) <==> multiset(Filter(s, p))[x] > 0;
  }

  /** A filter keeps the original order: its result is a subsequence of its input. */
  lemma {:induction false} FilterKeepsOrder<T>(s: seq<T>, p: T -> bool)
    ensures IsSubsequence(Filter(s, p), s)
  {
    if s != [] {
      var init, last := s[..|s| - 1], s[|s| - 1];
      var r0 := Filter(init, p);
      FilterKeepsOrder(init, p);
      assert s == init + [last];
      if p(last) {
        assert Filter(s, p)[..|Filter(s, p)| - 1] == r0;
      } else {
        assert Filter(s, p) == r0;
        SubsequenceExtend(r0, init, last);
      }
    }
  }

  /** Every element of `s` satisfies `p`: the filter keeps the whole sequence. */
  lemma {:induction false} FilterAll<T>(s: seq<T>, p: T -> bool)
    requires forall k :: 0 <= k < |s| ==> p(s[k])
    ensures Filter(s, p) == s
  {
    if s != [] {
      FilterAll(s[..|s| - 1], p);
      assert s == s[..|s| - 1] + [s[|s| - 1]];
    }
  }

  /** The membership half of `FilterCounts`, for all elements at once. */
  lemma FilterMembers<T>(s: seq<T>, p: T -> bool)
    ensures forall x :: x in Filter(s, p) <==> x in s && p(x)
  {
    forall x ensures x in Filter(s, p) <==> x in s && p(x) {
      FilterCounts(s, p, x);
    }
  }

  /** `[y for x in s for y in f(x)]`: the lists `f(x)` concatenated in the order of `s`
      (the list a loop over `s` builds when it appends `f(x)` at each step). */
  function FlatMap<T, U>(s: seq<T>, f: T -> seq<U>): seq<U>
  {
    if s == [] then [] else FlatMap(s[..|s| - 1], f) + f(s[|s| - 1])
  }

  lemma {:induction false} FlatMapAppend<T, U>(a: seq<T>, b: seq<T>, f: T -> seq<U>)
    ensures FlatMap(a + b, f) == FlatMap(a, f) + FlatMap(b, f)
    decreases |b|
  {
    if b != [] {
      assert (a + b)[..|a + b| - 1] == a + b[..|b| - 1];
      FlatMapAppend(a, b[..|b| - 1], f);
    } else {
      assert a + b == a;
    }
  }

  /** Each output element comes from some input element, and every output of
      every input element is present. */
  lemma {:induction false} FlatMapMembers<T, U>(s: seq<T>, f: T -> seq<U>)
    ensures forall u :: u in FlatMap(s, f) <==> exists x :: x in s && u in f(x)
  {
    if s != [] {
      var init, last := s[..|s| - 1], s[|s| - 1];
      FlatMapMembers(init, f);
      assert s == init + [last];
      assert forall x :: x in s <==> x in init || x == last;
    }
  }

  /** Visiting the inputs in another order only reorders the outputs. */
  lemma {:induction false} FlatMapPermutation<T, U>(a: seq<T>, b: seq<T>, f: T -> seq<U>)
    requires multiset(a) == multiset(b)
    ensures multiset(FlatMap(a, f)) == multiset(FlatMap(b, f))
    decreases |a|
  {
    if a == [] {
      assert |b| == |multiset(b)| == 0;
    } else {
      var init, x := a[..|a| - 1], a[|a| - 1];
      FlatMapLast(a, f);
      assert multiset(a) == multiset(init) + multiset{x} by { assert a == init + [x]; }
      assert x in multiset(b);
      var i :| 0 <= i < |b| && b[i] == x;
      FlatMapRemove(b, i, f);
      FlatMapPermutation(init, b[..i] + b[i + 1..], f);
    }
  }

  /** The outputs of a non-empty input end with those of its last element. */
  lemma FlatMapLast<T, U>(a: seq<T>, f: T -> seq<U>)
    requires a != []
    ensures multiset(FlatMap(a, f)) == multiset(FlatMap(a[..|a| - 1], f)) + multiset(f(a[|a| - 1]))
  {
  }

  /** Taking one element out of the inputs takes its outputs out of the outputs. */
  lemma FlatMapRemove<T, U>(b: seq<T>, i: nat, f: T -> seq<U>)
    requires i < |b|
    ensures multiset(b[..i] + b[i + 1..]) == multiset(b) - multiset{b[i]}
    ensures multiset(FlatMap(b, f)) == multiset(FlatMap(b[..i] + b[i + 1..], f)) + multiset(f(b[i]))
  {
    var p, x, q := b[..i], b[i], b[i + 1..];
    Splice(b, i);
    SpliceCount(p, [x], q);
    FlatMapSplice(p, x, q, f);
    SpliceCount(FlatMap(p, f), f(x), FlatMap(q, f));
  }

  lemma Splice<T>(b: seq<T>, i: nat)
    requires i < |b|
    ensures b == b[..i] + [b[i]] + b[i + 1..]
  {
  }

  /** Cutting the middle piece out of a sequence removes its elements and no others. */
  lemma SpliceCount<T>(p: seq<T>, m: seq<T>, q: seq<T>)
    ensures multiset(p + m + q) == multiset(p + q) + multiset(m)
  {
  }

  lemma FlatMapSplice<T, U>(p: seq<T>, x: T, q: seq<T>, f: T -> seq<U>)
    ensures FlatMap(p + [x] + q, f) == FlatMap(p, f) + f(x) + FlatMap(q, f)
    ensures FlatMap(p + q, f) == FlatMap(p, f) + FlatMap(q, f)
  {
    FlatMapAppend(p, [x], f);
    FlatMapAppend(p + [x], q, f);
    FlatMapAppend(p, q, f);
    assert FlatMap([x], f) == f(x) by { assert [x][..0] == []; }
  }

  /** Two orderings of the same inputs give the same outputs up to order, and
      an output is present iff some input produced it. */
  lemma FlatMapReorder<T, U>(a: seq<T>, b: seq<T>, f: T -> seq<U>)
    requires multiset(a) == multiset(b)
    ensures multiset(FlatMap(a, f)) == multiset(FlatMap(b, f))
    ensures forall u :: u in FlatMap(a, f) <==> exists x :: x in b && u in f(x)
  {
    FlatMapPermutation(a, b, f);
    FlatMapMembers(b, f);
    forall u ensures u in FlatMap(a, f) <==> u in FlatMap(b, f) {
      assert u in FlatMap(a, f) <==> u in multiset(FlatMap(a, f));
    }
  }

  /** The sum of `f` over the elements of `s` (a counter bumped in a loop over `s`). */
  function Sum<T>(s: seq<T>, f: T -> nat): nat
  {
    if s == [] then 0 else Sum(s[..|s| - 1], f) + f(s[|s| - 1])
  }

  lemma {:induction false} SumAppend<T>(a: seq<T>, b: seq<T>, f: T -> nat)
    ensures Sum(a + b, f) == Sum(a, f) + Sum(b, f)
    decreases |b|
  {
    if b != [] {
      assert (a + b)[..|a + b| - 1] == a + b[..|b| - 1];
      SumAppend(a, b[..|b| - 1], f);
    } else {
      assert a + b == a;
    }
  }

  /** Replacing one element changes the sum by the difference of their values. */
  lemma SumUpdate<T>(s: seq<T>, i: nat, x: T, f: T -> nat)
    requires i < |s|
    ensures Sum(s[i := x], f) + f(s[i]) == Sum(s, f) + f(x)
  {
    var a, b := s[..i], s[i + 1..];
    assert s == a + [s[i]] + b;
    assert s[i := x] == a + [x] + b;
    SumAppend(a + [s[i]], b, f);
    SumAppend(a, [s[i]], f);
    SumAppend(a + [x], b, f);
    SumAppend(a, [x], f);
    assert [x][..0] == [] && [s[i]][..0] == [];
  }

  /** A sum does not depend on the order in which the elements are visited. */
  lemma {:induction false} SumPermutation<T>(a: seq<T>, b: seq<T>, f: T -> nat)
    requires multiset(a) == multiset(b)
    ensures Sum(a, f) == Sum(b, f)
    decreases |a|
  {
    if a == [] {
      assert |b| == |multiset(b)| == 0;
    } else {
      var init, x := a[..|a| - 1], a[|a| - 1];
      assert multiset(a) == multiset(init) + multiset{x} by { assert a == init + [x]; }
      assert x in multiset(b);
      var i :| 0 <= i < |b| && b[i] == x;
      SumRemove(b, i, f);
      SumPermutation(init, b[..i] + b[i + 1..], f);
    }
  }

  /** Taking one element out of a sequence takes its value off the sum. */
  lemma SumRemove<T>(b: seq<T>, i: nat, f: T -> nat)
    requires i < |b|
    ensures multiset(b[..i] + b[i + 1..]) == multiset(b) - multiset{b[i]}
    ensures Sum(b, f) == Sum(b[..i] + b[i + 1..], f) + f(b[i])
  {
    var p, x, q := b[..i], b[i], b[i + 1..];
    Splice(b, i);
    SpliceCount(p, [x], q);
    SumAppend(p, [x], f);
    SumAppend(p + [x], q, f);
    SumAppend(p, q, f);
    assert Sum([x], f) == f(x) by { assert [x][..0] == []; }
  }
}
