/** Facts about sequences that several parts of the model share: the index of
    the first element with a property, filtering, and order-preserving
    sub-sequences. */
module Seqs {

  /** The index of the first element of `s` that satisfies `p`, or `|s|`. */
  function FirstIndex<T(!new)>(s: seq<T>, p: T -> bool): (k: nat)
    ensures k <= |s|
    ensures k < |s| ==> p(s[k])
    ensures forall j :: 0 <= j < k ==> !p(s[j])
  {
    if s == [] || p(s[0]) then 0 else 1 + FirstIndex(s[1..], p)
  }

  /** A first match is not disturbed by what follows it. */
  lemma FirstIndexAppend<T(!new)>(a: seq<T>, b: seq<T>, p: T -> bool)
    ensures FirstIndex(a + b, p)
         == if FirstIndex(a, p) < |a| then FirstIndex(a, p) else |a| + FirstIndex(b, p)
  {
    var k, n := FirstIndex(a + b, p), FirstIndex(a, p);
    if n < |a| {
      assert (a + b)[n] == a[n];
      assert k <= n;
    } else {
      assert forall j :: 0 <= j < |a| ==> (a + b)[j] == a[j];
      var m := FirstIndex(b, p);
      assert m < |b| ==> (a + b)[|a| + m] == b[m];
      assert k < |a + b| ==> (a + b)[k] == b[k - |a|];
    }
  }

  /** The elements of `s` that satisfy `p`, in order. */
  function Filter<T(!new)>(s: seq<T>, p: T -> bool): (r: seq<T>)
    ensures forall x :: x in r <==> x in s && p(x)
  {
    if s == [] then [] else (if p(s[0]) then [s[0]] else []) + Filter(s[1..], p)
  }

  lemma {:induction false} FilterAppend<T(!new)>(a: seq<T>, b: seq<T>, p: T -> bool)
    ensures Filter(a + b, p) == Filter(a, p) + Filter(b, p)
  {
    if a == [] {
      assert a + b == b;
    } else {
      assert (a + b)[1..] == a[1..] + b;
      FilterAppend(a[1..], b, p);
    }
  }

  /** The step of a loop that appends to a filtered prefix. */
  lemma FilterStep<T(!new)>(s: seq<T>, i: nat, p: T -> bool)
    requires i < |s|
    ensures Filter(s[..i + 1], p) == Filter(s[..i], p) + if p(s[i]) then [s[i]] else []
  {
    assert s[..i + 1] == s[..i] + [s[i]];
    FilterAppend(s[..i], [s[i]], p);
  }

  /** Filtering by a property and by its negation splits a sequence without
      losing or inventing an element. */
  lemma {:induction false} FilterSplits<T(!new)>(s: seq<T>, p: T -> bool, q: T -> bool)
    requires forall x :: x in s ==> (q(x) <==> !p(x))
    ensures multiset(Filter(s, p)) + multiset(Filter(s, q)) == multiset(s)
    ensures |Filter(s, p)| + |Filter(s, q)| == |s|
  {
    if s == [] {
    } else {
      FilterSplits(s[1..], p, q);
      assert s == [s[0]] + s[1..];
    }
  }

  /** Filtering commutes with permuting. */
  lemma {:induction false} FilterCount<T(!new)>(s: seq<T>, p: T -> bool, x: T)
    ensures multiset(Filter(s, p))[x] == if p(x) then multiset(s)[x] else 0
  {
    if s == [] {
    } else {
      FilterCount(s[1..], p, x);
      assert s == [s[0]] + s[1..];
    }
  }

  lemma EmptyIff<T(!new)>(s: seq<T>)
    ensures s == [] <==> forall x :: x !in s
  {
    assert s != [] ==> s[0] in s;
  }

  /** `a` can be obtained from `b` by deleting elements. */
  ghost predicate Subsequence<T>(a: seq<T>, b: seq<T>) {
    |a| == 0 ||
    (|b| > 0 && ((a[0] == b[0] && Subsequence(a[1..], b[1..])) || Subsequence(a, b[1..])))
  }

  lemma {:induction false} FilterSubsequence<T(!new)>(s: seq<T>, p: T -> bool)
    ensures Subsequence(Filter(s, p), s)
  {
    if s == [] {
    } else {
      FilterSubsequence(s[1..], p);
      var rest := Filter(s[1..], p);
      assert [] + rest == rest && ([s[0]] + rest)[1..] == rest;
    }
  }

  /** A stronger property keeps a sub-sequence of what a weaker one keeps. */
  lemma {:induction false} FilterMonotone<T(!new)>(s: seq<T>, p: T -> bool, q: T -> bool)
    requires forall x :: x in s && p(x) ==> q(x)
    ensures Subsequence(Filter(s, p), Filter(s, q))
  {
    if s == [] {
    } else {
      FilterMonotone(s[1..], p, q);
      var p1, q1 := Filter(s[1..], p), Filter(s[1..], q);
      assert [] + p1 == p1 && [] + q1 == q1;
      assert ([s[0]] + p1)[1..] == p1 && ([s[0]] + q1)[1..] == q1;
    }
  }

  lemma {:induction false} SubsequenceMap<T, U>(a: seq<T>, b: seq<T>, f: T -> U)
    requires Subsequence(a, b)
    ensures Subsequence(Map(f, a), Map(f, b))
  {
    if a == [] {
    } else {
      assert Map(f, a)[1..] == Map(f, a[1..]) && Map(f, b)[1..] == Map(f, b[1..]);
      if a[0] == b[0] && Subsequence(a[1..], b[1..]) {
        SubsequenceMap(a[1..], b[1..], f);
      } else {
        SubsequenceMap(a, b[1..], f);
      }
    }
  }

  /** Dropping an element that is filtered out anyway. */
  lemma FilterDrop<T(!new)>(a: seq<T>, x: T, b: seq<T>, p: T -> bool)
    requires !p(x)
    ensures Filter(a + b, p) == Filter(a + [x] + b, p)
  {
    FilterAppend(a, b, p);
    FilterAppend(a + [x], b, p);
    FilterAppend(a, [x], p);
    assert Filter(a, p) + [] == Filter(a, p);
  }

  lemma {:induction false} FilterCongruent<T(!new)>(s: seq<T>, p: T -> bool, q: T -> bool)
    requires forall x :: x in s ==> (p(x) <==> q(x))
    ensures Filter(s, p) == Filter(s, q)
  {
    if s == [] {
    } else {
      FilterCongruent(s[1..], p, q);
    }
  }

  /** `f` applied to every element. */
  function Map<T, U>(f: T -> U, s: seq<T>): (r: seq<U>)
    ensures |r| == |s|
    ensures forall i :: 0 <= i < |s| ==> r[i] == f(s[i])
  {
    seq(|s|, i requires 0 <= i < |s| => f(s[i]))
  }

  ghost predicate Distinct<T>(s: seq<T>) {
    forall i, j :: 0 <= i < j < |s| ==> s[i] != s[j]
  }

  /** Deleting elements keeps a duplicate-free sequence duplicate-free. */
  lemma {:induction false} SubsequenceDistinct<T>(a: seq<T>, b: seq<T>)
    requires Subsequence(a, b) && Distinct(b)
    ensures Distinct(a) && forall x :: x in a ==> x in b
  {
    if a == [] {
    } else {
      assert Distinct(b[1..]);
      if a[0] == b[0] && Subsequence(a[1..], b[1..]) {
        SubsequenceDistinct(a[1..], b[1..]);
        assert b[0] !in b[1..];
        assert a == [a[0]] + a[1..];
      } else {
        SubsequenceDistinct(a, b[1..]);
      }
    }
  }
}
