/** Facts about the `filter` comprehension that the task store uses for
    loading, removing and searching, and about the order it keeps. */
module Seqs {

  /** `a` can be obtained from `b` by deleting elements: the order of the
      elements that remain is the order they had in `b`. */
  ghost predicate IsSubsequence<T>(a: seq<T>, b: seq<T>)
    decreases |b|
  {
    if b == [] then a == []
    else (a != [] && a[0] == b[0] && IsSubsequence(a[1..], b[1..])) || IsSubsequence(a, b[1..])
  }

  /** `rel` holds of every pair of elements of `s`, taken in sequence order. */
  ghost predicate Pairwise<T>(s: seq<T>, rel: (T, T) -> bool)
  {
    forall i, j :: 0 <= i < j < |s| ==> rel(s[i], s[j])
  }

  /** The elements of `s` that satisfy `p`, in their original order
      (the behaviour of an array's `filter`). */
  function Filter<T>(s: seq<T>, p: T -> bool): (r: seq<T>)
    ensures |r| <= |s|
    ensures forall i :: 0 <= i < |r| ==> p(r[i])
    ensures |r| == |s| <==> forall i :: 0 <= i < |s| ==> p(s[i])
    ensures (forall i :: 0 <= i < |s| ==> p(s[i])) ==> r == s
    ensures IsSubsequence(r, s)
  {
    if s == [] then []
    else if p(s[0]) then
      var rest := Filter(s[1..], p);
      assert ([s[0]] + rest)[1..] == rest;
      assert s == [s[0]] + s[1..];
      [s[0]] + rest
    else
      assert s == [s[0]] + s[1..];
      Filter(s[1..], p)
  }

  /** The elements of the filtered sequence are exactly the elements of `s`
      that satisfy `p`. */
  lemma {:induction false} FilterMembers<T>(s: seq<T>, p: T -> bool)
    ensures forall x :: x in Filter(s, p) <==> x in s && p(x)
  {
    if s != [] {
      FilterMembers(s[1..], p);
      assert s == [s[0]] + s[1..];
    }
  }

  /** Filtering a concatenation filters each part. */
  lemma {:induction false} FilterAppend<T>(a: seq<T>, b: seq<T>, p: T -> bool)
    ensures Filter(a + b, p) == Filter(a, p) + Filter(b, p)
  {
    if a == [] {
      assert a + b == b;
    } else {
      assert (a + b)[0] == a[0];
      assert (a + b)[1..] == a[1..] + b;
      FilterAppend(a[1..], b, p);
    }
  }

  /** Filtering keeps every element that satisfies `p` as often as it occurs,
      and no other element. */
  lemma {:induction false} FilterMultiplicity<T>(s: seq<T>, p: T -> bool, x: T)
    ensures multiset(Filter(s, p))[x] == if p(x) then multiset(s)[x] else 0
  {
    if s != [] {
      assert s == [s[0]] + s[1..];
      assert multiset(s) == multiset([s[0]]) + multiset(s[1..]);
      FilterMultiplicity(s[1..], p, x);
      if p(s[0]) {
        assert multiset(Filter(s, p)) == multiset([s[0]]) + multiset(Filter(s[1..], p));
      }
    }
  }

  /** Two tests that agree on every element of `s` filter it alike. */
  lemma {:induction false} FilterAgreeing<T>(s: seq<T>, p: T -> bool, q: T -> bool)
    requires forall i :: 0 <= i < |s| ==> p(s[i]) == q(s[i])
    ensures Filter(s, p) == Filter(s, q)
  {
    if s != [] {
      assert forall i :: 0 <= i < |s[1..]| ==> s[1..][i] == s[i + 1];
      FilterAgreeing(s[1..], p, q);
    }
  }

  /** Every element of a subsequence of `b` is an element of `b`. */
  lemma {:induction false} SubsequenceMembers<T>(a: seq<T>, b: seq<T>)
    requires IsSubsequence(a, b)
    ensures forall x :: x in a ==> x in b
    decreases |b|
  {
    if b != [] {
      if a != [] && a[0] == b[0] && IsSubsequence(a[1..], b[1..]) {
        SubsequenceMembers(a[1..], b[1..]);
        assert a == [a[0]] + a[1..];
        assert b == [b[0]] + b[1..];
      } else {
        SubsequenceMembers(a, b[1..]);
        assert b == [b[0]] + b[1..];
      }
    }
  }

  /** A relation that holds pairwise along `b` holds pairwise along every
      subsequence of `b`. */
  lemma {:induction false} SubsequencePairwise<T>(a: seq<T>, b: seq<T>, rel: (T, T) -> bool)
    requires IsSubsequence(a, b) && Pairwise(b, rel)
    ensures Pairwise(a, rel)
    decreases |b|
  {
    if b != [] {
      assert Pairwise(b[1..], rel) by {
        forall i, j | 0 <= i < j < |b[1..]| ensures rel(b[1..][i], b[1..][j]) {
          assert b[1..][i] == b[i + 1] && b[1..][j] == b[j + 1];
        }
      }
      if a != [] && a[0] == b[0] && IsSubsequence(a[1..], b[1..]) {
        SubsequencePairwise(a[1..], b[1..], rel);
        SubsequenceMembers(a[1..], b[1..]);
        forall i, j | 0 <= i < j < |a| ensures rel(a[i], a[j]) {
          if i == 0 {
            assert a[j] == a[1..][j - 1];
            assert a[j] in b[1..];
            var k :| 0 <= k < |b[1..]| && b[1..][k] == a[j];
            assert b[k + 1] == a[j];
          } else {
            assert a[i] == a[1..][i - 1] && a[j] == a[1..][j - 1];
          }
        }
      } else {
        SubsequencePairwise(a, b[1..], rel);
      }
    }
  }
}
