/** Facts about sequences the grid and the key buffers both rely on. */
module Sequences {

  /** No element occurs twice. */
  predicate NoDuplicates<T(==)>(s: seq<T>) {
    forall a, b :: 0 <= a < b < |s| ==> s[a] != s[b]
  }

  /** In a sequence without duplicates every element occurs once. */
  lemma {:induction false} DistinctMultiplicity<T>(s: seq<T>, x: T)
    requires NoDuplicates(s)
    ensures multiset(s)[x] == if x in s then 1 else 0
  {
    if s != [] {
      var s', last := s[..|s| - 1], s[|s| - 1];
      assert s == s' + [last];
      DistinctMultiplicity(s', x);
      assert last !in s';
    }
  }

  /** Two sequences without duplicates that hold the same elements are rearrangements of each other. */
  lemma SameElementsSameMultiset<T>(a: seq<T>, b: seq<T>)
    requires NoDuplicates(a) && NoDuplicates(b)
    requires forall x :: x in a <==> x in b
    ensures multiset(a) == multiset(b)
  {
    forall x
      ensures multiset(a)[x] == multiset(b)[x]
    {
      DistinctMultiplicity(a, x);
      DistinctMultiplicity(b, x);
    }
  }

  /** Taking the same element out of two equal multisets leaves equal multisets. */
  lemma MultisetCancel<T>(a: multiset<T>, b: multiset<T>, o: T)
    requires a + multiset{o} == b + multiset{o}
    ensures a == b
  {
    forall x ensures a[x] == b[x] {
      assert (a + multiset{o})[x] == (b + multiset{o})[x];
    }
  }

  /** A sequence is the element at k plus the rest. */
  lemma MultisetSplit<T>(q: seq<T>, k: nat)
    requires k < |q|
    ensures multiset(q[..k] + q[k + 1..]) + multiset{q[k]} == multiset(q)
  {
    assert q == q[..k] + [q[k]] + q[k + 1..];
  }
}
