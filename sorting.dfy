/** `Array.prototype.sort(compareFn)`, which the app applies to freshly
    copied arrays of tasks and date keys and to a stored bucket of events.
    The language requires the comparator to be consistent; under that
    requirement the array ends up ordered by it and holds the same elements. */
module Sorting {

  /** A consistent comparator: every pair is ordered one way or the other,
      and "at most" is transitive. */
  ghost predicate Consistent<T(!new)>(cmp: (T, T) -> int) {
    && (forall x, y :: cmp(x, y) <= 0 || cmp(y, x) <= 0)
    && (forall x, y, z :: cmp(x, y) <= 0 && cmp(y, z) <= 0 ==> cmp(x, z) <= 0)
  }

  /** Every element is at most each later one. */
  ghost predicate SortedBy<T>(s: seq<T>, cmp: (T, T) -> int) {
    forall i, j :: 0 <= i < j < |s| ==> cmp(s[i], s[j]) <= 0
  }

  /** Sorts `a` in place by insertion, moving each new element left past the
      elements that compare strictly greater, so equal elements keep their order. */
  method InsertionSort<T(!new)>(a: array<T>, cmp: (T, T) -> int)
    requires Consistent(cmp)
    modifies a
    ensures SortedBy(a[..], cmp)
    ensures multiset(a[..]) == old(multiset(a[..]))
  {
    var i := 0;
    while i < a.Length
      invariant 0 <= i <= a.Length
      invariant SortedBy(a[..i], cmp)
      invariant multiset(a[..]) == old(multiset(a[..]))
    {
      Insert(a, i, cmp);
      i := i + 1;
    }
    assert a[..] == a[..a.Length];
  }

  /** Moves `a[i]` left into the sorted prefix `a[..i]`. */
  method Insert<T(!new)>(a: array<T>, i: nat, cmp: (T, T) -> int)
    requires Consistent(cmp)
    requires i < a.Length && SortedBy(a[..i], cmp)
    modifies a
    ensures SortedBy(a[..i + 1], cmp)
    ensures a[i + 1..] == old(a[i + 1..])
    ensures multiset(a[..]) == old(multiset(a[..]))
  {
    var j := i;
    InsertStart(a[..], i, cmp);
    while j > 0 && cmp(a[j - 1], a[j]) > 0
      invariant 0 <= j <= i
      invariant Inserting(a[..], i, j, cmp)
      invariant a[i + 1..] == old(a[i + 1..])
      invariant multiset(a[..]) == old(multiset(a[..]))
    {
      InsertSwap(a[..], i, j, cmp);
      Swap(a, j, i);
      j := j - 1;
    }
    InsertDone(a[..], i, j, cmp);
  }

  /** Exchanges `a[j - 1]` and `a[j]`, which lie at or before `i`. */
  method Swap<T>(a: array<T>, j: nat, i: nat)
    requires 0 < j <= i < a.Length
    modifies a
    ensures a[..] == old(a[..])[j - 1 := old(a[j])][j := old(a[j - 1])]
    ensures a[i + 1..] == old(a[i + 1..])
    ensures multiset(a[..]) == old(multiset(a[..]))
  {
    a[j - 1], a[j] := a[j], a[j - 1];
  }

  /** The state of `Insert`: the prefix up to `i` is sorted except that the
      element being moved sits at `j` and is at most everything after it. */
  ghost predicate Inserting<T>(s: seq<T>, i: nat, j: nat, cmp: (T, T) -> int) {
    && j <= i < |s|
    && (forall k, l :: 0 <= k < l <= i && l != j ==> cmp(s[k], s[l]) <= 0)
    && (forall l :: j < l <= i ==> cmp(s[j], s[l]) <= 0)
  }

  lemma InsertStart<T(!new)>(s: seq<T>, i: nat, cmp: (T, T) -> int)
    requires i < |s| && SortedBy(s[..i], cmp)
    ensures Inserting(s, i, i, cmp)
  {
    forall k, l | 0 <= k < l < i
      ensures cmp(s[k], s[l]) <= 0
    {
      assert s[k] == s[..i][k] && s[l] == s[..i][l];
    }
  }

  lemma InsertSwap<T(!new)>(s: seq<T>, i: nat, j: nat, cmp: (T, T) -> int)
    requires Consistent(cmp)
    requires Inserting(s, i, j, cmp) && 0 < j && cmp(s[j - 1], s[j]) > 0
    ensures Inserting(s[j - 1 := s[j]][j := s[j - 1]], i, j - 1, cmp)
  {
    var t := s[j - 1 := s[j]][j := s[j - 1]];
    assert cmp(t[j - 1], t[j]) <= 0;
    forall l | j - 1 < l <= i
      ensures cmp(t[j - 1], t[l]) <= 0
    {
      if l > j {
        assert cmp(s[j - 1], s[l]) <= 0;
      }
    }
  }

  lemma InsertDone<T(!new)>(s: seq<T>, i: nat, j: nat, cmp: (T, T) -> int)
    requires Consistent(cmp)
    requires Inserting(s, i, j, cmp) && (j == 0 || cmp(s[j - 1], s[j]) <= 0)
    ensures SortedBy(s[..i + 1], cmp)
  {
    forall k, l | 0 <= k < l <= i
      ensures cmp(s[k], s[l]) <= 0
    {
      if l == j && k < j - 1 {
        assert cmp(s[k], s[j - 1]) <= 0;
      }
    }
  }
}
