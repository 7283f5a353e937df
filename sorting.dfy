/**
 * The in-place sorts the program asks Go's `sort` package for (`sort.Sort`
 * on a PairList, `sort.Slice` on the package list). Neither is stable, and
 * both promise only an ordered permutation, so that is all this sort
 * promises: an insertion sort by an integer key, written with swaps.
 */
module Sorting {

  ghost predicate SortedBy<T>(s: seq<T>, key: T -> int)
  {
    forall i, j :: 0 <= i < j < |s| ==> key(s[i]) <= key(s[j])
  }

  /** PairList.Swap and the swap function sort.Slice derives. */
  method Swap<T>(a: array<T>, i: int, j: int)
    requires 0 <= i < a.Length && 0 <= j < a.Length
    modifies a
    ensures a[i] == old(a[j]) && a[j] == old(a[i])
    ensures forall m :: 0 <= m < a.Length && m != i && m != j ==> a[m] == old(a[m])
    ensures multiset(a[..]) == multiset(old(a[..]))
  {
    a[i], a[j] := a[j], a[i];
  }

  /** Moves `a[i]` left past every larger element, so that `a[..i + 1]` becomes ordered. */
  method InsertAt<T>(a: array<T>, i: int, key: T -> int)
    requires 0 <= i < a.Length
    requires forall x, y :: 0 <= x < y < i ==> key(a[x]) <= key(a[y])
    modifies a
    ensures forall x, y :: 0 <= x < y <= i ==> key(a[x]) <= key(a[y])
    ensures multiset(a[..]) == multiset(old(a[..]))
  {
    var j := i;
    while 0 < j && key(a[j]) < key(a[j - 1])
      invariant 0 <= j <= i
      invariant forall x, y :: 0 <= x < y <= i && x != j && y != j ==> key(a[x]) <= key(a[y])
      invariant forall y :: j < y <= i ==> key(a[j]) < key(a[y])
      invariant 0 < j < i ==> key(a[j - 1]) <= key(a[j + 1])
      invariant multiset(a[..]) == multiset(old(a[..]))
    {
      Swap(a, j - 1, j);
      j := j - 1;
    }
  }

  /** Reorders `a` into a permutation of itself that is non-decreasing by `key`. */
  method SortByKey<T>(a: array<T>, key: T -> int)
    modifies a
    ensures SortedBy(a[..], key)
    ensures multiset(a[..]) == multiset(old(a[..]))
  {
    var i := 0;
    while i < a.Length
      invariant 0 <= i <= a.Length
      invariant forall x, y :: 0 <= x < y < i ==> key(a[x]) <= key(a[y])
      invariant multiset(a[..]) == multiset(old(a[..]))
    {
      InsertAt(a, i, key);
      i := i + 1;
    }
  }
}
