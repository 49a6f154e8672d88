/**
 * `Array.prototype.sort(comparefn)` on a consistent comparator: the array is
 * reordered in place into an order the comparator accepts.
 */
module ArraySort {

  /** Every pair of `s` is in the order `cmp` accepts (`cmp(x, y) <= 0`: `x` may come first). */
  ghost predicate SortedBy<T>(s: seq<T>, cmp: (T, T) -> int)
  {
    forall i, j :: 0 <= i < j < |s| ==> cmp(s[i], s[j]) <= 0
  }

  /**
   * A consistent comparator: swapping its arguments flips the sign of its
   * result, and "may come first" is transitive.
   */
  ghost predicate Consistent<T(!new)>(cmp: (T, T) -> int)
  {
    && (forall x, y {:trigger cmp(x, y), cmp(y, x)} :: cmp(x, y) < 0 <==> cmp(y, x) > 0)
    && (forall x, y, z {:trigger cmp(x, y), cmp(y, z), cmp(x, z)} ::
          cmp(x, y) <= 0 && cmp(y, z) <= 0 ==> cmp(x, z) <= 0)
  }

  /** Exchanges two elements of an array. */
  method Swap<T>(a: array<T>, i: nat, j: nat)
    requires i < a.Length && j < a.Length
    modifies a
    ensures a[..] == old(a[..])[i := old(a[j])][j := old(a[i])]
    ensures multiset(a[..]) == multiset(old(a[..]))
  {
    a[i], a[j] := a[j], a[i];
  }

  /** The first `n` elements of `s` are in the order `cmp` accepts. */
  ghost predicate PrefixSorted<T>(s: seq<T>, n: nat, cmp: (T, T) -> int)
    requires n <= |s|
  {
    forall k, l :: 0 <= k < l < n ==> cmp(s[k], s[l]) <= 0
  }

  /**
   * While `s[j]` is being moved left within `s[..i + 1]`: apart from it the
   * prefix is in order, and it may come before everything to its right.
   */
  ghost predicate Inserting<T>(s: seq<T>, i: nat, j: nat, cmp: (T, T) -> int)
    requires j <= i < |s|
  {
    && (forall k, l :: 0 <= k < l <= i && k != j && l != j ==> cmp(s[k], s[l]) <= 0)
    && (forall l :: j < l <= i ==> cmp(s[j], s[l]) <= 0)
  }

  /** Exchanging `s[j - 1]` and `s[j]` when they are out of order moves the insertion one place left. */
  lemma InsertingStep<T(!new)>(s: seq<T>, i: nat, j: nat, cmp: (T, T) -> int)
    requires Consistent(cmp)
    requires 0 < j <= i < |s| && Inserting(s, i, j, cmp) && cmp(s[j - 1], s[j]) > 0
    ensures Inserting(s[j - 1 := s[j]][j := s[j - 1]], i, j - 1, cmp)
  {
  }

  /** Once `s[j]` may follow its left neighbour, the whole prefix `s[..i + 1]` is in order. */
  lemma InsertingDone<T(!new)>(s: seq<T>, i: nat, j: nat, cmp: (T, T) -> int)
    requires Consistent(cmp)
    requires j <= i < |s| && Inserting(s, i, j, cmp) && (j == 0 || cmp(s[j - 1], s[j]) <= 0)
    ensures PrefixSorted(s, i + 1, cmp)
  {
    forall k, l | 0 <= k < l <= i ensures cmp(s[k], s[l]) <= 0 {
      if l == j && k < j - 1 {
        assert cmp(s[k], s[j - 1]) <= 0;
      }
    }
  }

  /**
   * One step of insertion sort: moves `a[i]` left past every element that
   * must follow it, so that the first `i + 1` elements end up in order.
   */
  method Insert<T(!new)>(a: array<T>, i: nat, cmp: (T, T) -> int)
    requires Consistent(cmp)
    requires i < a.Length && PrefixSorted(a[..], i, cmp)
    modifies a
    ensures PrefixSorted(a[..], i + 1, cmp)
    ensures multiset(a[..]) == multiset(old(a[..]))
  {
    var j := i;
    while 0 < j && cmp(a[j - 1], a[j]) > 0
      invariant 0 <= j <= i
      invariant Inserting(a[..], i, j, cmp)
      invariant multiset(a[..]) == multiset(old(a[..]))
    {
      InsertingStep(a[..], i, j, cmp);
      Swap(a, j - 1, j);
      j := j - 1;
    }
    InsertingDone(a[..], i, j, cmp);
  }

  /**
   * Sorts `a` in place by `cmp`. The engine's algorithm is not fixed; this is
   * insertion sort by adjacent exchanges, and all a caller may rely on is
   * that the result is a sorted permutation of the input.
   */
  method Sort<T(!new)>(a: array<T>, cmp: (T, T) -> int)
    requires Consistent(cmp)
    modifies a
    ensures SortedBy(a[..], cmp)
    ensures multiset(a[..]) == multiset(old(a[..]))
  {
    var i := 0;
    while i < a.Length
      invariant 0 <= i <= a.Length
      invariant PrefixSorted(a[..], i, cmp)
      invariant multiset(a[..]) == multiset(old(a[..]))
    {
      Insert(a, i, cmp);
      i := i + 1;
    }
  }
}
