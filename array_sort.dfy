/**
 * `Array.prototype.sort(compareFn)`, the in-place sort the blog uses, as an
 * insertion sort driven by the comparator: an element moves towards the front
 * past every element the comparator answers positive for, and stops at the
 * first one for which it answers zero or negative.
 */
module ArraySort {

  /**
   * Where `x` lands when it enters at the back of `sorted` and moves forward
   * past each element `y` with `compare(y, x) > 0`: just behind the last
   * element the comparator does not put after `x`.
   */
  function InsertPos<T>(sorted: seq<T>, x: T, compare: (T, T) -> int): (p: nat)
    ensures p <= |sorted|
    ensures p > 0 ==> compare(sorted[p - 1], x) <= 0
    ensures forall k :: p <= k < |sorted| ==> compare(sorted[k], x) > 0
  {
    if sorted == [] || compare(sorted[|sorted| - 1], x) <= 0 then |sorted|
    else InsertPos(sorted[..|sorted| - 1], x, compare)
  }

  /** The landing place is the only position with the two properties above. */
  lemma InsertPosUnique<T>(sorted: seq<T>, x: T, compare: (T, T) -> int, j: nat)
    requires j <= |sorted|
    requires j > 0 ==> compare(sorted[j - 1], x) <= 0
    requires forall k :: j <= k < |sorted| ==> compare(sorted[k], x) > 0
    ensures InsertPos(sorted, x, compare) == j
  {
  }

  /** Inserts `x` at the back of `sorted` and moves it forward past each element `y` with `compare(y, x) > 0`. */
  function Insert<T>(sorted: seq<T>, x: T, compare: (T, T) -> int): (r: seq<T>)
    ensures |r| == |sorted| + 1
  {
    if sorted == [] || compare(sorted[|sorted| - 1], x) <= 0 then sorted + [x]
    else Insert(sorted[..|sorted| - 1], x, compare) + [sorted[|sorted| - 1]]
  }

  /** The element moved forward ends up at its landing place, with the others in their order around it. */
  lemma {:induction false} InsertSplices<T>(sorted: seq<T>, x: T, compare: (T, T) -> int)
    ensures Insert(sorted, x, compare)
         == sorted[..InsertPos(sorted, x, compare)] + [x] + sorted[InsertPos(sorted, x, compare)..]
  {
    if sorted != [] && compare(sorted[|sorted| - 1], x) > 0 {
      var n := |sorted| - 1;
      var p := InsertPos(sorted, x, compare);
      InsertSplices(sorted[..n], x, compare);
      assert sorted[..n][..p] == sorted[..p];
      assert sorted[..n][p..] + [sorted[n]] == sorted[p..];
    }
  }

  /** Element by element: the front part, then `x`, then the rest moved up by one. */
  lemma InsertAt<T>(sorted: seq<T>, x: T, compare: (T, T) -> int, k: nat)
    requires k <= |sorted|
    ensures Insert(sorted, x, compare)[k]
         == (var p := InsertPos(sorted, x, compare); if k < p then sorted[k] else if k == p then x else sorted[k - 1])
  {
    InsertSplices(sorted, x, compare);
  }

  /** The insertion sort: the elements are inserted one at a time, from the front. */
  function InsertionSort<T>(s: seq<T>, compare: (T, T) -> int): (r: seq<T>)
    ensures |r| == |s|
    ensures multiset(r) == multiset(s)
  {
    if s == [] then []
    else
      var n := |s| - 1;
      InsertPermutes(InsertionSort(s[..n], compare), s[n], compare);
      assert s == s[..n] + [s[n]];
      Insert(InsertionSort(s[..n], compare), s[n], compare)
  }

  /** One insertion adds exactly the inserted element. */
  lemma {:induction false} InsertPermutes<T>(sorted: seq<T>, x: T, compare: (T, T) -> int)
    ensures multiset(Insert(sorted, x, compare)) == multiset(sorted) + multiset{x}
  {
    if sorted != [] && compare(sorted[|sorted| - 1], x) > 0 {
      var n := |sorted| - 1;
      InsertPermutes(sorted[..n], x, compare);
      assert sorted == sorted[..n] + [sorted[n]];
    }
  }

  /** No element is after one that follows it, in the comparator's eyes. */
  predicate SortedBy<T>(s: seq<T>, compare: (T, T) -> int)
  {
    forall i, j :: 0 <= i < j < |s| ==> compare(s[i], s[j]) <= 0
  }

  /**
   * What sorting needs of a comparator: of two elements at least one is not
   * after the other, and "not after" is transitive. A comparator may answer
   * non-positive both ways without breaking either.
   */
  ghost predicate OrdersConsistently<T(!new)>(compare: (T, T) -> int)
  {
    && (forall a, b :: compare(a, b) > 0 ==> compare(b, a) <= 0)
    && (forall a, b, c :: compare(a, b) <= 0 && compare(b, c) <= 0 ==> compare(a, c) <= 0)
  }

  /** Every element in front of the landing place is not after `x`. */
  lemma BeforeLanding<T(!new)>(sorted: seq<T>, x: T, compare: (T, T) -> int, i: nat)
    requires OrdersConsistently(compare)
    requires SortedBy(sorted, compare)
    requires i < InsertPos(sorted, x, compare)
    ensures compare(sorted[i], x) <= 0
  {
    var p := InsertPos(sorted, x, compare);
    var y := sorted[p - 1];
    assert compare(y, x) <= 0;
    if i < p - 1 {
      assert compare(sorted[i], y) <= 0;
    }
  }

  /** `x` is not after any element behind the landing place. */
  lemma AfterLanding<T(!new)>(sorted: seq<T>, x: T, compare: (T, T) -> int, k: nat)
    requires OrdersConsistently(compare)
    requires InsertPos(sorted, x, compare) <= k < |sorted|
    ensures compare(x, sorted[k]) <= 0
  {
    assert compare(sorted[k], x) > 0;
  }

  /** Two positions of the list with `x` inserted are in order. */
  lemma InsertSortedPair<T(!new)>(sorted: seq<T>, x: T, compare: (T, T) -> int, i: nat, j: nat)
    requires OrdersConsistently(compare)
    requires SortedBy(sorted, compare)
    requires i < j <= |sorted|
    ensures compare(Insert(sorted, x, compare)[i], Insert(sorted, x, compare)[j]) <= 0
  {
    var p := InsertPos(sorted, x, compare);
    InsertAt(sorted, x, compare, i);
    InsertAt(sorted, x, compare, j);
    if j == p {
      BeforeLanding(sorted, x, compare, i);
    } else if i == p {
      AfterLanding(sorted, x, compare, j - 1);
    } else {
      var i' := if i < p then i else i - 1;
      var j' := if j < p then j else j - 1;
      assert compare(sorted[i'], sorted[j']) <= 0;
    }
  }

  /** Inserting into a sorted list keeps it sorted, when the comparator orders consistently. */
  lemma InsertSorted<T(!new)>(sorted: seq<T>, x: T, compare: (T, T) -> int)
    requires OrdersConsistently(compare)
    requires SortedBy(sorted, compare)
    ensures SortedBy(Insert(sorted, x, compare), compare)
  {
    var r := Insert(sorted, x, compare);
    forall i, j | 0 <= i < j < |r| ensures compare(r[i], r[j]) <= 0 {
      InsertSortedPair(sorted, x, compare, i, j);
    }
  }

  /** With a comparator that orders consistently, the sort puts every element before those it is not after. */
  lemma {:induction false} InsertionSortSorted<T(!new)>(s: seq<T>, compare: (T, T) -> int)
    requires OrdersConsistently(compare)
    ensures SortedBy(InsertionSort(s, compare), compare)
  {
    if s != [] {
      var n := |s| - 1;
      InsertionSortSorted(s[..n], compare);
      InsertSorted(InsertionSort(s[..n], compare), s[n], compare);
    }
  }

  /** Sorting one more element inserts it into the sorted prefix. */
  lemma InsertionSortPrefix<T>(s: seq<T>, i: nat, compare: (T, T) -> int)
    requires i < |s|
    ensures InsertionSort(s[..i + 1], compare) == Insert(InsertionSort(s[..i], compare), s[i], compare)
  {
    assert s[..i + 1][..i] == s[..i];
  }

  /**
   * With `x` at position `j`, the elements in front of it unmoved and those
   * behind it moved up by one, a list is `sorted` with `x` inserted, provided
   * `x` stopped at its landing place.
   */
  lemma PlacedIsInserted<T>(sorted: seq<T>, x: T, compare: (T, T) -> int, j: nat, placed: seq<T>)
    requires j <= |sorted| && |placed| == |sorted| + 1
    requires j > 0 ==> compare(sorted[j - 1], x) <= 0
    requires forall k :: j <= k < |sorted| ==> compare(sorted[k], x) > 0
    requires forall k :: 0 <= k < j ==> placed[k] == sorted[k]
    requires placed[j] == x
    requires forall k :: j < k < |placed| ==> placed[k] == sorted[k - 1]
    ensures placed == Insert(sorted, x, compare)
  {
    InsertPosUnique(sorted, x, compare, j);
    forall k | 0 <= k < |placed| ensures placed[k] == Insert(sorted, x, compare)[k] {
      InsertAt(sorted, x, compare, k);
    }
  }

  /** One pass of the sort: moves `a[i]` forward past the elements of `a[..i]` that belong after it. */
  method InsertIntoPrefix<T>(a: array<T>, i: nat, compare: (T, T) -> int)
    requires i < a.Length
    modifies a
    ensures a[..i + 1] == Insert(old(a[..i]), old(a[i]), compare)
    ensures forall k :: i < k < a.Length ==> a[k] == old(a[k])
  {
    ghost var sorted := a[..i];
    var x := a[i];
    var j := i;
    while j > 0 && compare(a[j - 1], x) > 0
      invariant 0 <= j <= i
      invariant forall k :: 0 <= k < j ==> a[k] == sorted[k]
      invariant forall k :: j < k <= i ==> a[k] == sorted[k - 1]
      invariant forall k :: i < k < a.Length ==> a[k] == old(a[k])
      invariant forall k :: j <= k < i ==> compare(sorted[k], x) > 0
    {
      a[j] := a[j - 1];
      j := j - 1;
    }
    a[j] := x;
    PlacedIsInserted(sorted, x, compare, j, a[..i + 1]);
  }

  /** `a.sort(compare)`: sorts the array in place. */
  method SortInPlace<T>(a: array<T>, compare: (T, T) -> int)
    modifies a
    ensures a[..] == InsertionSort(old(a[..]), compare)
  {
    ghost var input := a[..];
    var i := 0;
    while i < a.Length
      invariant 0 <= i <= a.Length
      invariant a[..i] == InsertionSort(input[..i], compare)
      invariant forall k :: i <= k < a.Length ==> a[k] == input[k]
    {
      InsertionSortPrefix(input, i, compare);
      InsertIntoPrefix(a, i, compare);
      i := i + 1;
    }
    assert input[..a.Length] == input;
  }

  /** No two elements of `s` share a key. */
  predicate DistinctBy<T, K(==)>(s: seq<T>, key: T -> K)
  {
    forall i, j :: 0 <= i < j < |s| ==> key(s[i]) != key(s[j])
  }

  /** An element counted twice sits at two places. */
  lemma {:induction false} TwiceAtTwoPlaces<T>(s: seq<T>, x: T)
    requires multiset(s)[x] >= 2
    ensures exists i, j :: 0 <= i < j < |s| && s[i] == x && s[j] == x
  {
    var t := s[1..];
    assert s == [s[0]] + t;
    if s[0] == x {
      assert x in multiset(t);
      var j :| 0 <= j < |t| && t[j] == x;
      assert s[0] == x && s[j + 1] == x;
    } else {
      TwiceAtTwoPlaces(t, x);
      var i, j :| 0 <= i < j < |t| && t[i] == x && t[j] == x;
      assert s[i + 1] == x && s[j + 1] == x;
    }
  }

  /** Rearranging a list cannot make two of its keys equal. */
  lemma PermutationKeepsDistinct<T, K>(r: seq<T>, s: seq<T>, key: T -> K)
    requires multiset(r) == multiset(s)
    requires DistinctBy(s, key)
    ensures DistinctBy(r, key)
  {
    forall i, j | 0 <= i < j < |r| ensures key(r[i]) != key(r[j]) {
      if r[i] == r[j] {
        assert r == r[..j] + [r[j]] + r[j + 1..];
        assert r[i] in multiset(r[..j]);
        assert multiset(r)[r[j]] >= 2;
        TwiceAtTwoPlaces(s, r[j]);
      } else {
        assert r[i] in multiset(s) && r[j] in multiset(s);
        var i' :| 0 <= i' < |s| && s[i'] == r[i];
        var j' :| 0 <= j' < |s| && s[j'] == r[j];
        assert i' < j' || j' < i';
      }
    }
  }
}
