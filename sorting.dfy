/** A stand-in for sort.Slice: the insertion sort the Go runtime runs on short
    slices, with the comparator passed as a function of two elements.

    The sort permutes the array whatever the comparator is. It leaves the
    elements in order of a preorder `le` when the comparator agrees with
    `le` (see Agrees); a comparator that does not agree with any such preorder
    leaves the result unspecified beyond the permutation. */
module Sorting {

  /** le is transitive. */
  ghost predicate Transitive<T(!new)>(le: (T, T) -> bool) {
    forall x, y, z :: le(x, y) && le(y, z) ==> le(x, z)
  }

  /** The comparator less agrees with the preorder le: less(x, y) means x may
      precede y, and !less(x, y) means y may precede x. */
  ghost predicate Agrees<T(!new)>(less: (T, T) -> bool, le: (T, T) -> bool) {
    forall x, y :: (less(x, y) ==> le(x, y)) && (!less(x, y) ==> le(y, x))
  }

  /** Within s[lo..hi], every element is le every later one. */
  ghost predicate SortedRange<T>(s: seq<T>, lo: int, hi: int, le: (T, T) -> bool) {
    forall x, y :: lo <= x < y < hi && 0 <= x && y < |s| ==> le(s[x], s[y])
  }

  /** Every element of s is le every later one. */
  ghost predicate SortedBy<T>(s: seq<T>, le: (T, T) -> bool) {
    SortedRange(s, 0, |s|, le)
  }

  /** No element is less than the one just before it: insertion sort leaves
      such a sequence as it is. */
  predicate NoInversions<T>(s: seq<T>, less: (T, T) -> bool) {
    forall k :: 0 < k < |s| ==> !less(s[k], s[k - 1])
  }

  /** The state of the insertion of the element first at i into the sorted
      prefix: it now sits at j; s[..j] and s[j + 1..i + 1] are each in order,
      everything before j precedes everything after it, and the element at j
      precedes everything after it. */
  ghost predicate Inserting<T>(s: seq<T>, i: int, j: int, le: (T, T) -> bool)
    requires 0 <= j <= i < |s|
  {
    && SortedRange(s, 0, j, le)
    && SortedRange(s, j + 1, i + 1, le)
    && (forall k, m :: 0 <= k < j < m <= i ==> le(s[k], s[m]))
    && (forall m :: j < m <= i ==> le(s[j], s[m]))
  }

  lemma InsertStep<T>(s: seq<T>, t: seq<T>, i: int, j: int, le: (T, T) -> bool)
    requires 0 < j <= i < |s|
    requires Inserting(s, i, j, le)
    requires le(s[j], s[j - 1])
    requires t == s[j - 1 := s[j]][j := s[j - 1]]
    ensures Inserting(t, i, j - 1, le)
  {
  }

  lemma InsertDone<T(!new)>(s: seq<T>, i: int, j: int, le: (T, T) -> bool)
    requires Transitive(le)
    requires 0 <= j <= i < |s|
    requires Inserting(s, i, j, le)
    requires j > 0 ==> le(s[j - 1], s[j])
    ensures SortedRange(s, 0, i + 1, le)
  {
  }

  /** Swaps a[j - 1] and a[j]. */
  method SwapAdjacent<T>(a: array<T>, j: int)
    requires 0 < j < a.Length
    modifies a
    ensures a[..] == old(a[..])[j - 1 := old(a[j])][j := old(a[j - 1])]
    ensures multiset(a[..]) == multiset(old(a[..]))
  {
    a[j - 1], a[j] := a[j], a[j - 1];
  }

  /** One round of Go's insertionSort: the element at i is swapped towards the
      front while it is less than its predecessor. */
  method Insert<T(!new)>(a: array<T>, i: int, less: (T, T) -> bool, ghost le: (T, T) -> bool)
    requires 0 < i < a.Length
    modifies a
    ensures multiset(a[..]) == multiset(old(a[..]))
    ensures Transitive(le) && Agrees(less, le) && SortedRange(old(a[..]), 0, i, le) ==> SortedRange(a[..], 0, i + 1, le)
    ensures !less(old(a[i]), old(a[i - 1])) ==> a[..] == old(a[..])
  {
    ghost var ordered := Transitive(le) && Agrees(less, le) && SortedRange(old(a[..]), 0, i, le);
    ghost var stays := !less(a[i], a[i - 1]);
    var j := i;
    while j > 0 && less(a[j], a[j - 1])
      invariant 0 <= j <= i
      invariant multiset(a[..]) == multiset(old(a[..]))
      invariant ordered ==> Inserting(a[..], i, j, le)
      invariant stays ==> j == i
      invariant j == i ==> a[..] == old(a[..])
    {
      ghost var s := a[..];
      SwapAdjacent(a, j);
      if ordered {
        InsertStep(s, a[..], i, j, le);
      }
      j := j - 1;
    }
    if ordered {
      InsertDone(a[..], i, j, le);
    }
  }

  /** Sorts a in place the way Go's insertionSort does. */
  method InsertionSort<T(!new)>(a: array<T>, less: (T, T) -> bool, ghost le: (T, T) -> bool)
    modifies a
    ensures multiset(a[..]) == multiset(old(a[..]))
    ensures Transitive(le) && Agrees(less, le) ==> SortedBy(a[..], le)
    ensures NoInversions(old(a[..]), less) ==> a[..] == old(a[..])
  {
    var i := 1;
    while i < a.Length
      invariant 1 <= i && (a.Length > 0 ==> i <= a.Length)
      invariant multiset(a[..]) == multiset(old(a[..]))
      invariant Transitive(le) && Agrees(less, le) ==> SortedRange(a[..], 0, i, le)
      invariant NoInversions(old(a[..]), less) ==> a[..] == old(a[..])
    {
      Insert(a, i, less, le);
      i := i + 1;
    }
  }
}
