/** The three in-place sorts of the test cases, for arrays of any length. */
module Sorting {

  ghost predicate Sorted(s: seq<int>) {
    forall i, j | 0 <= i < j < |s| :: s[i] <= s[j]
  }

  // ----- The sorted form of a sequence

  function Insert(s: seq<int>, x: int): seq<int> {
    if s == [] || s[|s| - 1] <= x then s + [x] else Insert(s[..|s| - 1], x) + [s[|s| - 1]]
  }

  function Sort(s: seq<int>): seq<int> {
    if s == [] then [] else Insert(Sort(s[..|s| - 1]), s[|s| - 1])
  }

  lemma {:induction false} InsertPermutes(s: seq<int>, x: int)
    ensures multiset(Insert(s, x)) == multiset(s) + multiset{x}
  {
    if s != [] && s[|s| - 1] > x {
      var front := s[..|s| - 1];
      InsertPermutes(front, x);
      assert s == front + [s[|s| - 1]];
    }
  }

  lemma {:induction false} InsertSorts(s: seq<int>, x: int)
    requires Sorted(s)
    ensures Sorted(Insert(s, x))
    ensures forall i | 0 <= i < |Insert(s, x)| :: Insert(s, x)[i] <= x || (s != [] && Insert(s, x)[i] <= s[|s| - 1])
  {
    if s != [] && s[|s| - 1] > x {
      var front := s[..|s| - 1];
      InsertSorts(front, x);
      if front != [] {
        assert front[|front| - 1] <= s[|s| - 1];
      }
    }
  }

  lemma {:induction false} SortSorts(s: seq<int>)
    ensures Sorted(Sort(s)) && multiset(Sort(s)) == multiset(s)
  {
    if s != [] {
      SortSorts(s[..|s| - 1]);
      InsertSorts(Sort(s[..|s| - 1]), s[|s| - 1]);
      InsertPermutes(Sort(s[..|s| - 1]), s[|s| - 1]);
      assert s == s[..|s| - 1] + [s[|s| - 1]];
    }
  }

  lemma LastIsGreatest(a: seq<int>, b: seq<int>)
    requires Sorted(a) && a != [] && b != [] && multiset(a) == multiset(b)
    ensures b[|b| - 1] <= a[|a| - 1]
  {
    assert b[|b| - 1] in multiset(b);
    assert b[|b| - 1] in a;
  }

  lemma WithoutLast(a: seq<int>)
    requires a != []
    ensures multiset(a[..|a| - 1]) == multiset(a) - multiset{a[|a| - 1]}
  {
    assert a == a[..|a| - 1] + [a[|a| - 1]];
  }

  /** A multiset has only one sorted arrangement. */
  lemma {:induction false} SortedIsUnique(a: seq<int>, b: seq<int>)
    requires Sorted(a) && Sorted(b) && multiset(a) == multiset(b)
    ensures a == b
  {
    assert |multiset(a)| == |a| && |multiset(b)| == |b|;
    if a != [] {
      LastIsGreatest(a, b);
      LastIsGreatest(b, a);
      WithoutLast(a);
      WithoutLast(b);
      SortedIsUnique(a[..|a| - 1], b[..|b| - 1]);
      assert a == a[..|a| - 1] + [a[|a| - 1]];
    }
  }

  /** A sorted permutation of s is Sort(s). */
  lemma SortedPermutationIsSort(s: seq<int>, t: seq<int>)
    requires Sorted(t) && multiset(t) == multiset(s)
    ensures t == Sort(s)
  {
    SortSorts(s);
    SortedIsUnique(t, Sort(s));
  }

  /** Sorting again changes nothing. */
  lemma SortIdempotent(s: seq<int>)
    ensures Sort(Sort(s)) == Sort(s)
  {
    SortSorts(s);
    SortedPermutationIsSort(Sort(s), Sort(s));
  }

  // ----- Quick sort

  /** Cells outside [p, q] are as before, and the cells as a whole are the same values. */
  ghost predicate Rearranged(old': seq<int>, new': seq<int>, p: int, q: int) {
    && |old'| == |new'| && multiset(old') == multiset(new')
    && forall k | 0 <= k < |old'| && !(p <= k <= q) :: new'[k] == old'[k]
  }

  ghost predicate SortedBetween(s: seq<int>, p: int, q: int) {
    forall i, j | p <= i < j <= q && 0 <= i && j < |s| :: s[i] <= s[j]
  }

  /** Filling the hole at i with the value at j moves the hole to j. */
  lemma HoleMoves(s: seq<int>, i: nat, j: nat, pivot: int)
    requires i < |s| && j < |s|
    ensures multiset(s[i := s[j]][j := pivot]) == multiset(s[i := pivot])
  {
    if i != j {
      assert s[i := s[j]][j := pivot] == s[i := pivot][j := pivot][i := s[j]];
    }
  }

  /** The partition with a hole at h: putting the pivot there gives back the input's values; what lies before i is at
      most the pivot and what lies after j is greater. */
  ghost predicate Holed(s: seq<int>, before: seq<int>, p: int, q: int, i: int, j: int, h: int, pivot: int) {
    && 0 <= p <= i <= j <= q < |s| == |before| && (h == i || h == j)
    && multiset(s[h := pivot]) == multiset(before)
    && (forall k | 0 <= k < |s| && !(p <= k <= q) :: s[k] == before[k])
    && (forall k | p <= k < i :: s[k] <= pivot)
    && (forall k | j < k <= q :: s[k] > pivot)
  }

  lemma HoleFilled(s: seq<int>, before: seq<int>, p: int, q: int, i: int, j: int, h: int, g: int, pivot: int)
    requires Holed(s, before, p, q, i, j, h, pivot) && ((h == i && g == j) || (h == j && g == i))
    ensures Holed(s[h := s[g]], before, p, q, i, j, g, pivot)
  {
    HoleMoves(s, h, g, pivot);
  }

  lemma HoleScanned(s: seq<int>, before: seq<int>, p: int, q: int, i: int, j: int, i': int, j': int, h: int, pivot: int)
    requires Holed(s, before, p, q, i, j, h, pivot) && i <= i' <= j' <= j && (h == i' || h == j')
    requires forall k | i <= k < i' :: s[k] <= pivot
    requires forall k | j' < k <= j :: s[k] > pivot
    ensures Holed(s, before, p, q, i', j', h, pivot)
  {
  }

  lemma HoleOpened(s: seq<int>, p: int, q: int)
    requires 0 <= p <= q < |s|
    ensures Holed(s, s, p, q, p, q, p, s[p])
  {
    assert s[p := s[p]] == s;
  }

  lemma HoleClosed(s: seq<int>, before: seq<int>, p: int, q: int, i: int, pivot: int)
    requires Holed(s, before, p, q, i, i, i, pivot)
    ensures var t := s[i := pivot];
            && p <= i <= q && Rearranged(before, t, p, q)
            && (forall k | p <= k < i :: t[k] <= t[i])
            && (forall k | i < k <= q :: t[k] > t[i])
  {
  }

  /** `while (i < j && a[j] > pivot) j--` */
  method ScanDown(a: array<int>, i: int, j0: int, pivot: int) returns (j: int)
    requires 0 <= i <= j0 < a.Length
    ensures i <= j <= j0 && (i < j ==> a[j] <= pivot)
    ensures forall k | j < k <= j0 :: a[k] > pivot
  {
    j := j0;
    while i < j && a[j] > pivot
      invariant i <= j <= j0
      invariant forall k | j < k <= j0 :: a[k] > pivot
    {
      j := j - 1;
    }
  }

  /** `while (i < j && a[i] <= pivot) i++` */
  method ScanUp(a: array<int>, i0: int, j: int, pivot: int) returns (i: int)
    requires 0 <= i0 <= j < a.Length
    ensures i0 <= i <= j && (i < j ==> a[i] > pivot)
    ensures forall k | i0 <= k < i :: a[k] <= pivot
  {
    i := i0;
    while i < j && a[i] <= pivot
      invariant i0 <= i <= j
      invariant forall k | i0 <= k < i :: a[k] <= pivot
    {
      i := i + 1;
    }
  }

  /** `a[h] = a[g]`, which moves the hole from h to g. */
  method Fill(a: array<int>, h: int, g: int, ghost before: seq<int>, ghost p: int, ghost q: int, ghost i: int,
        ghost j: int, ghost pivot: int)
    requires 0 <= h < a.Length && 0 <= g < a.Length
    requires Holed(a[..], before, p, q, i, j, h, pivot) && ((h == i && g == j) || (h == j && g == i))
    modifies a
    ensures Holed(a[..], before, p, q, i, j, g, pivot)
    ensures a[h] == old(a[g])
  {
    HoleFilled(a[..], before, p, q, i, j, h, g, pivot);
    ghost var s := a[..];
    a[h] := a[g];
    assert a[..] == s[h := s[g]];
  }

  /** The pivot is the first cell. The loop moves a hole, so mid-loop the array is not a permutation of its input. */
  method Partition(a: array<int>, p: int, q: int) returns (m: int)
    requires 0 <= p <= q < a.Length
    modifies a
    ensures p <= m <= q
    ensures Rearranged(old(a[..]), a[..], p, q)
    ensures forall k | p <= k < m :: a[k] <= a[m]
    ensures forall k | m < k <= q :: a[k] > a[m]
    ensures a[m] == old(a[p])
  {
    hide Holed, Rearranged;
    var pivot := a[p];
    var i, j := p, q;
    ghost var before := a[..];
    HoleOpened(before, p, q);
    while i < j
      invariant p <= i <= j <= q
      invariant Holed(a[..], before, p, q, i, j, i, pivot)
      decreases j - i
    {
      ghost var i0, j0 := i, j;
      j := ScanDown(a, i, j, pivot);
      HoleScanned(a[..], before, p, q, i, j0, i, j, i, pivot);
      Fill(a, i, j, before, p, q, i, j, pivot);
      assert i0 < j ==> a[i0] <= pivot;
      i := ScanUp(a, i, j, pivot);
      assert i0 < j ==> i > i0;
      HoleScanned(a[..], before, p, q, i0, j, i, j, j, pivot);
      Fill(a, j, i, before, p, q, i, j, pivot);
    }
    HoleClosed(a[..], before, p, q, i, pivot);
    a[i] := pivot;
    m := i;
  }

  lemma PartsOfMultiset(s: seq<int>, p: nat, q: nat)
    requires p <= q <= |s|
    ensures multiset(s[p..q]) == multiset(s) - (multiset(s[..p]) + multiset(s[q..]))
  {
    var front := s[..p] + s[p..q];
    assert multiset(front) == multiset(s[..p]) + multiset(s[p..q]);
    assert s == front + s[q..];
  }

  lemma SliceRearranged(s: seq<int>, t: seq<int>, p: int, q: int)
    requires Rearranged(s, t, p, q) && 0 <= p <= q + 1 <= |s|
    ensures multiset(s[p..q + 1]) == multiset(t[p..q + 1])
  {
    assert s[..p] == t[..p] && s[q + 1..] == t[q + 1..];
    PartsOfMultiset(s, p, q + 1);
    PartsOfMultiset(t, p, q + 1);
  }

  /** The two recursive calls after a partition at m. */
  lemma SidesSorted(s: seq<int>, t: seq<int>, u: seq<int>, p: int, m: int, q: int)
    requires 0 <= p <= m <= q < |s|
    requires forall k | p <= k < m :: s[k] <= s[m]
    requires forall k | m < k <= q :: s[k] > s[m]
    requires Rearranged(s, t, p, m - 1) && SortedBetween(t, p, m - 1)
    requires Rearranged(t, u, m + 1, q) && SortedBetween(u, m + 1, q)
    ensures Rearranged(s, u, p, q) && SortedBetween(u, p, q)
  {
    LowSideBounded(s, t, p, m);
    HighSideBounded(t, u, m, q);
  }

  lemma LowSideBounded(s: seq<int>, t: seq<int>, p: int, m: int)
    requires 0 <= p <= m < |s| && Rearranged(s, t, p, m - 1) && forall k | p <= k < m :: s[k] <= s[m]
    ensures forall k | p <= k < m :: t[k] <= t[m]
  {
    SliceRearranged(s, t, p, m - 1);
    forall k | p <= k < m
      ensures t[k] <= t[m]
    {
      assert t[k] == t[p..m][k - p] && t[k] in multiset(s[p..m]);
    }
  }

  lemma HighSideBounded(s: seq<int>, t: seq<int>, m: int, q: int)
    requires 0 <= m <= q < |s| && Rearranged(s, t, m + 1, q) && forall k | m < k <= q :: s[k] > s[m]
    ensures forall k | m < k <= q :: t[k] > t[m]
  {
    SliceRearranged(s, t, m + 1, q);
    forall k | m < k <= q
      ensures t[k] > t[m]
    {
      assert t[k] == t[m + 1..q + 1][k - m - 1] && t[k] in multiset(s[m + 1..q + 1]);
    }
  }

  method QuickSort(a: array<int>, p: int, q: int)
    requires p < q ==> 0 <= p && q < a.Length
    modifies a
    ensures Rearranged(old(a[..]), a[..], p, q) && SortedBetween(a[..], p, q)
    decreases if p < q then q - p else 0
  {
    if p >= q {
      return;
    }
    var m := Partition(a, p, q);
    ghost var s := a[..];
    QuickSort(a, p, m - 1);
    ghost var t := a[..];
    QuickSort(a, m + 1, q);
    SidesSorted(s, t, a[..], p, m, q);
  }

  /** The call in the test case: the whole array, sorted. */
  method QuickSortAll(a: array<int>)
    modifies a
    ensures a[..] == Sort(old(a[..]))
  {
    ghost var before := a[..];
    QuickSort(a, 0, a.Length - 1);
    SortedPermutationIsSort(before, a[..]);
  }

  // ----- Bubble sort and select sort

  /** The cells from k on are sorted, and none is below a cell before k. */
  ghost predicate TopSorted(s: seq<int>, k: int) {
    forall i, j | 0 <= i < j < |s| && k <= j :: s[i] <= s[j]
  }

  method BubbleSort(a: array<int>)
    modifies a
    ensures a[..] == Sort(old(a[..]))
  {
    ghost var before := a[..];
    var n, j := a.Length, 0;
    while j < n
      invariant 0 <= j <= n
      invariant TopSorted(a[..], n - j) && multiset(a[..]) == multiset(before)
    {
      BubblePass(a, j);
      j := j + 1;
    }
    SortedPermutationIsSort(before, a[..]);
  }

  lemma SwapBelowTop(s: seq<int>, i: nat, k: int)
    requires TopSorted(s, k) && i + 1 < k <= |s|
    ensures TopSorted(s[i := s[i + 1]][i + 1 := s[i]], k)
  {
  }

  lemma TopExtended(s: seq<int>, k: nat)
    requires k < |s| && TopSorted(s, k + 1) && forall i | 0 <= i < k :: s[i] <= s[k]
    ensures TopSorted(s, k)
  {
  }

  /** The inner loop carries the greatest of the first n - j cells to their end. */
  method BubblePass(a: array<int>, j: int)
    requires 0 <= j < a.Length && TopSorted(a[..], a.Length - j)
    modifies a
    ensures TopSorted(a[..], a.Length - 1 - j) && multiset(a[..]) == multiset(old(a[..]))
  {
    hide TopSorted;
    var n, i := a.Length, 0;
    while i < n - 1 - j
      invariant 0 <= i <= n - 1 - j
      invariant TopSorted(a[..], n - j) && multiset(a[..]) == multiset(old(a[..]))
      invariant forall k | 0 <= k < i :: a[k] <= a[i]
    {
      if a[i] > a[i + 1] {
        SwapBelowTop(a[..], i, n - j);
        Swap(a, i, i + 1);
      }
      i := i + 1;
    }
    TopExtended(a[..], n - 1 - j);
  }

  method Swap(a: array<int>, i: nat, j: nat)
    requires i < a.Length && j < a.Length
    modifies a
    ensures a[..] == old(a[..])[i := old(a[j])][j := old(a[i])]
    ensures multiset(a[..]) == multiset(old(a[..]))
  {
    var t := a[i];
    a[i] := a[j];
    a[j] := t;
  }

  /** The cells before k are sorted, and none is above a cell from k on. */
  ghost predicate BottomSorted(s: seq<int>, k: int) {
    forall i, j | 0 <= i < j < |s| && i < k :: s[i] <= s[j]
  }

  method SelectSort(a: array<int>)
    modifies a
    ensures a[..] == Sort(old(a[..]))
  {
    ghost var before := a[..];
    var n, i := a.Length, 0;
    while i < n - 1
      invariant 0 <= i && (i < n || n == 0)
      invariant BottomSorted(a[..], i) && multiset(a[..]) == multiset(before)
    {
      var k := IndexOfLeast(a, i);
      Swap(a, i, k);
      i := i + 1;
    }
    SortedPermutationIsSort(before, a[..]);
  }

  method IndexOfLeast(a: array<int>, i: nat) returns (k: nat)
    requires i < a.Length
    ensures i <= k < a.Length
    ensures forall m | i <= m < a.Length :: a[k] <= a[m]
  {
    k := i;
    var j := i + 1;
    while j < a.Length
      invariant i <= k < j <= a.Length
      invariant forall m | i <= m < j :: a[k] <= a[m]
    {
      if a[j] < a[k] {
        k := j;
      }
      j := j + 1;
    }
  }
}
