/** The unstable sort: quicksort with a depth limit and unguarded scans, heapsort beyond
    the limit, and one insertion sort at the end. */
module Introsort {
  import opened Order
  import opened Stable
  import opened Permute
  import opened Powers
  import opened Arithmetic
  import Heap
  import StableSort

  function Median<T>(less: (T, T) -> bool, a: T, b: T, c: T): T {
    if less(a, b) then
      if less(b, c) then b else if less(a, c) then c else a
    else if less(a, c) then a
    else if less(b, c) then c
    else b
  }

  /** The median is one of the three, and not only the first of them is as small, nor only the first as great. */
  lemma MedianBetween<T(!new)>(less: (T, T) -> bool, a: T, b: T, c: T)
    requires StrictWeakOrder(less)
    ensures var m := Median(less, a, b, c);
      && (m == a || m == b || m == c)
      && (!less(m, b) || !less(m, c)) && (!less(b, m) || !less(c, m))
  {
  }

  ghost predicate NoneGreater<T>(less: (T, T) -> bool, s: seq<T>, lo: nat, hi: nat, pivot: T) {
    lo <= hi <= |s| && forall k {:trigger s[k]} :: lo <= k < hi ==> !less(pivot, s[k])
  }

  ghost predicate NoneLess<T>(less: (T, T) -> bool, s: seq<T>, lo: nat, hi: nat, pivot: T) {
    lo <= hi <= |s| && forall k {:trigger s[k]} :: lo <= k < hi ==> !less(s[k], pivot)
  }

  /** Nothing before cut is greater than the pivot, nothing from cut on is less. */
  ghost predicate Split<T>(less: (T, T) -> bool, s: seq<T>, first: nat, cut: nat, last: nat, pivot: T) {
    NoneGreater(less, s, first, cut, pivot) && NoneLess(less, s, cut, last, pivot)
  }

  /** The first scan: stops at an element that is not less than the pivot; ghost stop is one. */
  method ScanUp<T(!new)>(less: (T, T) -> bool, a: array<T>, first0: nat, pivot: T, ghost stop: nat) returns (first: nat)
    requires StrictWeakOrder(less) && first0 <= stop < a.Length && !less(a[stop], pivot)
    ensures first0 <= first <= stop && !less(a[first], pivot) && NoneGreater(less, a[..], first0, first, pivot)
  {
    first := first0;
    while less(a[first], pivot)
      invariant first0 <= first <= stop && forall k :: first0 <= k < first ==> !less(pivot, a[k])
      decreases stop - first
    {
      first := first + 1;
    }
  }

  method ScanDown<T(!new)>(less: (T, T) -> bool, a: array<T>, last0: nat, pivot: T, ghost stop: nat) returns (last: nat)
    requires StrictWeakOrder(less) && stop < last0 <= a.Length && !less(pivot, a[stop])
    ensures stop <= last < last0 && !less(pivot, a[last]) && NoneLess(less, a[..], last + 1, last0, pivot)
  {
    last := last0 - 1;
    while less(pivot, a[last])
      invariant stop <= last < last0 && forall k :: last < k < last0 ==> !less(a[k], pivot)
      decreases last
    {
      last := last - 1;
    }
  }

  /** What both scans have passed. */
  ghost predicate Passed<T>(less: (T, T) -> bool, s: seq<T>, first0: nat, first: nat, last: nat, last0: nat, pivot: T) {
    first <= last && NoneGreater(less, s, first0, first, pivot) && NoneLess(less, s, last, last0, pivot)
  }

  lemma PassedNone<T>(less: (T, T) -> bool, s: seq<T>, first: nat, last: nat, pivot: T)
    requires first <= last <= |s|
    ensures Passed(less, s, first, first, last, last, pivot)
  {
  }

  /** The scans went on, to elements that each belong to the other side, which are exchanged. */
  lemma PassedSwap<T>(less: (T, T) -> bool, s: seq<T>, t: seq<T>, first0: nat, was: nat, first: nat, last: nat, wasLast: nat, last0: nat, pivot: T)
    requires Passed(less, s, first0, was, wasLast, last0, pivot) && first < last < wasLast
    requires NoneGreater(less, s, was, first, pivot) && NoneLess(less, s, last + 1, wasLast, pivot)
    requires !less(s[first], pivot) && !less(pivot, s[last]) && t == s[first := s[last]][last := s[first]]
    ensures Passed(less, t, first0, first + 1, last, last0, pivot) && !less(pivot, t[first]) && !less(t[last], pivot)
  {
  }

  lemma PassedSplit<T>(less: (T, T) -> bool, s: seq<T>, first0: nat, was: nat, first: nat, last: nat, wasLast: nat, last0: nat, pivot: T)
    requires Passed(less, s, first0, was, wasLast, last0, pivot) && last <= first < last0 && last < wasLast
    requires NoneGreater(less, s, was, first, pivot) && NoneLess(less, s, last + 1, wasLast, pivot) && !less(s[first], pivot)
    ensures Split(less, s, first0, first, last0, pivot)
  {
  }

  /** The exchange of the two elements where the scans stopped. */
  method SwapStrays<T(!new)>(less: (T, T) -> bool, a: array<T>, ghost s: seq<T>, ghost first0: nat, ghost was: nat, first: nat, last: nat,
                             ghost wasLast: nat, ghost last0: nat, ghost pivot: T)
    requires last0 <= a.Length && Passed(less, a[..], first0, was, wasLast, last0, pivot) && first0 <= was <= first < last < wasLast <= last0
    requires NoneGreater(less, a[..], was, first, pivot) && NoneLess(less, a[..], last + 1, wasLast, pivot)
    requires !less(a[first], pivot) && !less(pivot, a[last]) && Permuted(s, a[..], first0, last0)
    modifies a
    ensures Permuted(s, a[..], first0, last0) && Passed(less, a[..], first0, first + 1, last, last0, pivot)
    ensures !less(pivot, a[first]) && !less(a[last], pivot)
  {
    hide Permuted, Passed, NoneGreater, NoneLess;
    ghost var t := a[..];
    Swap(a, first, last, first0, last0);
    ghost var u := a[..];
    PermutedTrans(s, t, u, first0, last0);
    PassedSwap(less, t, u, first0, was, first, last, wasLast, last0, pivot);
  }

  /** Neither scan checks the bounds.  low and high are elements that stop them at first:
      one, not at the front, that is not greater than the pivot, and one that is not less. */
  method UnguardedPartition<T(!new)>(less: (T, T) -> bool, a: array<T>, first0: nat, last0: nat, pivot: T, ghost low: nat, ghost high: nat)
    returns (cut: nat)
    requires StrictWeakOrder(less) && first0 < low < last0 <= a.Length && !less(pivot, a[low])
    requires first0 <= high < last0 && !less(a[high], pivot)
    modifies a
    ensures first0 < cut < last0 && Permuted(old(a[..]), a[..], first0, last0) && Split(less, a[..], first0, cut, last0, pivot)
  {
    hide StrictWeakOrder, Permuted, Passed, Split, NoneGreater, NoneLess;
    ghost var s := a[..];
    SelfPermuted(s, first0, last0);
    PassedNone(less, s, first0, last0, pivot);
    var first, last := first0, last0;
    ghost var lo, hi := low, high;
    while true
      invariant first0 <= first <= hi < last0 && first0 <= lo < last <= last0
      invariant first <= last && (first == first0 ==> lo > first0)
      invariant !less(pivot, a[lo]) && !less(a[hi], pivot) && Permuted(s, a[..], first0, last0)
      invariant Passed(less, a[..], first0, first, last, last0, pivot)
      decreases last - first
    {
      ghost var was, wasLast := first, last;
      first := ScanUp(less, a, first, pivot, hi);
      last := ScanDown(less, a, last, pivot, lo);
      if !(first < last) {
        PassedSplit(less, a[..], first0, was, first, last, wasLast, last0, pivot);
        return first;
      }
      SwapStrays(less, a, s, first0, was, first, last, wasLast, last0, pivot);
      lo, hi := first, last;
      first := first + 1;
    }
  }

  /** The first sixteen elements contain one that no element is less than. */
  ghost predicate LeastEarly<T>(less: (T, T) -> bool, s: seq<T>, first: nat, last: nat) {
    first <= last <= |s| && (last - first > 16 ==> exists m :: first <= m < first + 16 && LeastAt(less, s, first, last, m))
  }

  ghost predicate LeastAt<T>(less: (T, T) -> bool, s: seq<T>, first: nat, last: nat, m: nat) {
    first <= m < last <= |s| && forall k {:trigger s[k]} :: first <= k < last ==> !less(s[k], s[m])
  }

  /** Nothing from last on is less than anything before it. */
  ghost predicate Front<T>(less: (T, T) -> bool, s: seq<T>, first: nat, last: nat, last0: nat) {
    first <= last <= last0 <= |s| && forall j, k {:trigger s[j], s[k]} :: first <= j < last <= k < last0 ==> !less(s[k], s[j])
  }

  /** The partition and the sorting of its upper part keep what is behind in place. */
  lemma FrontCut<T(!new)>(less: (T, T) -> bool, s: seq<T>, t: seq<T>, u: seq<T>, first: nat, cut: nat, last: nat, last0: nat, pivot: T)
    requires StrictWeakOrder(less) && Front(less, s, first, last, last0) && first < cut < last
    requires Permuted(s, t, first, last) && Split(less, t, first, cut, last, pivot) && Permuted(t, u, cut, last)
    ensures Front(less, u, first, cut, last0) && Permuted(s, u, first, last)
  {
    PermutedWider(t, u, cut, last, first, last);
    PermutedTrans(s, t, u, first, last);
    forall j, k | first <= j < cut <= k < last0 ensures !less(u[k], u[j]) {
      assert u[j] == t[j];
      if k < last {
        var k' := PermutedIn(t, u, cut, last, k);
        assert !less(t[k'], pivot) && !less(pivot, t[j]);
      } else {
        var j' := PermutedIn(s, t, first, last, j);
        assert u[k] == t[k] == s[k];
      }
    }
  }

  lemma {:induction false} LeastExists<T(!new)>(less: (T, T) -> bool, s: seq<T>, first: nat, last: nat) returns (m: nat)
    requires StrictWeakOrder(less) && first < last <= |s|
    ensures LeastAt(less, s, first, last, m)
    decreases last - first
  {
    m := first;
    if first + 1 < last {
      m := LeastExists(less, s, first + 1, last);
      if less(s[first], s[m]) { m := first; }
    }
  }

  lemma FrontLeast<T(!new)>(less: (T, T) -> bool, s: seq<T>, first: nat, last: nat, last0: nat)
    requires StrictWeakOrder(less) && Front(less, s, first, last, last0) && first < last && (last - first <= 16 || Sorted(less, s[first..last]))
    ensures LeastEarly(less, s, first, last0)
  {
    var m := first;
    if last - first <= 16 {
      m := LeastExists(less, s, first, last);
    } else {
      forall k | first <= k < last ensures !less(s[k], s[first]) { assert s[k] == s[first..last][k - first]; }
    }
    assert LeastAt(less, s, first, last0, m);
  }

  lemma StillFront<T(!new)>(less: (T, T) -> bool, s: seq<T>, t: seq<T>, first: nat, last: nat, last0: nat)
    requires Front(less, s, first, last, last0) && Permuted(s, t, first, last)
    ensures Front(less, t, first, last, last0)
  {
    forall j, k | first <= j < last <= k < last0 ensures !less(t[k], t[j]) {
      var j' := PermutedIn(s, t, first, last, j);
      assert t[k] == s[k];
    }
  }

  /** One cut around the median of three. */
  method Cut<T(!new)>(less: (T, T) -> bool, a: array<T>, first: nat, last: nat) returns (cut: nat, ghost pivot: T)
    requires StrictWeakOrder(less) && first + 16 < last <= a.Length
    modifies a
    ensures first < cut < last && Permuted(old(a[..]), a[..], first, last) && Split(less, a[..], first, cut, last, pivot)
  {
    var x, y, z := a[first], a[first + (last - first) / 2], a[last - 1];
    var m := Median(less, x, y, z);
    pivot := m;
    MedianBetween(less, x, y, z);
    ghost var middle := first + (last - first) / 2;
    ghost var low := if !less(m, y) then middle else last - 1;
    ghost var high := if !less(y, m) then middle else last - 1;
    cut := UnguardedPartition(less, a, first, last, m, low, high);
  }

  /** Recursion goes no deeper than the limit; `deepest` is the number of nested calls. */
  method IntrosortLoop<T(!new)>(less: (T, T) -> bool, a: array<T>, first: nat, last0: nat, depth0: nat) returns (ghost deepest: nat)
    requires StrictWeakOrder(less) && first < last0 <= a.Length
    modifies a
    ensures Permuted(old(a[..]), a[..], first, last0) && LeastEarly(less, a[..], first, last0) && deepest <= depth0
    decreases depth0
  {
    hide StrictWeakOrder, Split, Front, LeastEarly, Sorted;
    ghost var s := a[..];
    var last: nat, depth: nat := last0, depth0;
    deepest := 0;
    FrontWhole(less, s, first, last);
    while last - first > 16
      invariant first < last <= last0 && depth <= depth0 && deepest <= depth0 && Permuted(s, a[..], first, last0) && Front(less, a[..], first, last, last0)
      decreases last
    {
      ghost var t := a[..];
      if depth == 0 {
        Heap.PartialSort(less, a, first, last, last);
        StillFront(less, t, a[..], first, last, last0);
        assert a[first..last] == a[..][first..last];
        FrontLeast(less, a[..], first, last, last0);
        PermutedWider(t, a[..], first, last, first, last0);
        PermutedTrans(s, t, a[..], first, last0);
        return;
      }
      depth := depth - 1;
      var cut;
      ghost var pivot;
      cut, pivot := Cut(less, a, first, last);
      ghost var u := a[..];
      ghost var below := IntrosortLoop(less, a, cut, last, depth);
      deepest := if below + 1 > deepest then below + 1 else deepest;
      FrontCut(less, t, u, a[..], first, cut, last, last0, pivot);
      PermutedWider(t, a[..], first, last, first, last0);
      PermutedTrans(s, t, a[..], first, last0);
      last := cut;
    }
    FrontLeast(less, a[..], first, last, last0);
  }

  lemma FrontWhole<T(!new)>(less: (T, T) -> bool, s: seq<T>, first: nat, last: nat)
    requires first <= last <= |s|
    ensures Front(less, s, first, last, last)
  {
  }

  /** The largest power of two that is not greater than n. */
  method Lg(n0: nat) returns (k: nat)
    requires n0 > 0
    ensures Pow2(k) <= n0 < Pow2(k + 1)
  {
    k := 0;
    var n := n0;
    while n != 1
      invariant n > 0 && Scaled(n, k, n0)
      decreases n
    {
      Halved(n, k, n0);
      n := n / 2;
      k := k + 1;
    }
  }

  /** n is n0 divided by 2^k. */
  ghost predicate Scaled(n: nat, k: nat, n0: nat) { n * Pow2(k) <= n0 < (n + 1) * Pow2(k) }

  lemma Halved(n: nat, k: nat, n0: nat)
    requires n > 1 && Scaled(n, k, n0)
    ensures n / 2 > 0 && Scaled(n / 2, k + 1, n0)
  {
    var h, p := n / 2, Pow2(k);
    assert (h + h) * p <= n * p && (n + 1) * p <= (h + h + 2) * p by {
      MulMonotone(h + h, n, p);
      MulMonotone(n + 1, h + h + 2, p);
    }
    assert (h + h) * p == h * (2 * p) && (h + h + 2) * p == (h + 1) * (2 * p);
  }

  // ---------- the insertion sort at the end ----------

  lemma SortedPermuted<T(!new)>(less: (T, T) -> bool, s: seq<T>, t: seq<T>, first: nat, last: nat)
    requires StrictWeakOrder(less) && StableSort.SortedAt(less, s, t, first, last)
    ensures Permuted(s, t, first, last) && Sorted(less, t[first..last])
  {
    SamePermutes(less, s[first..last], t[first..last]);
  }

  /** Sorting the first elements, with a least one among them, brings a least one to the front. */
  lemma LeastFirst<T(!new)>(less: (T, T) -> bool, s: seq<T>, t: seq<T>, first: nat, mid: nat, last: nat, m: nat)
    requires StrictWeakOrder(less) && first <= m < mid <= last <= |s| && LeastAt(less, s, first, last, m)
    requires Permuted(s, t, first, mid) && Sorted(less, t[first..mid])
    ensures LeastAt(less, t, first, last, first)
  {
    PermutedBack(s, t, first, mid);
    var p := PermutedIn(t, s, first, mid, m);
    forall i | first <= i < mid ensures !less(t[i], t[first]) { assert t[i] == t[first..mid][i - first] && t[first] == t[first..mid][0]; }
    forall k | first <= k < last ensures !less(t[k], t[first]) {
      if k >= mid { assert t[k] == s[k]; }
    }
  }

  lemma PermutedBack<T(!new)>(s: seq<T>, t: seq<T>, lo: int, hi: int)
    requires Permuted(s, t, lo, hi)
    ensures Permuted(t, s, lo, hi)
  {
    forall k | 0 <= k < |s| && !(lo <= k < hi) ensures s[k] == t[k] { assert t[k] == s[k]; }
  }

  /** Inserts the elements of [mid, last) into the sorted ones before them; no bound is checked. */
  method UnguardedInsertionSort<T(!new)>(less: (T, T) -> bool, a: array<T>, ghost first: nat, mid: nat, last: nat)
    requires StrictWeakOrder(less) && first < mid <= last <= a.Length && Sorted(less, a[first..mid]) && LeastAt(less, a[..], first, last, first)
    modifies a
    ensures StableSort.SortedAt(less, old(a[..]), a[..], first, last)
  {
    hide StrictWeakOrder, Sorted, StableSort.SortedAt, Permuted;
    ghost var s := a[..];
    assert s[first..mid] == a[first..mid];
    SortedStart(less, s, first, mid);
    for i := mid to last
      invariant StableSort.SortedAt(less, s, a[..], first, i) && LeastAt(less, a[..], first, last, first)
    {
      ghost var t := a[..];
      SortedPermuted(less, s, t, first, i);
      assert t[first..i] == a[first..i];
      StableSort.UnguardedLinearInsert(less, a, first, i, a[i]);
      StableSort.InsertedOne(less, s, t, a[..], first, i);
      SortedPermuted(less, t, a[..], first, i + 1);
      LeastFirst(less, t, a[..], first, i + 1, last, first);
    }
  }

  lemma SortedStart<T(!new)>(less: (T, T) -> bool, s: seq<T>, first: nat, mid: nat)
    requires first <= mid <= |s| && Sorted(less, s[first..mid])
    ensures StableSort.SortedAt(less, s, s, first, mid)
  {
    SameRefl(less, s[first..mid]);
  }

  method FinalInsertionSort<T(!new)>(less: (T, T) -> bool, a: array<T>, first: nat, last: nat)
    requires StrictWeakOrder(less) && first <= last <= a.Length && LeastEarly(less, a[..], first, last)
    modifies a
    ensures Permuted(old(a[..]), a[..], first, last) && Sorted(less, a[first..last])
  {
    hide StrictWeakOrder, Sorted, StableSort.SortedAt, LeastAt;
    ghost var s := a[..];
    if last - first > 16 {
      ghost var m :| first <= m < first + 16 && LeastAt(less, s, first, last, m);
      StableSort.InsertionSort(less, a, first, first + 16);
      ghost var t := a[..];
      SortedPermuted(less, s, t, first, first + 16);
      LeastFirst(less, s, t, first, first + 16, last, m);
      assert t[first..first + 16] == a[first..first + 16];
      UnguardedInsertionSort(less, a, first, first + 16, last);
      SortedPermuted(less, t, a[..], first, last);
      PermutedWider(s, t, first, first + 16, first, last);
      PermutedTrans(s, t, a[..], first, last);
    } else {
      StableSort.InsertionSort(less, a, first, last);
      SortedPermuted(less, s, a[..], first, last);
    }
    assert a[first..last] == a[..][first..last];
  }

  /** Calls nest no deeper than twice the logarithm of the number of elements. */
  method Sort<T(!new)>(less: (T, T) -> bool, a: array<T>, first: nat, last: nat) returns (ghost deepest: nat, ghost log: nat)
    requires StrictWeakOrder(less) && first <= last <= a.Length
    modifies a
    ensures Permuted(old(a[..]), a[..], first, last) && Sorted(less, a[first..last])
    ensures deepest <= 2 * log && (first < last ==> Pow2(log) <= last - first)
  {
    hide StrictWeakOrder, LeastEarly;
    deepest, log := 0, 0;
    if first != last {
      ghost var s := a[..];
      var k := Lg(last - first);
      log := k;
      deepest := IntrosortLoop(less, a, first, last, k * 2);
      ghost var t := a[..];
      FinalInsertionSort(less, a, first, last);
      PermutedTrans(s, t, a[..], first, last);
    }
  }
}
