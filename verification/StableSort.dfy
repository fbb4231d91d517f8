/** The stable sorts, in place over an array: insertion sort, the buffer-free
    merge by splitting and rotating, and the adaptive versions with a buffer. */
module StableSort {
  import opened Order
  import opened Stable
  import Rotate

  /** s and t agree outside [lo, hi). */
  ghost predicate Outside<T>(s: seq<T>, t: seq<T>, lo: int, hi: int) {
    0 <= lo <= hi <= |s| == |t| && forall k {:trigger t[k]} :: 0 <= k < |s| && !(lo <= k < hi) ==> t[k] == s[k]
  }

  /** t is s with [lo, hi) stably sorted. */
  ghost predicate SortedAt<T(!new)>(less: (T, T) -> bool, s: seq<T>, t: seq<T>, lo: int, hi: int) {
    Outside(s, t, lo, hi) && StablySorted(less, s[lo..hi], t[lo..hi])
  }

  lemma OutsideInner<T>(s: seq<T>, t: seq<T>, lo: int, hi: int, i: int, j: int)
    requires Outside(s, t, lo, hi) && 0 <= i <= j <= |s| && (j <= lo || hi <= i)
    ensures s[i..j] == t[i..j]
  {
  }

  lemma OutsideTrans<T>(s: seq<T>, t: seq<T>, u: seq<T>, lo: int, hi: int, lo': int, hi': int)
    requires Outside(s, t, lo, hi) && Outside(t, u, lo', hi')
    ensures Outside(s, u, if lo < lo' then lo else lo', if hi > hi' then hi else hi')
  {
    forall k | 0 <= k < |s| && !((if lo < lo' then lo else lo') <= k < (if hi > hi' then hi else hi'))
      ensures u[k] == s[k]
    {
      assert u[k] == t[k];
    }
  }

  // ---------- insertion sort ----------

  /** The element at index last moves down to its place; the elements moved are
      greater, and one at the front is not, so that no bound needs checking. */
  method UnguardedLinearInsert<T(!new)>(less: (T, T) -> bool, a: array<T>, ghost first: nat, last0: nat, value: T)
    requires StrictWeakOrder(less) && first < last0 < a.Length && a[last0] == value
    requires Sorted(less, a[first..last0]) && !less(value, a[first])
    modifies a
    ensures SortedAt(less, old(a[..]), a[..], first, last0 + 1)
  {
    ghost var before := a[..];
    var last := last0;
    var next := last - 1;
    while less(value, a[next])
      invariant first <= next == last - 1 < last0
      invariant forall j {:trigger a[j]} :: 0 <= j < a.Length ==>
        a[j] == if last < j <= last0 then before[j - 1] else before[j]
      invariant last < last0 ==> less(value, before[last])
      decreases last
    {
      a[last] := a[next];
      last := next;
      next := next - 1;
    }
    a[last] := value;
    InsertedAt(less, before, a[..], first, last, last0);
  }

  lemma InsertedAt<T(!new)>(less: (T, T) -> bool, s: seq<T>, t: seq<T>, first: int, p: int, last: int)
    requires StrictWeakOrder(less) && 0 <= first <= p <= last < |s| == |t| && Sorted(less, s[first..last])
    requires p < last ==> less(s[last], s[p])
    requires p > first ==> !less(s[last], s[p - 1])
    requires forall j {:trigger t[j]} :: 0 <= j < |t| ==>
      t[j] == if j == p then s[last] else if p < j <= last then s[j - 1] else s[j]
    ensures SortedAt(less, s, t, first, last + 1)
  {
    var u, v := s[first..last], s[last];
    InsertStable(less, u, v, p - first);
    assert s[first..last + 1] == u + [v];
    assert t[first..last + 1] == u[..p - first] + [v] + u[p - first..];
  }

  method LinearInsert<T(!new)>(less: (T, T) -> bool, a: array<T>, first: nat, last: nat)
    requires StrictWeakOrder(less) && first < last < a.Length
    requires Sorted(less, a[first..last])
    modifies a
    ensures SortedAt(less, old(a[..]), a[..], first, last + 1)
  {
    var value := a[last];
    ghost var before := a[..];
    if less(value, a[first]) {
      CopyBackward(a, first, last, last + 1);
      a[first] := value;
      InsertedAt(less, before, a[..], first, first, last);
    } else {
      UnguardedLinearInsert(less, a, first, last, value);
    }
  }

  /** Copies [first, last) to end at result, last element first. */
  method CopyBackward<T>(a: array<T>, first: nat, last0: nat, result0: nat)
    requires first <= last0 <= result0 <= a.Length
    modifies a
    ensures forall j {:trigger a[j]} :: 0 <= j < a.Length ==>
      a[j] == if first + result0 - last0 <= j < result0 then old(a[j - (result0 - last0)]) else old(a[j])
  {
    ghost var before := a[..];
    var d := result0 - last0;
    var last := last0;
    while last > first
      invariant first <= last <= last0
      invariant forall j {:trigger a[j]} :: 0 <= j < a.Length ==>
        a[j] == if last + d <= j < result0 then before[j - d] else before[j]
    {
      last := last - 1;
      a[last + d] := a[last];
    }
  }

  method InsertionSort<T(!new)>(less: (T, T) -> bool, a: array<T>, first: nat, last: nat)
    requires StrictWeakOrder(less) && first <= last <= a.Length
    modifies a
    ensures SortedAt(less, old(a[..]), a[..], first, last)
  {
    ghost var s := a[..];
    if first == last {
      SameRefl(less, s[first..last]);
      return;
    }
    SameRefl(less, s[first..first + 1]);
    for i := first + 1 to last
      invariant SortedAt(less, s, a[..], first, i)
    {
      ghost var t := a[..];
      LinearInsert(less, a, first, i);
      InsertedOne(less, s, t, a[..], first, i);
    }
  }

  lemma InsertedOne<T(!new)>(less: (T, T) -> bool, s: seq<T>, t: seq<T>, u: seq<T>, first: nat, i: nat)
    requires SortedAt(less, s, t, first, i) && SortedAt(less, t, u, first, i + 1)
    ensures SortedAt(less, s, u, first, i + 1)
  {
    OutsideTrans(s, t, u, first, i, first, i + 1);
    assert s[first..i + 1] == s[first..i] + [s[i]];
    OutsideInner(s, t, first, i, i, i + 1);
    assert t[first..i + 1] == t[first..i] + t[i..i + 1];
    assert s[i..i + 1] == [s[i]];
    SameRefl(less, s[i..i + 1]);
    SameConcat(less, s[first..i], t[first..i], s[i..i + 1], s[i..i + 1]);
    SameTrans(less, s[first..i + 1], t[first..i + 1], u[first..i + 1]);
  }

  // ---------- bounds ----------

  method LowerBound<T(!new)>(less: (T, T) -> bool, a: array<T>, first0: nat, last: nat, value: T) returns (first: nat)
    requires StrictWeakOrder(less) && first0 <= last <= a.Length && Sorted(less, a[first0..last])
    ensures first0 <= first <= last
    ensures forall i :: first0 <= i < first ==> less(a[i], value)
    ensures forall i :: first <= i < last ==> !less(a[i], value)
  {
    first := first0;
    var len := last - first;
    while len > 0
      invariant first0 <= first && 0 <= len && first + len <= last
      invariant forall i :: first0 <= i < first ==> less(a[i], value)
      invariant forall i :: first + len <= i < last ==> !less(a[i], value)
    {
      var half := len / 2;
      var middle := first + half;
      Ordered(less, a[first0..last]);
      forall i | first0 <= i < last
        ensures i <= middle ==> !less(a[middle], a[i])
        ensures middle <= i ==> !less(a[i], a[middle])
      {
        assert a[i] == a[first0..last][i - first0] && a[middle] == a[first0..last][middle - first0];
      }
      if less(a[middle], value) {
        first := middle + 1;
        len := len - half - 1;
      } else {
        len := half;
      }
    }
  }

  method UpperBound<T(!new)>(less: (T, T) -> bool, a: array<T>, first0: nat, last: nat, value: T) returns (first: nat)
    requires StrictWeakOrder(less) && first0 <= last <= a.Length && Sorted(less, a[first0..last])
    ensures first0 <= first <= last
    ensures forall i :: first0 <= i < first ==> !less(value, a[i])
    ensures forall i :: first <= i < last ==> less(value, a[i])
  {
    first := first0;
    var len := last - first;
    while len > 0
      invariant first0 <= first && 0 <= len && first + len <= last
      invariant forall i :: first0 <= i < first ==> !less(value, a[i])
      invariant forall i :: first + len <= i < last ==> less(value, a[i])
    {
      var half := len / 2;
      var middle := first + half;
      Ordered(less, a[first0..last]);
      forall i | first0 <= i < last
        ensures i <= middle ==> !less(a[middle], a[i])
        ensures middle <= i ==> !less(a[i], a[middle])
      {
        assert a[i] == a[first0..last][i - first0] && a[middle] == a[first0..last][middle - first0];
      }
      if less(value, a[middle]) {
        len := half;
      } else {
        first := middle + 1;
        len := len - half - 1;
      }
    }
  }

  lemma Ordered<T(!new)>(less: (T, T) -> bool, s: seq<T>)
    requires StrictWeakOrder(less) && Sorted(less, s)
    ensures forall i, j :: 0 <= i <= j < |s| ==> !less(s[j], s[i])
  {
  }

  // ---------- merging without a buffer ----------

  ghost predicate TwoRuns<T>(less: (T, T) -> bool, s: seq<T>, first: int, middle: int, last: int) {
    0 <= first <= middle <= last <= |s| && Sorted(less, s[first..middle]) && Sorted(less, s[middle..last])
  }

  /** A place to cut the two runs in two: half of the longer run, and the matching place in the other. */
  method ChooseCut<T(!new)>(less: (T, T) -> bool, a: array<T>, first: nat, middle: nat, last: nat)
    returns (firstCut: nat, secondCut: nat)
    requires StrictWeakOrder(less) && last <= a.Length && TwoRuns(less, a[..], first, middle, last)
    requires first < middle < last && last - first > 2
    ensures first <= firstCut <= middle <= secondCut <= last
    ensures first < secondCut && firstCut < last && (firstCut < middle || secondCut < last) && (first < firstCut || middle < secondCut)
    ensures Cut(less, a[first..middle], a[middle..last], firstCut - first, secondCut - middle)
  {
    ghost var s1, s2 := a[first..middle], a[middle..last];
    firstCut, secondCut := first, middle;
    if middle - first > last - middle {
      firstCut := first + (middle - first) / 2;
      secondCut := LowerBound(less, a, middle, last, a[firstCut]);
      CutAtFirst(less, s1, s2, firstCut - first, secondCut - middle);
    } else {
      secondCut := middle + (last - middle) / 2;
      firstCut := UpperBound(less, a, first, middle, a[secondCut]);
      CutAtSecond(less, s1, s2, firstCut - first, secondCut - middle);
    }
  }

  method MergeWithoutBuffer<T(!new)>(less: (T, T) -> bool, a: array<T>, first: nat, middle: nat, last: nat)
    requires StrictWeakOrder(less) && last <= a.Length && TwoRuns(less, a[..], first, middle, last)
    modifies a
    ensures SortedAt(less, old(a[..]), a[..], first, last)
    decreases last - first
  {
    ghost var s := a[..];
    if first == middle || middle == last {
      assert a[first..last] == if first == middle then a[middle..last] else a[first..middle];
      SameRefl(less, a[first..last]);
      return;
    }
    if last - first == 2 {
      if less(a[middle], a[first]) {
        a[first], a[middle] := a[middle], a[first];
        InsertedAt(less, s, a[..], first, first, middle);
      } else {
        SameRefl(less, a[first..last]);
      }
      return;
    }
    var firstCut, secondCut := ChooseCut(less, a, first, middle, last);
    Rotate.Rotate(a, firstCut, middle, secondCut);
    var newMiddle := firstCut + (secondCut - middle);
    ghost var t := a[..];
    AfterRotation(less, s, t, first, firstCut, middle, secondCut, last);
    MergeWithoutBuffer(less, a, first, firstCut, newMiddle);
    ghost var u := a[..];
    OutsideInner(t, u, first, newMiddle, newMiddle, secondCut);
    OutsideInner(t, u, first, newMiddle, secondCut, last);
    OutsideInner(t, u, first, newMiddle, newMiddle, last);
    MergeWithoutBuffer(less, a, newMiddle, secondCut, last);
    BothSides(less, s, t, u, a[..], first, firstCut, middle, secondCut, last);
  }

  lemma RotatedBlocks<T>(s: seq<T>, t: seq<T>, first: nat, middle: nat, last: nat)
    requires first <= middle <= last <= |s| && t == Rotate.Rotated(s, first, middle, last)
    ensures var m := first + (last - middle);
      Outside(s, t, first, last) && t[first..m] == s[middle..last] && t[m..last] == s[first..middle]
  {
  }

  /** After the rotation each side of the cut holds two runs. */
  lemma AfterRotation<T(!new)>(less: (T, T) -> bool, s: seq<T>, t: seq<T>, first: nat, firstCut: nat, middle: nat, secondCut: nat, last: nat)
    requires first <= firstCut <= middle <= secondCut <= last <= |s| && TwoRuns(less, s, first, middle, last)
    requires t == Rotate.Rotated(s, firstCut, middle, secondCut)
    ensures var newMiddle := firstCut + (secondCut - middle);
      var s1, s2 := s[first..middle], s[middle..last];
      && Outside(s, t, first, last)
      && t[first..newMiddle] == s1[..firstCut - first] + s2[..secondCut - middle]
      && t[newMiddle..last] == s1[firstCut - first..] + s2[secondCut - middle..]
      && TwoRuns(less, t, first, firstCut, newMiddle) && TwoRuns(less, t, newMiddle, secondCut, last)
  {
    var newMiddle := firstCut + (secondCut - middle);
    var s1, s2 := s[first..middle], s[middle..last];
    var i, j := firstCut - first, secondCut - middle;
    RotatedBlocks(s, t, firstCut, middle, secondCut);
    OutsideInner(s, t, firstCut, secondCut, first, firstCut);
    OutsideInner(s, t, firstCut, secondCut, secondCut, last);
    OutsideTrans(s, t, t, firstCut, secondCut, first, last);
    assert s1[..i] == s[first..firstCut] && s1[i..] == s[firstCut..middle];
    assert s2[..j] == s[middle..secondCut] && s2[j..] == s[secondCut..last];
    assert t[first..newMiddle] == t[first..firstCut] + t[firstCut..newMiddle];
    assert t[newMiddle..last] == t[newMiddle..secondCut] + t[secondCut..last];
    SortedPart(less, s1, 0, i);
    SortedPart(less, s1, i, |s1|);
    SortedPart(less, s2, 0, j);
    SortedPart(less, s2, j, |s2|);
  }

  lemma BothSides<T(!new)>(less: (T, T) -> bool, s: seq<T>, t: seq<T>, u: seq<T>, v: seq<T>,
                           first: nat, firstCut: nat, middle: nat, secondCut: nat, last: nat)
    requires StrictWeakOrder(less) && first <= firstCut <= middle <= secondCut <= last <= |s|
    requires TwoRuns(less, s, first, middle, last)
    requires Cut(less, s[first..middle], s[middle..last], firstCut - first, secondCut - middle)
    requires t == Rotate.Rotated(s, firstCut, middle, secondCut)
    requires var newMiddle := firstCut + (secondCut - middle);
      SortedAt(less, t, u, first, newMiddle) && SortedAt(less, u, v, newMiddle, last)
    ensures SortedAt(less, s, v, first, last)
  {
    var newMiddle := firstCut + (secondCut - middle);
    AfterRotation(less, s, t, first, firstCut, middle, secondCut, last);
    OutsideInner(t, u, first, newMiddle, newMiddle, last);
    OutsideInner(u, v, newMiddle, last, first, newMiddle);
    OutsideTrans(s, t, u, first, last, first, newMiddle);
    OutsideTrans(s, u, v, first, last, newMiddle, last);
    JoinCut(less, s[first..middle], s[middle..last], firstCut - first, secondCut - middle, v[first..newMiddle], v[newMiddle..last]);
    Parts(s, first, middle, last);
    Parts(v, first, newMiddle, last);
  }

  lemma Parts<T>(s: seq<T>, first: int, middle: int, last: int)
    requires 0 <= first <= middle <= last <= |s|
    ensures s[first..last] == s[first..middle] + s[middle..last]
  {
  }

  method InplaceStableSort<T(!new)>(less: (T, T) -> bool, a: array<T>, first: nat, last: nat)
    requires StrictWeakOrder(less) && first <= last <= a.Length
    modifies a
    ensures SortedAt(less, old(a[..]), a[..], first, last)
    decreases last - first
  {
    if last - first < 15 {
      InsertionSort(less, a, first, last);
      return;
    }
    ghost var s := a[..];
    var middle := first + (last - first) / 2;
    InplaceStableSort(less, a, first, middle);
    ghost var t := a[..];
    InplaceStableSort(less, a, middle, last);
    ghost var u := a[..];
    TwoHalves(less, s, t, u, first, middle, last);
    MergeWithoutBuffer(less, a, first, middle, last);
    SortedAgain(less, s, u, a[..], first, last);
  }

  /** Two adjacent parts sorted one after the other: two runs, and the classes are kept. */
  lemma TwoHalves<T(!new)>(less: (T, T) -> bool, s: seq<T>, t: seq<T>, u: seq<T>, first: int, middle: int, last: int)
    requires SortedAt(less, s, t, first, middle) && SortedAt(less, t, u, middle, last)
    ensures Outside(s, u, first, last) && SameClasses(less, s[first..last], u[first..last])
    ensures TwoRuns(less, u, first, middle, last)
  {
    OutsideTrans(s, t, u, first, middle, middle, last);
    OutsideInner(s, t, first, middle, middle, last);
    OutsideInner(t, u, middle, last, first, middle);
    assert s[first..last] == s[first..middle] + s[middle..last];
    assert u[first..last] == u[first..middle] + u[middle..last];
    SameConcat(less, s[first..middle], u[first..middle], s[middle..last], u[middle..last]);
  }

  lemma SortedAgain<T(!new)>(less: (T, T) -> bool, s: seq<T>, t: seq<T>, u: seq<T>, first: int, last: int)
    requires Outside(s, t, first, last) && SameClasses(less, s[first..last], t[first..last])
    requires SortedAt(less, t, u, first, last)
    ensures SortedAt(less, s, u, first, last)
  {
    OutsideTrans(s, t, u, first, last, first, last);
    SameTrans(less, s[first..last], t[first..last], u[first..last]);
  }
}
