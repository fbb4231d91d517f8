/** Heaps with the greatest element first, in a stretch of an array. */
module Heap {
  import opened Order
  import opened Permute

  function Parent(i: nat): nat
    requires i > 0
  {
    (i - 1) / 2
  }

  ghost predicate Below<T>(less: (T, T) -> bool, h: seq<T>, i: nat)
    requires 0 < i < |h|
  {
    !less(h[Parent(i)], h[i])
  }

  /** No element is greater than its parent, as far as the parent's index is top or more. */
  ghost predicate HeapFrom<T>(less: (T, T) -> bool, h: seq<T>, top: nat) {
    forall i: nat {:trigger Below(less, h, i)} :: 0 < i < |h| && Parent(i) >= top ==> Below(less, h, i)
  }

  /** The same but for the element at hole, across which its parent and its children are in order. */
  ghost predicate HeapWithHole<T>(less: (T, T) -> bool, h: seq<T>, top: nat, hole: nat) {
    && hole < |h|
    && (forall i: nat {:trigger Below(less, h, i)} :: 0 < i < |h| && Parent(i) >= top && i != hole && Parent(i) != hole ==> Below(less, h, i))
    && (forall i: nat {:trigger h[i]} :: 0 < i < |h| && hole > top && Parent(i) == hole ==> !less(h[Parent(hole)], h[i]))
  }

  /** The indices on the way from top down to a node. */
  predicate Descends(top: nat, i: nat) { i == top || (i > top && Descends(top, Parent(i))) }

  lemma {:induction false} DescendsParent(top: nat, i: nat)
    requires Descends(top, i) && i > top
    ensures Parent(i) >= top && Descends(top, Parent(i))
  {
  }

  /** The first element of a heap is a greatest one. */
  lemma {:induction false} HeapGreatest<T(!new)>(less: (T, T) -> bool, h: seq<T>, i: nat)
    requires StrictWeakOrder(less) && HeapFrom(less, h, 0) && i < |h|
    ensures !less(h[0], h[i])
  {
    if i > 0 {
      assert Below(less, h, i);
      HeapGreatest(less, h, Parent(i));
    }
  }

  /** What moves into the hole leaves a hole where it was. */
  lemma MoveHole<T>(h: seq<T>, hole: nat, from: nat, v: T)
    requires hole < |h| && from < |h| && hole != from
    ensures multiset(h[hole := h[from]][from := v]) == multiset(h[hole := v])
  {
    var s := h[hole := v];
    assert h[hole := h[from]][from := v] == s[hole := s[from]][from := s[hole]];
    SwapCounts(s, h[hole := h[from]][from := v], hole, from);
  }

  /** One level down: the greater child moves up into the hole. */
  lemma SiftDown<T(!new)>(less: (T, T) -> bool, h: seq<T>, top: nat, hole: nat, child: nat, other: nat)
    requires StrictWeakOrder(less) && HeapWithHole(less, h, top, hole) && Descends(top, hole)
    requires 0 < child < |h| && Parent(child) == hole && 0 < other && Parent(other) == hole && child + other == 4 * hole + 3
    requires other < |h| ==> !less(h[child], h[other])
    ensures HeapWithHole(less, h[hole := h[child]], top, child) && Descends(top, child)
  {
    var h' := h[hole := h[child]];
    forall i: nat | 0 < i < |h| && Parent(i) >= top && i != child && Parent(i) != child ensures Below(less, h', i) {
      if i == hole {
        assert !less(h[Parent(hole)], h[child]);
      } else if Parent(i) == hole {
        assert i == other;
      } else {
        assert Below(less, h, i);
      }
    }
    forall i: nat | 0 < i < |h| && Parent(i) == child ensures !less(h'[Parent(child)], h'[i]) {
      assert Below(less, h, i);
    }
  }

  /** One level up: the parent, which is less than the value to be placed, moves down into the hole. */
  lemma SiftUp<T(!new)>(less: (T, T) -> bool, h: seq<T>, top: nat, hole: nat, value: T)
    requires StrictWeakOrder(less) && HeapWithHole(less, h, top, hole) && Descends(top, hole) && hole > top
    requires less(h[Parent(hole)], value) && forall i: nat {:trigger h[i]} :: 0 < i < |h| && Parent(i) == hole ==> !less(value, h[i])
    ensures var p, h' := Parent(hole), h[hole := h[Parent(hole)]];
      && HeapWithHole(less, h', top, p) && Descends(top, p)
      && forall i: nat {:trigger h'[i]} :: 0 < i < |h'| && Parent(i) == p ==> !less(value, h'[i])
  {
    var p := Parent(hole);
    var h' := h[hole := h[p]];
    forall i: nat | 0 < i < |h| && Parent(i) >= top && i != p && Parent(i) != p ensures Below(less, h', i) {
      if Parent(i) == hole {
        assert !less(h[p], h[i]);
      } else {
        assert Below(less, h, i);
      }
    }
    forall i: nat | 0 < i < |h'| && Parent(i) == p ensures !less(value, h'[i]) {
      if i != hole { assert Below(less, h, i); }
    }
    forall i: nat | 0 < i < |h'| && p > top && Parent(i) == p ensures !less(h'[Parent(p)], h'[i]) {
      DescendsParent(top, p);
      assert Below(less, h, p);
      if i != hole { assert Below(less, h, i); }
    }
  }

  /** The value fits where it is placed. */
  lemma Placed<T(!new)>(less: (T, T) -> bool, h: seq<T>, top: nat, hole: nat, value: T)
    requires HeapWithHole(less, h, top, hole) && Descends(top, hole)
    requires hole == top || !less(h[Parent(hole)], value)
    requires forall i: nat {:trigger h[i]} :: 0 < i < |h| && Parent(i) == hole ==> !less(value, h[i])
    ensures HeapFrom(less, h[hole := value], top)
  {
    var h' := h[hole := value];
    forall i: nat | 0 < i < |h'| && Parent(i) >= top ensures Below(less, h', i) {
      if i != hole && Parent(i) != hole { assert Below(less, h, i); }
    }
  }

  // ---------- the operations on an array ----------

  /** t is s with the stretch [first, first + |h|) replaced by h. */
  ghost predicate Replaced<T>(s: seq<T>, t: seq<T>, first: nat, h: seq<T>) {
    && first + |h| <= |s| == |t| && t[first..first + |h|] == h
    && (forall k {:trigger t[k]} :: 0 <= k < |s| && !(first <= k < first + |h|) ==> t[k] == s[k])
  }

  lemma ReplacedOne<T>(s: seq<T>, t: seq<T>, u: seq<T>, first: nat, h: seq<T>, i: nat, v: T)
    requires Replaced(s, t, first, h) && i < |h| && u == t[first + i := v]
    ensures Replaced(s, u, first, h[i := v])
  {
    assert u[first..first + |h|] == h[i := v];
  }

  /** The stretch holds h, a heap but for the hole, which the value would complete to the elements of w. */
  ghost predicate Sifting<T(!new)>(less: (T, T) -> bool, s: seq<T>, t: seq<T>, first: nat, h: seq<T>, top: nat, hole: nat, value: T, w: seq<T>) {
    && Replaced(s, t, first, h) && HeapWithHole(less, h, top, hole) && Descends(top, hole)
    && multiset(h[hole := value]) == multiset(w)
  }

  ghost predicate AboveChildren<T(!new)>(less: (T, T) -> bool, h: seq<T>, hole: nat, value: T) {
    forall i: nat {:trigger h[i]} :: 0 < i < |h| && Parent(i) == hole ==> !less(value, h[i])
  }

  ghost predicate Sifted<T(!new)>(less: (T, T) -> bool, s: seq<T>, t: seq<T>, first: nat, h: seq<T>, top: nat, w: seq<T>) {
    Replaced(s, t, first, h) && HeapFrom(less, h, top) && multiset(h) == multiset(w)
  }

  /** A child, or the parent, moves into the hole. */
  lemma Moved<T(!new)>(less: (T, T) -> bool, s: seq<T>, t: seq<T>, u: seq<T>, first: nat, h: seq<T>, top: nat, hole: nat, value: T, w: seq<T>, from: nat)
    requires Sifting(less, s, t, first, h, top, hole, value, w) && from < |h| && from != hole && u == t[first + hole := h[from]]
    requires HeapWithHole(less, h[hole := h[from]], top, from) && Descends(top, from)
    ensures Sifting(less, s, u, first, h[hole := h[from]], top, from, value, w)
  {
    ReplacedOne(s, t, u, first, h, hole, h[from]);
    MoveHole(h, hole, from, value);
  }

  lemma At<T(!new)>(s: seq<T>, t: seq<T>, first: nat, h: seq<T>, i: nat)
    requires Replaced(s, t, first, h) && i < |h|
    ensures first + i < |t| && t[first + i] == h[i]
  {
    assert t[first..first + |h|][i] == t[first + i];
  }

  lemma Risen<T(!new)>(less: (T, T) -> bool, s: seq<T>, t: seq<T>, u: seq<T>, first: nat, h: seq<T>, top: nat, hole: nat, value: T, w: seq<T>)
    returns (h': seq<T>)
    requires StrictWeakOrder(less) && Sifting(less, s, t, first, h, top, hole, value, w) && AboveChildren(less, h, hole, value)
    requires hole > top && less(h[Parent(hole)], value) && u == t[first + hole := h[Parent(hole)]]
    ensures Sifting(less, s, u, first, h', top, Parent(hole), value, w) && AboveChildren(less, h', Parent(hole), value) && |h'| == |h|
  {
    hide StrictWeakOrder;
    SiftUp(less, h, top, hole, value);
    h' := h[hole := h[Parent(hole)]];
    Moved(less, s, t, u, first, h, top, hole, value, w, Parent(hole));
  }

  lemma Settled<T(!new)>(less: (T, T) -> bool, s: seq<T>, t: seq<T>, u: seq<T>, first: nat, h: seq<T>, top: nat, hole: nat, value: T, w: seq<T>)
    requires Sifting(less, s, t, first, h, top, hole, value, w) && AboveChildren(less, h, hole, value)
    requires hole == top || !less(h[Parent(hole)], value)
    requires u == t[first + hole := value]
    ensures Sifted(less, s, u, first, h[hole := value], top, w)
  {
    Placed(less, h, top, hole, value);
    ReplacedOne(s, t, u, first, h, hole, value);
  }

  lemma SiftingHas<T(!new)>(less: (T, T) -> bool, s: seq<T>, t: seq<T>, first: nat, h: seq<T>, top: nat, hole: nat, value: T, w: seq<T>)
    requires Sifting(less, s, t, first, h, top, hole, value, w)
    ensures top <= hole < |h| && first + |h| <= |t| == |s| && t[first + hole] == h[hole]
    ensures hole > top ==> Parent(hole) >= top && t[first + Parent(hole)] == h[Parent(hole)]
  {
    if hole > top { DescendsParent(top, hole); }
    At(s, t, first, h, hole);
    if hole > top { At(s, t, first, h, Parent(hole)); }
  }

  /** The value rises from the hole while its parent is less. */
  method PushHeap<T(!new)>(less: (T, T) -> bool, a: array<T>, first: nat, hole0: nat, top: nat, value: T,
                           ghost s: seq<T>, ghost h0: seq<T>, ghost w: seq<T>) returns (ghost h: seq<T>)
    requires StrictWeakOrder(less) && Sifting(less, s, a[..], first, h0, top, hole0, value, w) && AboveChildren(less, h0, hole0, value)
    modifies a
    ensures |h| == |h0| && Sifted(less, s, a[..], first, h, top, w)
  {
    hide StrictWeakOrder, Sifting, Sifted, AboveChildren;
    h := h0;
    var hole := hole0;
    SiftingHas(less, s, a[..], first, h, top, hole, value, w);
    while hole > top && less(a[first + (hole - 1) / 2], value)
      invariant |h| == |h0| && top <= hole < |h| && first + |h| <= a.Length
      invariant Sifting(less, s, a[..], first, h, top, hole, value, w) && AboveChildren(less, h, hole, value)
      invariant hole > top ==> Parent(hole) >= top && a[first + Parent(hole)] == h[Parent(hole)]
      decreases hole
    {
      ghost var t := a[..];
      a[first + hole] := a[first + (hole - 1) / 2];
      h := Risen(less, s, t, a[..], first, h, top, hole, value, w);
      hole := (hole - 1) / 2;
      SiftingHas(less, s, a[..], first, h, top, hole, value, w);
    }
    ghost var t := a[..];
    a[first + hole] := value;
    Settled(less, s, t, a[..], first, h, top, hole, value, w);
    h := h[hole := value];
  }

  lemma Sunk<T(!new)>(less: (T, T) -> bool, s: seq<T>, t: seq<T>, u: seq<T>, first: nat, h: seq<T>, top: nat, hole: nat, value: T, w: seq<T>, child: nat)
    returns (h': seq<T>)
    requires StrictWeakOrder(less) && Sifting(less, s, t, first, h, top, hole, value, w)
    requires child < |h| && u == t[first + hole := h[child]]
    requires (child == 2 * hole + 2 && !less(h[child], h[child - 1])) || (child == 2 * hole + 1 && (child + 1 < |h| ==> !less(h[child], h[child + 1])))
    ensures Sifting(less, s, u, first, h', top, child, value, w) && |h'| == |h|
  {
    hide StrictWeakOrder;
    SiftDown(less, h, top, hole, child, 4 * hole + 3 - child);
    h' := h[hole := h[child]];
    Moved(less, s, t, u, first, h, top, hole, value, w, child);
  }

  /** A hole at top, whose value is to be placed anew. */
  lemma Opened<T(!new)>(less: (T, T) -> bool, s: seq<T>, first: nat, len: nat, top: nat, value: T)
    requires top < len && first + len <= |s| && HeapFrom(less, s[first..first + len], top + 1)
    ensures var h := s[first..first + len]; Sifting(less, s, s, first, h, top, top, value, h[top := value])
  {
  }

  /** Sifts the hole down to a leaf, always moving the greater child up, and lets the value rise from there. */
  method AdjustHeap<T(!new)>(less: (T, T) -> bool, a: array<T>, first: nat, top: nat, len: nat, value: T) returns (ghost h: seq<T>)
    requires StrictWeakOrder(less) && top < len && first + len <= a.Length && HeapFrom(less, a[first..first + len], top + 1)
    modifies a
    ensures |h| == len && Sifted(less, old(a[..]), a[..], first, h, top, old(a[first..first + len])[top := value])
  {
    hide StrictWeakOrder, Sifting, Sifted;
    ghost var s := a[..];
    h := a[first..first + len];
    ghost var w := h[top := value];
    Opened(less, s, first, len, top, value);
    assert h == s[first..first + len];
    var hole := top;
    var secondChild := 2 * hole + 2;
    SiftingHas(less, s, a[..], first, h, top, hole, value, w);
    while secondChild < len
      invariant |h| == len && first + len <= a.Length && top <= hole < len && secondChild == 2 * hole + 2
      invariant Sifting(less, s, a[..], first, h, top, hole, value, w)
      decreases len - hole
    {
      ghost var t := a[..];
      SiftingAt(less, s, t, first, h, top, hole, value, w, secondChild);
      SiftingAt(less, s, t, first, h, top, hole, value, w, secondChild - 1);
      if less(a[first + secondChild], a[first + (secondChild - 1)]) {
        NotBoth(less, h[secondChild], h[secondChild - 1]);
        secondChild := secondChild - 1;
      }
      a[first + hole] := a[first + secondChild];
      h := Sunk(less, s, t, a[..], first, h, top, hole, value, w, secondChild);
      hole := secondChild;
      secondChild := 2 * (secondChild + 1);
    }
    if secondChild == len {
      ghost var t := a[..];
      SiftingAt(less, s, t, first, h, top, hole, value, w, secondChild - 1);
      a[first + hole] := a[first + (secondChild - 1)];
      h := Sunk(less, s, t, a[..], first, h, top, hole, value, w, secondChild - 1);
      hole := secondChild - 1;
    }
    h := PushHeap(less, a, first, hole, top, value, s, h, w);
  }

  lemma NotBoth<T(!new)>(less: (T, T) -> bool, x: T, y: T)
    requires StrictWeakOrder(less) && less(x, y)
    ensures !less(y, x)
  {
  }

  lemma SiftingAt<T(!new)>(less: (T, T) -> bool, s: seq<T>, t: seq<T>, first: nat, h: seq<T>, top: nat, hole: nat, value: T, w: seq<T>, i: nat)
    requires Sifting(less, s, t, first, h, top, hole, value, w) && i < |h|
    ensures first + i < |t| && t[first + i] == h[i]
  {
    At(s, t, first, h, i);
  }

  // ---------- heap sort ----------

  lemma SiftedPermutes<T(!new)>(less: (T, T) -> bool, s: seq<T>, t: seq<T>, first: nat, h: seq<T>, top: nat)
    requires first + |h| <= |s| && Sifted(less, s, t, first, h, top, s[first..first + |h|])
    ensures Permuted(s, t, first, first + |h|) && HeapFrom(less, t[first..first + |h|], top)
  {
  }

  method MakeHeap<T(!new)>(less: (T, T) -> bool, a: array<T>, first: nat, last: nat)
    requires StrictWeakOrder(less) && first <= last <= a.Length
    modifies a
    ensures Permuted(old(a[..]), a[..], first, last) && HeapFrom(less, a[first..last], 0)
  {
    hide StrictWeakOrder, Sifted;
    if last - first < 2 {
      return;
    }
    ghost var s := a[..];
    var len := last - first;
    var parent: nat := (len - 2) / 2;
    while true
      invariant parent < len && Permuted(s, a[..], first, last) && HeapFrom(less, a[first..last], parent + 1)
      decreases parent
    {
      ghost var t := a[..];
      assert t[first..first + len] == a[first..last];
      ghost var h := AdjustHeap(less, a, first, parent, len, a[first + parent]);
      assert t[first..first + len][parent := t[first + parent]] == t[first..first + len];
      SiftedPermutes(less, t, a[..], first, h, parent);
      PermutedTrans(s, t, a[..], first, last);
      assert a[..][first..first + len] == a[first..last];
      if parent == 0 {
        return;
      }
      parent := parent - 1;
    }
  }

  /** Moves the first element to result, behind the heap, and the element from there into the heap. */
  method PopHeap<T(!new)>(less: (T, T) -> bool, a: array<T>, first: nat, last: nat, result: nat)
    requires StrictWeakOrder(less) && first < last <= result < a.Length && HeapFrom(less, a[first..last], 0)
    modifies a
    ensures HeapFrom(less, a[first..last], 0) && a[result] == old(a[first])
    ensures multiset(a[first..last]) == multiset(old(a[first..last])[0 := old(a[result])])
    ensures forall k :: 0 <= k < a.Length && !(first <= k < last) && k != result ==> a[k] == old(a[k])
  {
    hide StrictWeakOrder;
    ghost var s := a[..];
    var value := a[result];
    a[result] := a[first];
    ghost var t := a[..];
    assert a[first..last] == s[first..last] && a[first..first + (last - first)] == a[first..last];
    ghost var h := AdjustHeap(less, a, first, 0, last - first, value);
    At2(t, a[..], first, h, result);
    assert a[first..last] == h by { assert a[..][first..first + |h|] == a[first..last]; }
  }

  lemma At2<T(!new)>(s: seq<T>, t: seq<T>, first: nat, h: seq<T>, i: nat)
    requires Replaced(s, t, first, h) && i < |s| && !(first <= i < first + |h|)
    ensures t[i] == s[i]
  {
  }

  /** What a pop does when the element goes right behind the heap, or further on. */
  lemma PopPermutes<T(!new)>(s: seq<T>, t: seq<T>, first: nat, last: nat, result: nat)
    requires first < last <= result < |s| == |t| && t[result] == s[first]
    requires multiset(t[first..last]) == multiset(s[first..last][0 := s[result]])
    requires forall k :: 0 <= k < |s| && !(first <= k < last) && k != result ==> t[k] == s[k]
    ensures Permuted(s, t, first, result + 1)
  {
    UpdateCounts(s[first..last], 0, s[result]);
    assert s[first..result + 1] == s[first..last] + s[last..result] + [s[result]];
    assert t[first..result + 1] == t[first..last] + t[last..result] + [t[result]];
    assert s[last..result] == t[last..result];
  }

  /** An element of the heap after a pop was in the heap before, or is the one that came in. */
  lemma PoppedFrom<T(!new)>(s: seq<T>, t: seq<T>, first: nat, last: nat, v: T, k: nat) returns (j: nat)
    requires first <= k < last <= |s| == |t| && multiset(t[first..last]) == multiset(s[first..last][0 := v])
    ensures t[k] == v || (first <= j < last && s[j] == t[k])
  {
    var w := s[first..last][0 := v];
    assert t[first..last][k - first] in multiset(t[first..last]);
    assert t[k] in w;
    var i :| 0 <= i < |w| && w[i] == t[k];
    j := first + i;
  }

  ghost predicate HeapAt<T>(less: (T, T) -> bool, s: seq<T>, first: nat, last: nat) {
    first <= last <= |s| && HeapFrom(less, s[first..last], 0)
  }

  lemma FirstGreatest<T(!new)>(less: (T, T) -> bool, s: seq<T>, first: nat, last: nat, k: nat)
    requires StrictWeakOrder(less) && HeapAt(less, s, first, last) && first <= k < last
    ensures !less(s[first], s[k])
  {
    HeapGreatest(less, s[first..last], k - first);
  }

  /** [first, mid) is a heap, [mid, last) is sorted, and nothing in the heap is greater than anything behind it. */
  ghost predicate HeapThenSorted<T>(less: (T, T) -> bool, s: seq<T>, first: nat, mid: nat, last: nat) {
    && first <= mid <= last <= |s| && HeapAt(less, s, first, mid) && Sorted(less, s[mid..last])
    && (forall i, j {:trigger s[i], s[j]} :: first <= i < mid <= j < last ==> !less(s[j], s[i]))
  }

  lemma PopSorts<T(!new)>(less: (T, T) -> bool, s: seq<T>, t: seq<T>, first: nat, mid: nat, last: nat)
    requires StrictWeakOrder(less) && HeapThenSorted(less, s, first, mid, last) && first + 1 < mid
    requires |t| == |s| && HeapFrom(less, t[first..mid - 1], 0) && t[mid - 1] == s[first]
    requires multiset(t[first..mid - 1]) == multiset(s[first..mid - 1][0 := s[mid - 1]])
    requires forall k :: 0 <= k < |s| && !(first <= k < mid) ==> t[k] == s[k]
    ensures HeapThenSorted(less, t, first, mid - 1, last)
  {
    forall i, j | first <= i < mid - 1 <= j < last ensures !less(t[j], t[i]) {
      var i' := PoppedFrom(s, t, first, mid - 1, s[mid - 1], i);
      if t[i] == s[mid - 1] { FirstGreatest(less, s, first, mid, mid - 1); } else { FirstGreatest(less, s, first, mid, i'); }
    }
    var u := t[mid - 1..last];
    forall i, j | 0 <= i < j < |u| ensures !less(u[j], u[i]) {
      assert u[j] == s[mid - 1 + j] == s[mid..last][j - 1];
      if i > 0 { assert u[i] == s[mid - 1 + i] == s[mid..last][i - 1]; }
    }
  }

  /** The greatest element of the heap goes right behind it. */
  method PopToEnd<T(!new)>(less: (T, T) -> bool, a: array<T>, first: nat, last: nat, ghost last0: nat)
    requires StrictWeakOrder(less) && first + 1 < last && last <= last0 <= a.Length && HeapThenSorted(less, a[..], first, last, last0)
    modifies a
    ensures Permuted(old(a[..]), a[..], first, last0) && HeapThenSorted(less, a[..], first, last - 1, last0)
  {
    hide StrictWeakOrder, HeapThenSorted, HeapFrom, Sorted, Permuted;
    ghost var t := a[..];
    HeapHas(less, t, first, last, last0);
    var result := last - 1;
    assert a[first..result] == t[first..result];
    PopHeap(less, a, first, result, result);
    ghost var u := a[..];
    assert a[first..result] == u[first..result];
    PopPermutes(t, u, first, result, result);
    PermutedWider(t, u, first, last, first, last0);
    PopSorts(less, t, u, first, last, last0);
  }

  method SortHeap<T(!new)>(less: (T, T) -> bool, a: array<T>, first: nat, last0: nat)
    requires StrictWeakOrder(less) && first <= last0 <= a.Length && HeapFrom(less, a[first..last0], 0)
    modifies a
    ensures Permuted(old(a[..]), a[..], first, last0) && Sorted(less, a[first..last0])
  {
    hide StrictWeakOrder, HeapThenSorted, HeapFrom, Sorted, Permuted;
    ghost var s := a[..];
    var last := last0;
    assert s[first..last0] == a[first..last0];
    HeapOnly(less, s, first, last0);
    SelfPermuted(s, first, last0);
    while last - first > 1
      invariant first <= last <= last0 && Permuted(s, a[..], first, last0) && HeapThenSorted(less, a[..], first, last, last0)
    {
      ghost var t := a[..];
      PopToEnd(less, a, first, last, last0);
      PermutedTrans(s, t, a[..], first, last0);
      last := last - 1;
    }
    AllSorted(less, a[..], first, last, last0);
    assert a[..][first..last0] == a[first..last0];
  }

  lemma HeapOnly<T(!new)>(less: (T, T) -> bool, s: seq<T>, first: nat, last: nat)
    requires first <= last <= |s| && HeapFrom(less, s[first..last], 0)
    ensures HeapThenSorted(less, s, first, last, last)
  {
  }

  /** A heap without its last element is a heap. */
  lemma HeapHas<T(!new)>(less: (T, T) -> bool, s: seq<T>, first: nat, mid: nat, last: nat)
    requires HeapThenSorted(less, s, first, mid, last) && first < mid
    ensures HeapFrom(less, s[first..mid - 1], 0)
  {
    var h, g := s[first..mid], s[first..mid - 1];
    forall i: nat | 0 < i < |g| ensures Below(less, g, i) { assert Below(less, h, i); }
  }

  lemma AllSorted<T(!new)>(less: (T, T) -> bool, s: seq<T>, first: nat, mid: nat, last: nat)
    requires HeapThenSorted(less, s, first, mid, last) && mid - first <= 1
    ensures Sorted(less, s[first..last])
  {
    var u := s[first..last];
    forall i, j | 0 <= i < j < |u| ensures !less(u[j], u[i]) {
      if first + i >= mid { assert u[i] == s[mid..last][first + i - mid] && u[j] == s[mid..last][first + j - mid]; }
    }
  }

  // ---------- partial sort ----------

  /** [first, middle) is a heap and nothing seen behind it is less than anything in it. */
  ghost predicate Least<T>(less: (T, T) -> bool, s: seq<T>, first: nat, middle: nat, i: nat) {
    first < middle <= i <= |s| && HeapAt(less, s, first, middle) && forall j {:trigger s[j]} :: middle <= j < i ==> !less(s[j], s[first])
  }

  lemma LeastPopped<T(!new)>(less: (T, T) -> bool, s: seq<T>, t: seq<T>, first: nat, middle: nat, i: nat)
    requires StrictWeakOrder(less) && Least(less, s, first, middle, i) && i < |s| && less(s[i], s[first])
    requires |t| == |s| && HeapFrom(less, t[first..middle], 0) && t[i] == s[first]
    requires multiset(t[first..middle]) == multiset(s[first..middle][0 := s[i]])
    requires forall k :: 0 <= k < |s| && !(first <= k < middle) && k != i ==> t[k] == s[k]
    ensures Least(less, t, first, middle, i + 1)
  {
    var k := PoppedFrom(s, t, first, middle, s[i], first);
    if t[first] != s[i] { FirstGreatest(less, s, first, middle, k); }
    assert !less(s[first], t[first]);
  }

  /** Popping an empty heap only exchanges the two elements. */
  method PopEmpty<T(!new)>(a: array<T>, first: nat, result: nat, ghost last: nat)
    requires first <= result < last <= a.Length
    modifies a
    ensures Permuted(old(a[..]), a[..], first, last)
  {
    Swap(a, result, first, first, last);
  }

  method SelectLeast<T(!new)>(less: (T, T) -> bool, a: array<T>, first: nat, middle: nat, last: nat)
    requires StrictWeakOrder(less) && first <= middle <= last <= a.Length && HeapFrom(less, a[first..middle], 0)
    modifies a
    ensures Permuted(old(a[..]), a[..], first, last) && (first < middle ==> Least(less, a[..], first, middle, last))
  {
    hide StrictWeakOrder, HeapFrom;
    ghost var s := a[..];
    assert s[first..middle] == a[first..middle];
    for i := middle to last
      invariant Permuted(s, a[..], first, last) && (first < middle ==> Least(less, a[..], first, middle, i))
    {
      ghost var t := a[..];
      assert t[first..middle] == a[first..middle];
      if less(a[i], a[first]) {
        if first == middle {
          PopEmpty(a, first, i, last);
          PermutedTrans(s, t, a[..], first, last);
        } else {
          PopHeap(less, a, first, middle, i);
          assert a[first..middle] == a[..][first..middle];
          PopPermutes(t, a[..], first, middle, i);
          PermutedWider(t, a[..], first, i + 1, first, last);
          PermutedTrans(s, t, a[..], first, last);
          LeastPopped(less, t, a[..], first, middle, i);
        }
      }
    }
  }

  /** Sorts the least elements into [first, middle). */
  method PartialSort<T(!new)>(less: (T, T) -> bool, a: array<T>, first: nat, middle: nat, last: nat)
    requires StrictWeakOrder(less) && first <= middle <= last <= a.Length
    modifies a
    ensures Permuted(old(a[..]), a[..], first, last) && Sorted(less, a[first..middle])
    ensures forall j, k :: first <= k < middle <= j < last ==> !less(a[j], a[k])
  {
    hide StrictWeakOrder, HeapFrom, Sorted;
    ghost var s := a[..];
    MakeHeap(less, a, first, middle);
    PermutedWider(s, a[..], first, middle, first, last);
    ghost var t := a[..];
    SelectLeast(less, a, first, middle, last);
    ghost var u := a[..];
    PermutedTrans(s, t, u, first, last);
    assert u[first..middle] == a[first..middle];
    if first == middle { assert HeapFrom(less, a[first..middle], 0) by { EmptyHeap(less, a[first..middle]); } }
    SortHeap(less, a, first, middle);
    PermutedWider(u, a[..], first, middle, first, last);
    PermutedTrans(s, u, a[..], first, last);
    ghost var v := a[..];
    forall j, k | first <= k < middle <= j < last ensures !less(a[j], a[k]) {
      StillLeast(less, u, v, first, middle, last, j, k);
    }
  }

  lemma EmptyHeap<T(!new)>(less: (T, T) -> bool, h: seq<T>)
    requires h == []
    ensures HeapFrom(less, h, 0)
  {
  }

  lemma StillLeast<T(!new)>(less: (T, T) -> bool, u: seq<T>, v: seq<T>, first: nat, middle: nat, last: nat, j: nat, k: nat)
    requires StrictWeakOrder(less) && Least(less, u, first, middle, last) && Permuted(u, v, first, middle) && first <= k < middle <= j < last
    ensures !less(v[j], v[k])
  {
    var i := PermutedIn(u, v, first, middle, k);
    FirstGreatest(less, u, first, middle, i);
    assert v[j] == u[j];
  }
}
