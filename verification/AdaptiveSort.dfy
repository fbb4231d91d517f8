/** The stable sort that has a buffer: merges from the buffer forwards and
    backwards, rotations through the buffer, and the bottom-up merge sort. */
module AdaptiveSort {
  import opened Order
  import opened Stable
  import opened StableSort
  import Rotate

  // ---------- merging with a buffer ----------

  /** Copies [first, last) of one array to another, first element first. */
  method CopyTo<T>(src: array<T>, first: nat, last: nat, dst: array<T>, result: nat)
    requires src != dst && first <= last <= src.Length && result + (last - first) <= dst.Length
    modifies dst
    ensures Outside(old(dst[..]), dst[..], result, result + (last - first))
    ensures dst[result..result + (last - first)] == src[first..last]
  {
    ghost var s := dst[..];
    for i := first to last
      invariant forall j {:trigger dst[j]} :: 0 <= j < dst.Length ==>
        dst[j] == if result <= j < result + (i - first) then src[first + (j - result)] else s[j]
    {
      dst[result + (i - first)] := src[i];
    }
  }

  /** d, the merged part so far, stands at r in t; elsewhere t agrees with s. */
  ghost predicate Written<T>(s: seq<T>, t: seq<T>, r: nat, d: seq<T>) {
    r + |d| <= |s| && Outside(s, t, r, r + |d|) && t[r..r + |d|] == d
  }

  lemma Appended<T>(s: seq<T>, t: seq<T>, u: seq<T>, r: nat, d: seq<T>, v: T)
    requires r + |d| < |s| && Written(s, t, r, d) && |u| == |t|
    requires forall k {:trigger u[k]} :: 0 <= k < |u| ==> u[k] == if k == r + |d| then v else t[k]
    ensures Written(s, u, r, d + [v])
  {
    forall k | 0 <= k < |s| && !(r <= k < r + |d| + 1) ensures u[k] == s[k] { assert t[k] == s[k]; }
    assert u[r..r + |d| + 1] == u[r..r + |d|] + [v];
    forall k | 0 <= k < |d| ensures u[r + k] == d[k] { assert u[r + k] == t[r + k] == t[r..r + |d|][k]; }
    assert u[r..r + |d|] == d;
  }

  lemma WrittenOutside<T>(s: seq<T>, t: seq<T>, r: nat, d: seq<T>)
    requires Written(s, t, r, d)
    ensures Outside(s, t, r, r + |d|)
  {
  }

  lemma WrittenNone<T>(s: seq<T>, r: nat)
    requires r <= |s|
    ensures Written(s, s, r, [])
  {
  }

  lemma FirstAppended<T(!new)>(less: (T, T) -> bool, s1: seq<T>, s2: seq<T>, s: seq<T>, t: seq<T>, u: seq<T>,
                               d: seq<T>, i: int, j: int, r: nat) returns (e: seq<T>)
    requires StrictWeakOrder(less) && Merging(less, s1, s2, d, i, j) && i < |s1|
    requires j < |s2| ==> !less(s2[j], s1[i])
    requires r + |d| < |s| && Written(s, t, r, d) && |u| == |t|
    requires forall k {:trigger u[k]} :: 0 <= k < |u| ==> u[k] == if k == r + i + j then s1[i] else t[k]
    ensures |e| == |d| + 1 && Merging(less, s1, s2, e, i + 1, j) && Written(s, u, r, e)
  {
    TakeFirst(less, s1, s2, d, i, j);
    Appended(s, t, u, r, d, s1[i]);
    e := d + [s1[i]];
  }

  lemma SecondAppended<T(!new)>(less: (T, T) -> bool, s1: seq<T>, s2: seq<T>, s: seq<T>, t: seq<T>, u: seq<T>,
                                d: seq<T>, i: int, j: int, r: nat) returns (e: seq<T>)
    requires StrictWeakOrder(less) && Merging(less, s1, s2, d, i, j) && j < |s2|
    requires i < |s1| ==> less(s2[j], s1[i])
    requires r + |d| < |s| && Written(s, t, r, d) && |u| == |t|
    requires forall k {:trigger u[k]} :: 0 <= k < |u| ==> u[k] == if k == r + i + j then s2[j] else t[k]
    ensures |e| == |d| + 1 && Merging(less, s1, s2, e, i, j + 1) && Written(s, u, r, e)
  {
    TakeSecond(less, s1, s2, d, i, j);
    Appended(s, t, u, r, d, s2[j]);
    e := d + [s2[j]];
  }

  /** Merges until one of the two runs of src is used up. */
  method MergeHeads<T(!new)>(less: (T, T) -> bool, src: array<T>, first: nat, middle: nat, last: nat, dst: array<T>, result: nat)
    returns (i: nat, j: nat, ghost d: seq<T>)
    requires StrictWeakOrder(less) && src != dst && last <= src.Length && TwoRuns(less, src[..], first, middle, last)
    requires result + (last - first) <= dst.Length
    modifies dst
    ensures first <= i <= middle <= j <= last && (i == middle || j == last) && |d| == (i - first) + (j - middle)
    ensures Merging(less, src[first..middle], src[middle..last], d, i - first, j - middle)
    ensures Written(old(dst[..]), dst[..], result, d)
  {
    hide StrictWeakOrder, Sorted, Merging, Written;
    ghost var s, s1, s2 := dst[..], src[first..middle], src[middle..last];
    ghost var x := src[..];
    assert s1 == x[first..middle] && s2 == x[middle..last];
    i, j := first, middle;
    MergeStart(less, s1, s2);
    d := [];
    WrittenNone(s, result);
    while i != middle && j != last
      invariant first <= i <= middle <= j <= last && |d| == (i - first) + (j - middle)
      invariant Merging(less, s1, s2, d, i - first, j - middle)
      invariant Written(s, dst[..], result, d)
    {
      ghost var t := dst[..];
      assert src[i] == s1[i - first] && src[j] == s2[j - middle];
      if less(src[j], src[i]) {
        dst[result + (i - first) + (j - middle)] := src[j];
        d := SecondAppended(less, s1, s2, s, t, dst[..], d, i - first, j - middle, result);
        j := j + 1;
      } else {
        dst[result + (i - first) + (j - middle)] := src[i];
        d := FirstAppended(less, s1, s2, s, t, dst[..], d, i - first, j - middle, result);
        i := i + 1;
      }
    }
  }

  /** Merges the adjacent runs [first, middle) and [middle, last) of src into dst. */
  method MergeApart<T(!new)>(less: (T, T) -> bool, src: array<T>, first: nat, middle: nat, last: nat, dst: array<T>, result: nat)
    requires StrictWeakOrder(less) && src != dst && last <= src.Length && TwoRuns(less, src[..], first, middle, last)
    requires result + (last - first) <= dst.Length
    modifies dst
    ensures Outside(old(dst[..]), dst[..], result, result + (last - first))
    ensures StablySorted(less, src[first..last], dst[result..result + (last - first)])
  {
    hide StrictWeakOrder, Sorted, Merging, StablySorted, Written;
    ghost var s, s1, s2 := dst[..], src[first..middle], src[middle..last];
    assert src[first..last] == s1 + s2;
    ghost var d;
    var i, j;
    i, j, d := MergeHeads(less, src, first, middle, last, dst, result);
    MergeEnd(less, s1, s2, d, i - first, j - middle);
    var r := result + (i - first) + (j - middle);
    ghost var t := dst[..];
    CopyTo(src, i, middle, dst, r);
    ghost var u := dst[..];
    CopyTo(src, j, last, dst, r + (middle - i));
    assert src[i..middle] == s1[i - first..] && src[j..last] == s2[j - middle..];
    Filled(s, t, u, dst[..], result, d, s1[i - first..], s2[j - middle..]);
  }

  lemma Filled<T>(s: seq<T>, t: seq<T>, u: seq<T>, v: seq<T>, r: nat, d: seq<T>, x: seq<T>, y: seq<T>)
    requires r + |d| + |x| + |y| <= |s| && Written(s, t, r, d)
    requires Outside(t, u, r + |d|, r + |d| + |x|) && u[r + |d|..r + |d| + |x|] == x
    requires Outside(u, v, r + |d| + |x|, r + |d| + |x| + |y|) && v[r + |d| + |x|..r + |d| + |x| + |y|] == y
    ensures Outside(s, v, r, r + |d| + |x| + |y|) && v[r..r + |d| + |x| + |y|] == d + x + y
  {
    var a, b, c := r + |d|, r + |d| + |x|, r + |d| + |x| + |y|;
    OutsideTrans(s, t, u, r, a, a, b);
    OutsideTrans(s, u, v, r, b, b, c);
    OutsideInner(t, u, a, b, r, a);
    OutsideInner(u, v, b, c, r, a);
    OutsideInner(u, v, b, c, a, b);
    assert v[r..c] == v[r..a] + v[a..b] + v[b..c];
  }

  /** Merges the buffered run b[..n] with [middle, last), writing from first on, until one
      is used up.  The writing position never passes the reading position in the same array. */
  method MergeHeadsForward<T(!new)>(less: (T, T) -> bool, b: array<T>, n: nat, a: array<T>, first: nat, middle: nat, last: nat)
    returns (i: nat, j: nat, ghost d: seq<T>)
    requires StrictWeakOrder(less) && a != b && n <= b.Length && first + n == middle <= last <= a.Length
    requires Sorted(less, b[..n]) && Sorted(less, a[middle..last])
    modifies a
    ensures 0 <= i <= n && middle <= j <= last && (i == n || j == last) && |d| == i + (j - middle)
    ensures Merging(less, b[..n], old(a[middle..last]), d, i, j - middle)
    ensures Written(old(a[..]), a[..], first, d)
  {
    hide StrictWeakOrder, Sorted, Merging;
    ghost var s, s1, s2 := a[..], b[..n], a[middle..last];
    ghost var x := b[..];
    assert s1 == x[..n] && s2 == s[middle..last];
    i, j := 0, middle;
    MergeStart(less, s1, s2);
    d := [];
    while i != n && j != last
      invariant 0 <= i <= n && middle <= j <= last && |d| == i + (j - middle)
      invariant Merging(less, s1, s2, d, i, j - middle)
      invariant Written(s, a[..], first, d)
    {
      ghost var t := a[..];
      assert t[j] == s2[j - middle];
      if less(a[j], b[i]) {
        a[first + i + (j - middle)] := a[j];
        d := SecondAppended(less, s1, s2, s, t, a[..], d, i, j - middle, first);
        j := j + 1;
      } else {
        a[first + i + (j - middle)] := b[i];
        d := FirstAppended(less, s1, s2, s, t, a[..], d, i, j - middle, first);
        i := i + 1;
      }
    }
  }

  method MergeForward<T(!new)>(less: (T, T) -> bool, b: array<T>, n: nat, a: array<T>, first: nat, middle: nat, last: nat)
    requires StrictWeakOrder(less) && a != b && n <= b.Length && first + n == middle <= last <= a.Length
    requires Sorted(less, b[..n]) && Sorted(less, a[middle..last])
    modifies a
    ensures Outside(old(a[..]), a[..], first, last)
    ensures StablySorted(less, b[..n] + old(a[middle..last]), a[first..last])
  {
    hide StrictWeakOrder, Sorted, Merging, StablySorted, Written;
    ghost var s, s1, s2 := a[..], b[..n], a[middle..last];
    ghost var d;
    var i, j;
    i, j, d := MergeHeadsForward(less, b, n, a, first, middle, last);
    MergeEnd(less, s1, s2, d, i, j - middle);
    ghost var t := a[..];
    var r := first + i + (j - middle);
    CopyTo(b, i, n, a, r);
    ghost var u := a[..];
    CopyDown(a, j, last, r + (n - i));
    WrittenOutside(s, t, first, d);
    OutsideInner(s, t, first, first + |d|, j, last);
    OutsideInner(t, u, first + |d|, first + |d| + (n - i), j, last);
    assert b[i..n] == s1[i..] && s[j..last] == s2[j - middle..];
    Filled(s, t, u, a[..], first, d, s1[i..], s2[j - middle..]);
  }

  /** Copies [first, last) of an array down to result, first element first. */
  method CopyDown<T>(a: array<T>, first: nat, last: nat, result: nat)
    requires result <= first <= last <= a.Length
    modifies a
    ensures Outside(old(a[..]), a[..], result, result + (last - first))
    ensures a[result..result + (last - first)] == old(a[first..last])
  {
    ghost var s := a[..];
    for i := first to last
      invariant forall j {:trigger a[j]} :: 0 <= j < a.Length ==>
        a[j] == if result <= j < result + (i - first) then s[first + (j - result)] else s[j]
    {
      a[result + (i - first)] := a[i];
    }
  }

  /** Copies src[first..last) to end at result in another array, last element first. */
  method CopyBackwardTo<T>(src: array<T>, first: nat, last: nat, dst: array<T>, result: nat)
    requires src != dst && first <= last <= src.Length && last - first <= result <= dst.Length
    modifies dst
    ensures Outside(old(dst[..]), dst[..], result - (last - first), result)
    ensures dst[result - (last - first)..result] == src[first..last]
  {
    ghost var s := dst[..];
    var i := last;
    while i > first
      invariant first <= i <= last
      invariant forall j {:trigger dst[j]} :: 0 <= j < dst.Length ==>
        dst[j] == if result - (last - i) <= j < result then src[last - (result - j)] else s[j]
    {
      i := i - 1;
      dst[result - (last - i)] := src[i];
    }
  }

  /** d, the merged part so far, ends at r in t; elsewhere t agrees with s. */
  ghost predicate WrittenBack<T>(s: seq<T>, t: seq<T>, r: nat, d: seq<T>) {
    |d| <= r <= |s| && Outside(s, t, r - |d|, r) && t[r - |d|..r] == d
  }

  lemma Prepended<T>(s: seq<T>, t: seq<T>, u: seq<T>, r: nat, d: seq<T>, v: T)
    requires |d| < r && WrittenBack(s, t, r, d) && |u| == |t|
    requires forall k {:trigger u[k]} :: 0 <= k < |u| ==> u[k] == if k == r - |d| - 1 then v else t[k]
    ensures WrittenBack(s, u, r, [v] + d)
  {
    var b := r - |d|;
    forall k | 0 <= k < |s| && !(b - 1 <= k < r) ensures u[k] == s[k] { assert t[k] == s[k]; }
    assert u[b - 1..r] == [v] + u[b..r];
    forall k | 0 <= k < |d| ensures u[b + k] == d[k] { assert u[b + k] == t[b + k] == t[b..r][k]; }
    assert u[b..r] == d;
  }

  lemma FirstWritten<T(!new)>(less: (T, T) -> bool, s1: seq<T>, s2: seq<T>, s: seq<T>, t: seq<T>, u: seq<T>,
                              d: seq<T>, i: int, j: int, r: nat) returns (e: seq<T>)
    requires StrictWeakOrder(less) && 0 <= i && MergingBack(less, s1, s2, d, i + 1, j)
    requires j > 0 ==> less(s2[j - 1], s1[i])
    requires |d| < r && WrittenBack(s, t, r, d) && |u| == |t|
    requires forall k {:trigger u[k]} :: 0 <= k < |u| ==> u[k] == if k == r - |d| - 1 then s1[i] else t[k]
    ensures |e| == |d| + 1 && MergingBack(less, s1, s2, e, i, j) && WrittenBack(s, u, r, e)
  {
    TakeFirstBack(less, s1, s2, d, i + 1, j);
    Prepended(s, t, u, r, d, s1[i]);
    e := [s1[i]] + d;
  }

  lemma SecondWritten<T(!new)>(less: (T, T) -> bool, s1: seq<T>, s2: seq<T>, s: seq<T>, t: seq<T>, u: seq<T>,
                               d: seq<T>, i: int, j: int, r: nat) returns (e: seq<T>)
    requires StrictWeakOrder(less) && 0 <= j && MergingBack(less, s1, s2, d, i, j + 1)
    requires i > 0 ==> !less(s2[j], s1[i - 1])
    requires |d| < r && WrittenBack(s, t, r, d) && |u| == |t|
    requires forall k {:trigger u[k]} :: 0 <= k < |u| ==> u[k] == if k == r - |d| - 1 then s2[j] else t[k]
    ensures |e| == |d| + 1 && MergingBack(less, s1, s2, e, i, j) && WrittenBack(s, u, r, e)
  {
    TakeSecondBack(less, s1, s2, d, i, j + 1);
    Prepended(s, t, u, r, d, s2[j]);
    e := [s2[j]] + d;
  }

  /** Merges [first, middle) with the buffered run b[..n], writing downwards from last, until
      one is used up.  The writing position never passes the reading position in the same array. */
  method MergeTails<T(!new)>(less: (T, T) -> bool, a: array<T>, first: nat, middle: nat, b: array<T>, n: nat, last: nat)
    returns (i: nat, j: nat, ghost d: seq<T>)
    requires StrictWeakOrder(less) && a != b && n <= b.Length && first <= middle && middle + n == last <= a.Length
    requires Sorted(less, a[first..middle]) && Sorted(less, b[..n])
    modifies a
    ensures first <= i <= middle && 0 <= j <= n && (i == first || j == 0) && i + j + |d| == last
    ensures MergingBack(less, old(a[first..middle]), b[..n], d, i - first, j)
    ensures WrittenBack(old(a[..]), a[..], last, d)
  {
    hide StrictWeakOrder, Sorted, MergingBack;
    ghost var s, s1, s2 := a[..], a[first..middle], b[..n];
    ghost var x := b[..];
    assert s1 == s[first..middle] && s2 == x[..n];
    i, j := middle, n;
    MergeBackStart(less, s1, s2);
    d := [];
    while i != first && j != 0
      invariant first <= i <= middle && 0 <= j <= n && i + j + |d| == last
      invariant MergingBack(less, s1, s2, d, i - first, j)
      invariant WrittenBack(s, a[..], last, d)
    {
      ghost var t := a[..];
      assert t[i - 1] == s1[i - 1 - first];
      if less(b[j - 1], a[i - 1]) {
        i := i - 1;
        a[i + j] := a[i];
        d := FirstWritten(less, s1, s2, s, t, a[..], d, i - first, j, last);
      } else {
        j := j - 1;
        a[i + j] := b[j];
        d := SecondWritten(less, s1, s2, s, t, a[..], d, i - first, j, last);
      }
    }
  }

  method MergeBackward<T(!new)>(less: (T, T) -> bool, a: array<T>, first: nat, middle: nat, b: array<T>, n: nat, last: nat)
    requires StrictWeakOrder(less) && a != b && n <= b.Length && first <= middle && middle + n == last <= a.Length
    requires Sorted(less, a[first..middle]) && Sorted(less, b[..n])
    modifies a
    ensures Outside(old(a[..]), a[..], first, last)
    ensures StablySorted(less, old(a[first..middle]) + b[..n], a[first..last])
  {
    hide StrictWeakOrder, Sorted, MergingBack, StablySorted;
    ghost var s, s1, s2 := a[..], a[first..middle], b[..n];
    ghost var d;
    var i, j;
    i, j, d := MergeTails(less, a, first, middle, b, n, last);
    MergeBackEnd(less, s1, s2, d, i - first, j);
    ghost var t := a[..];
    CopyBackwardTo(b, 0, j, a, i + j);
    assert b[0..j] == s2[..j];
    BackFilled(s, t, a[..], first, i, last, d, s2[..j]);
    assert s[first..i] == s1[..i - first];
  }

  /** What is left of the first run already stands where it belongs. */
  lemma BackFilled<T>(s: seq<T>, t: seq<T>, u: seq<T>, first: nat, i: nat, last: nat, d: seq<T>, y: seq<T>)
    requires first <= i && i + |y| + |d| == last <= |s| && WrittenBack(s, t, last, d)
    requires Outside(t, u, i, i + |y|) && u[i..i + |y|] == y
    ensures Outside(s, u, first, last) && u[first..last] == s[first..i] + y + d
  {
    var c := i + |y|;
    OutsideTrans(s, t, u, c, last, i, c);
    OutsideInner(t, u, i, c, first, i);
    OutsideInner(s, t, c, last, first, i);
    OutsideInner(t, u, i, c, c, last);
    assert u[first..last] == u[first..i] + u[i..c] + u[c..last];
  }

  // ---------- rotating and merging with whatever buffer there is ----------

  lemma BlocksRotated<T>(s: seq<T>, t: seq<T>, first: nat, middle: nat, last: nat)
    requires first <= middle <= last <= |s| && Outside(s, t, first, last)
    requires t[first..first + (last - middle)] == s[middle..last] && t[first + (last - middle)..last] == s[first..middle]
    ensures t == Rotate.Rotated(s, first, middle, last)
  {
    var m := first + (last - middle);
    assert t == t[..first] + t[first..m] + t[m..last] + t[last..];
    assert t[..first] == s[..first] && t[last..] == s[last..];
  }

  /** Exchanges two blocks, through the buffer when the shorter one fits. */
  method RotateAdaptive<T>(a: array<T>, first: nat, middle: nat, last: nat, b: array<T>, size: nat) returns (newMiddle: nat)
    requires a != b && first <= middle <= last <= a.Length && size <= b.Length
    modifies a, b
    ensures a[..] == Rotate.Rotated(old(a[..]), first, middle, last)
    ensures newMiddle == first + (last - middle)
  {
    hide Outside, Rotate.Rotated;
    ghost var s := a[..];
    var len1, len2 := middle - first, last - middle;
    newMiddle := first + len2;
    if len1 > len2 && len2 <= size {
      CopyTo(a, middle, last, b, 0);
      CopyBackward(a, first, middle, last);
      ghost var t := a[..];
      assert t[newMiddle..last] == s[first..middle];
      CopyTo(b, 0, len2, a, first);
      OutsideInner(t, a[..], first, newMiddle, newMiddle, last);
      BlocksRotated(s, a[..], first, middle, last);
    } else if len1 <= size {
      CopyTo(a, first, middle, b, 0);
      CopyDown(a, middle, last, first);
      ghost var t := a[..];
      CopyBackwardTo(b, 0, len1, a, last);
      OutsideTrans(s, t, a[..], first, newMiddle, newMiddle, last);
      OutsideInner(t, a[..], newMiddle, last, first, newMiddle);
      BlocksRotated(s, a[..], first, middle, last);
    } else {
      Rotate.Rotate(a, first, middle, last);
    }
  }

  method MergeAdaptive<T(!new)>(less: (T, T) -> bool, a: array<T>, first: nat, middle: nat, last: nat, b: array<T>, size: nat)
    requires StrictWeakOrder(less) && a != b && 1 <= size <= b.Length
    requires last <= a.Length && TwoRuns(less, a[..], first, middle, last)
    modifies a, b
    ensures SortedAt(less, old(a[..]), a[..], first, last)
    decreases last - first
  {
    ghost var s := a[..];
    var len1, len2 := middle - first, last - middle;
    assert s[first..last] == s[first..middle] + s[middle..last];
    if len1 <= len2 && len1 <= size {
      CopyTo(a, first, middle, b, 0);
      assert b[0..len1] == b[..len1];
      MergeForward(less, b, len1, a, first, middle, last);
    } else if len2 <= size {
      CopyTo(a, middle, last, b, 0);
      assert b[0..len2] == b[..len2];
      MergeBackward(less, a, first, middle, b, len2, last);
    } else {
      MergeBySplitting(less, a, first, middle, last, b, size);
    }
  }

  /** Neither run fits the buffer: cut both, exchange the inner parts and merge each side. */
  method MergeBySplitting<T(!new)>(less: (T, T) -> bool, a: array<T>, first: nat, middle: nat, last: nat, b: array<T>, size: nat)
    requires StrictWeakOrder(less) && a != b && 1 <= size <= b.Length
    requires last <= a.Length && TwoRuns(less, a[..], first, middle, last)
    requires size < last - middle && (middle - first <= last - middle ==> size < middle - first)
    modifies a, b
    ensures SortedAt(less, old(a[..]), a[..], first, last)
    decreases last - first, 0
  {
    ghost var s := a[..];
    var firstCut, secondCut := ChooseCut(less, a, first, middle, last);
    var newMiddle := RotateAdaptive(a, firstCut, middle, secondCut, b, size);
    ghost var t := a[..];
    AfterRotation(less, s, t, first, firstCut, middle, secondCut, last);
    MergeAdaptive(less, a, first, firstCut, newMiddle, b, size);
    ghost var u := a[..];
    OutsideInner(t, u, first, newMiddle, newMiddle, secondCut);
    OutsideInner(t, u, first, newMiddle, secondCut, last);
    MergeAdaptive(less, a, newMiddle, secondCut, last, b, size);
    BothSides(less, s, t, u, a[..], first, firstCut, middle, secondCut, last);
  }

  // ---------- merge sort from the bottom up ----------

  /** s is cut into chunks of step elements, the last one possibly shorter, and each is sorted. */
  ghost predicate ChunksSorted<T>(less: (T, T) -> bool, s: seq<T>, step: int)
    decreases |s|
  {
    step > 0 && if |s| <= step then Sorted(less, s) else Sorted(less, s[..step]) && ChunksSorted(less, s[step..], step)
  }

  /** The same with no shorter chunk at the end. */
  ghost predicate FullChunks<T>(less: (T, T) -> bool, s: seq<T>, step: int)
    decreases |s|
  {
    step > 0 && (s == [] || (step <= |s| && Sorted(less, s[..step]) && FullChunks(less, s[step..], step)))
  }

  lemma {:induction false} AddChunk<T>(less: (T, T) -> bool, s: seq<T>, c: seq<T>, step: int)
    requires FullChunks(less, s, step) && |c| == step && Sorted(less, c)
    ensures FullChunks(less, s + c, step)
    decreases |s|
  {
    if s == [] {
      assert s + c == c && c[..step] == c;
    } else {
      AddChunk(less, s[step..], c, step);
      assert (s + c)[..step] == s[..step] && (s + c)[step..] == s[step..] + c;
    }
  }

  lemma {:induction false} AddLastChunk<T>(less: (T, T) -> bool, s: seq<T>, c: seq<T>, step: int)
    requires FullChunks(less, s, step) && |c| <= step && Sorted(less, c)
    ensures ChunksSorted(less, s + c, step)
    decreases |s|
  {
    if s == [] {
      assert s + c == c;
    } else {
      AddLastChunk(less, s[step..], c, step);
      assert (s + c)[..step] == s[..step] && (s + c)[step..] == s[step..] + c;
      if |s + c| == step { assert s + c == s[..step]; }
    }
  }

  /** The next chunk of [first, last), whose first part is already in chunks. */
  lemma ChunkSorted<T(!new)>(less: (T, T) -> bool, s: seq<T>, t: seq<T>, u: seq<T>, first: int, f: int, g: int)
    requires Outside(s, t, first, f) && SameClasses(less, s[first..f], t[first..f]) && SortedAt(less, t, u, f, g)
    ensures Outside(s, u, first, g) && SameClasses(less, s[first..g], u[first..g])
    ensures u[first..g] == t[first..f] + u[f..g]
  {
    OutsideTrans(s, t, u, first, f, f, g);
    OutsideInner(s, t, first, f, f, g);
    OutsideInner(t, u, f, g, first, f);
    assert s[first..g] == s[first..f] + s[f..g];
    assert u[first..g] == u[first..f] + u[f..g];
    SameConcat(less, s[first..f], t[first..f], s[f..g], u[f..g]);
  }

  method ChunkInsertionSort<T(!new)>(less: (T, T) -> bool, a: array<T>, first: nat, last: nat, chunk: nat)
    requires StrictWeakOrder(less) && first <= last <= a.Length && chunk > 0
    modifies a
    ensures Outside(old(a[..]), a[..], first, last)
    ensures SameClasses(less, old(a[first..last]), a[first..last])
    ensures ChunksSorted(less, a[first..last], chunk)
  {
    ghost var s := a[..];
    var f := first;
    SameRefl(less, s[first..f]);
    while last - f >= chunk
      invariant first <= f <= last
      invariant Outside(s, a[..], first, f) && SameClasses(less, s[first..f], a[first..f])
      invariant FullChunks(less, a[first..f], chunk)
    {
      ghost var t := a[..];
      InsertionSort(less, a, f, f + chunk);
      ChunkSorted(less, s, t, a[..], first, f, f + chunk);
      AddChunk(less, t[first..f], a[f..f + chunk], chunk);
      f := f + chunk;
    }
    ghost var t := a[..];
    InsertionSort(less, a, f, last);
    ChunkSorted(less, s, t, a[..], first, f, last);
    AddLastChunk(less, t[first..f], a[f..last], chunk);
  }

  lemma {:induction false} SplitChunks<T>(less: (T, T) -> bool, s: seq<T>, step: int)
    requires ChunksSorted(less, s, step)
    ensures |s| >= step ==> Sorted(less, s[..step]) && ChunksSorted(less, s[step..], step)
    ensures |s| <= step ==> Sorted(less, s)
  {
    if |s| == step {
      assert s[..step] == s;
    }
  }

  /** The first two chunks, full or not, are two runs. */
  lemma NextTwoRuns<T>(less: (T, T) -> bool, x: seq<T>, f: int, last: int, step: int)
    requires 0 <= f <= last <= |x| && ChunksSorted(less, x[f..last], step)
    ensures last - f >= 2 * step ==> TwoRuns(less, x, f, f + step, f + 2 * step) && ChunksSorted(less, x[f + 2 * step..last], step)
    ensures last - f < 2 * step ==> TwoRuns(less, x, f, if last - f < step then last else f + step, last)
  {
    var s := x[f..last];
    SplitChunks(less, s, step);
    if |s| >= step {
      SplitChunks(less, s[step..], step);
      assert s[..step] == x[f..f + step] && s[step..] == x[f + step..last];
      if |s| >= 2 * step {
        assert s[step..][..step] == x[f + step..f + 2 * step] && s[step..][step..] == x[f + 2 * step..last];
      }
    }
  }

  /** x[first..f] has been merged into t at result, in chunks of step; elsewhere t agrees with s. */
  ghost predicate PairsMerged<T(!new)>(less: (T, T) -> bool, x: seq<T>, s: seq<T>, t: seq<T>, first: int, f: int, result: int, step: int) {
    && 0 <= first <= f <= |x| && 0 <= result && result + (f - first) <= |s|
    && Outside(s, t, result, result + (f - first))
    && SameClasses(less, x[first..f], t[result..result + (f - first)])
    && FullChunks(less, t[result..result + (f - first)], step)
  }

  lemma ChunkMerged<T(!new)>(less: (T, T) -> bool, x: seq<T>, s: seq<T>, t: seq<T>, u: seq<T>,
                             first: int, f: int, g: int, result: int, step: int)
    requires PairsMerged(less, x, s, t, first, f, result, step)
    requires f <= g <= |x| && result + (g - first) <= |s| && g - f <= step
    requires Outside(t, u, result + (f - first), result + (g - first))
    requires StablySorted(less, x[f..g], u[result + (f - first)..result + (g - first)])
    ensures g - f == step ==> PairsMerged(less, x, s, u, first, g, result, step)
    ensures Outside(s, u, result, result + (g - first)) && SameClasses(less, x[first..g], u[result..result + (g - first)])
    ensures ChunksSorted(less, u[result..result + (g - first)], step)
  {
    var r, r' := result + (f - first), result + (g - first);
    OutsideTrans(s, t, u, result, r, r, r');
    OutsideInner(t, u, r, r', result, r);
    assert x[first..g] == x[first..f] + x[f..g];
    assert u[result..r'] == u[result..r] + u[r..r'];
    SameConcat(less, x[first..f], t[result..r], x[f..g], u[r..r']);
    AddLastChunk(less, t[result..r], u[r..r'], step);
    if g - f == step { AddChunk(less, t[result..r], u[r..r'], step); }
  }

  /** Merges neighbouring chunks of src pairwise into dst. */
  method MergeSortLoop<T(!new)>(less: (T, T) -> bool, src: array<T>, first: nat, last: nat, dst: array<T>, result: nat, step: nat)
    requires StrictWeakOrder(less) && src != dst && first <= last <= src.Length && result + (last - first) <= dst.Length
    requires step > 0 && ChunksSorted(less, src[first..last], step)
    modifies dst
    ensures Outside(old(dst[..]), dst[..], result, result + (last - first))
    ensures SameClasses(less, src[first..last], dst[result..result + (last - first)])
    ensures ChunksSorted(less, dst[result..result + (last - first)], 2 * step)
  {
    ghost var x := src[..];
    assert x[first..last] == src[first..last];
    var f := MergePairs(less, src, first, last, dst, result, step);
    ghost var s, t := old(dst[..]), dst[..];
    NextTwoRuns(less, x, f, last, step);
    var step' := if last - f < step then last - f else step;
    MergeApart(less, src, f, f + step', last, dst, result + (f - first));
    ChunkMerged(less, x, s, t, dst[..], first, f, last, result, 2 * step);
  }

  /** Merges as long as there are two full chunks. */
  method MergePairs<T(!new)>(less: (T, T) -> bool, src: array<T>, first: nat, last: nat, dst: array<T>, result: nat, step: nat)
    returns (f: nat)
    requires StrictWeakOrder(less) && src != dst && first <= last <= src.Length && result + (last - first) <= dst.Length
    requires step > 0 && ChunksSorted(less, src[first..last], step)
    modifies dst
    ensures first <= f <= last && last - f < 2 * step && ChunksSorted(less, src[f..last], step)
    ensures PairsMerged(less, src[..], old(dst[..]), dst[..], first, f, result, 2 * step)
  {
    hide StrictWeakOrder, Sorted, StablySorted, SameClasses, ChunksSorted;
    ghost var x, s := src[..], dst[..];
    f := first;
    assert x[first..last] == src[first..last];
    SameRefl(less, x[first..first]);
    assert dst[result..result] == x[first..first];
    var two := 2 * step;
    while last - f >= two
      invariant first <= f <= last && src[..] == x
      invariant ChunksSorted(less, x[f..last], step)
      invariant PairsMerged(less, x, s, dst[..], first, f, result, two)
    {
      ghost var t := dst[..];
      NextTwoRuns(less, x, f, last, step);
      var g, r := f + two, result + (f - first);
      MergeApart(less, src, f, f + step, g, dst, r);
      ghost var u := dst[..];
      assert src[f..g] == x[f..g] && dst[r..r + two] == u[r..r + two];
      ChunkMerged(less, x, s, t, u, first, f, g, result, two);
      f := g;
    }
  }

  method MergeSortWithBuffer<T(!new)>(less: (T, T) -> bool, a: array<T>, first: nat, last: nat, b: array<T>)
    requires StrictWeakOrder(less) && a != b && first <= last <= a.Length && last - first <= b.Length
    modifies a, b
    ensures SortedAt(less, old(a[..]), a[..], first, last)
  {
    ghost var s := a[..];
    var len := last - first;
    var step := 7;
    ChunkInsertionSort(less, a, first, last, step);
    while step < len
      invariant step > 0 && Outside(s, a[..], first, last)
      invariant SameClasses(less, s[first..last], a[first..last])
      invariant ChunksSorted(less, a[first..last], step)
    {
      ghost var t := a[..];
      MergeSortLoop(less, a, first, last, b, 0, step);
      ghost var m := b[0..len];
      step := step * 2;
      MergeSortLoop(less, b, 0, len, a, first, step);
      step := step * 2;
      OutsideTrans(s, t, a[..], first, last, first, last);
      SameTrans(less, s[first..last], t[first..last], m);
      SameTrans(less, s[first..last], m, a[first..last]);
    }
    SplitChunks(less, a[first..last], step);
  }

  method StableSortAdaptive<T(!new)>(less: (T, T) -> bool, a: array<T>, first: nat, last: nat, b: array<T>, size: nat)
    requires StrictWeakOrder(less) && a != b && 1 <= size <= b.Length && first <= last <= a.Length
    modifies a, b
    ensures SortedAt(less, old(a[..]), a[..], first, last)
    decreases last - first
  {
    ghost var s := a[..];
    var len := (last - first + 1) / 2;
    var middle := first + len;
    ghost var t;
    if len > size {
      StableSortAdaptive(less, a, first, middle, b, size);
      t := a[..];
      StableSortAdaptive(less, a, middle, last, b, size);
    } else {
      MergeSortWithBuffer(less, a, first, middle, b);
      t := a[..];
      MergeSortWithBuffer(less, a, middle, last, b);
    }
    ghost var u := a[..];
    TwoHalves(less, s, t, u, first, middle, last);
    MergeAdaptive(less, a, first, middle, last, b, size);
    SortedAgain(less, s, u, a[..], first, last);
  }

  /** Sorts with whatever temporary buffer the caller obtained, an empty one standing for none. */
  method StableSortWith<T(!new)>(less: (T, T) -> bool, a: array<T>, first: nat, last: nat, b: array<T>)
    requires StrictWeakOrder(less) && a != b && first <= last <= a.Length
    modifies a, b
    ensures SortedAt(less, old(a[..]), a[..], first, last)
    ensures forall t :: SortedAt(less, old(a[..]), t, first, last) ==> a[..] == t
  {
    ghost var s := a[..];
    if b.Length == 0 {
      InplaceStableSort(less, a, first, last);
    } else {
      StableSortAdaptive(less, a, first, last, b, b.Length);
    }
    ghost var u := a[..];
    forall t | SortedAt(less, s, t, first, last) ensures t == u {
      OnlyOneResult(less, s, t, u, first, last);
    }
  }

  /** Whatever path is taken, and whatever the size of the buffer, the result is the same. */
  lemma OnlyOneResult<T(!new)>(less: (T, T) -> bool, s: seq<T>, t: seq<T>, u: seq<T>, first: int, last: int)
    requires StrictWeakOrder(less) && SortedAt(less, s, t, first, last) && SortedAt(less, s, u, first, last)
    ensures t == u
  {
    forall x ensures Class(less, t[first..last], x) == Class(less, u[first..last], x) {
      assert Class(less, s[first..last], x) == Class(less, t[first..last], x);
    }
    StableUnique(less, t[first..last], u[first..last]);
    OutsideInner(s, t, first, last, 0, first);
    OutsideInner(s, u, first, last, 0, first);
    OutsideInner(s, t, first, last, last, |s|);
    OutsideInner(s, u, first, last, last, |s|);
    assert t == t[0..first] + t[first..last] + t[last..|t|];
    assert u == u[0..first] + u[first..last] + u[last..|u|];
  }
}
