/** The three-way quicksort of the C library, over elements instead of bytes. */
module QSort {
  import opened Permute

  /** What qsort asks of its comparison: the sign orders the elements. */
  ghost predicate TotalPreorder<T(!new)>(cmp: (T, T) -> int) {
    && (forall x, y :: cmp(x, y) < 0 <==> cmp(y, x) > 0)
    && (forall x, y, z :: cmp(x, y) <= 0 && cmp(y, z) <= 0 ==> cmp(x, z) <= 0)
  }

  ghost predicate SortedBy<T>(cmp: (T, T) -> int, s: seq<T>, lo: int, hi: int) {
    0 <= lo <= hi <= |s| && forall i, j {:trigger s[i], s[j]} :: lo <= i < j < hi ==> cmp(s[i], s[j]) <= 0
  }

  /** Nothing in [lo, mid) is greater than anything in [mid, hi). */
  ghost predicate InOrder<T>(cmp: (T, T) -> int, s: seq<T>, lo: int, mid: int, hi: int) {
    0 <= lo <= mid <= hi <= |s| && forall i, j {:trigger s[i], s[j]} :: lo <= i < mid <= j < hi ==> cmp(s[i], s[j]) <= 0
  }

  // ---------- insertion sort by swaps ----------

  /** [lo, hi) is sorted but for the element at p, which is on its way down. */
  ghost predicate AllButOne<T>(cmp: (T, T) -> int, s: seq<T>, lo: nat, hi: nat, p: nat) {
    && lo <= p < hi <= |s|
    && (forall i, j {:trigger s[i], s[j]} :: lo <= i < j < hi && i != p && j != p ==> cmp(s[i], s[j]) <= 0)
    && (forall j {:trigger s[j]} :: p < j < hi ==> cmp(s[p], s[j]) <= 0)
  }

  /** Whether the element before p is greater. */
  predicate SinksIn<T>(cmp: (T, T) -> int, s: seq<T>, lo: nat, p: nat) {
    lo < p < |s| && cmp(s[p - 1], s[p]) > 0
  }

  method Sinks<T>(cmp: (T, T) -> int, a: array<T>, lo: nat, p: nat) returns (r: bool)
    requires p < a.Length
    ensures r == SinksIn(cmp, a[..], lo, p) && (r ==> lo < p)
  {
    r := p > lo && cmp(a[p - 1], a[p]) > 0;
  }

  lemma SwapDown<T(!new)>(cmp: (T, T) -> int, s: seq<T>, t: seq<T>, lo: nat, hi: nat, p: nat, q: nat)
    requires TotalPreorder(cmp) && AllButOne(cmp, s, lo, hi, p) && SinksIn(cmp, s, lo, p) && q == p - 1
    requires t == s[p := s[q]][q := s[p]]
    ensures AllButOne(cmp, t, lo, hi, q)
  {
    assert cmp(s[p], s[p - 1]) < 0;
  }

  lemma Arrived<T(!new)>(cmp: (T, T) -> int, s: seq<T>, lo: nat, hi: nat, p: nat)
    requires TotalPreorder(cmp) && AllButOne(cmp, s, lo, hi, p) && !SinksIn(cmp, s, lo, p)
    ensures SortedBy(cmp, s, lo, hi)
  {
    forall i | lo <= i < p ensures cmp(s[i], s[p]) <= 0 {
      if i < p - 1 { assert cmp(s[i], s[p - 1]) <= 0; }
    }
  }

  lemma ShortSorted<T(!new)>(cmp: (T, T) -> int, s: seq<T>, first: nat, end: nat)
    requires first <= end <= |s| && end - first <= 1
    ensures Permuted(s, s, first, end) && SortedBy(cmp, s, first, end)
  {
  }

  lemma NextDown<T(!new)>(cmp: (T, T) -> int, s: seq<T>, lo: nat, p: nat)
    requires SortedBy(cmp, s, lo, p) && p < |s|
    ensures AllButOne(cmp, s, lo, p + 1, p)
  {
  }

  method SinkOnce<T(!new)>(cmp: (T, T) -> int, a: array<T>, ghost lo: nat, ghost end: nat, p: nat, ghost hi: nat)
    requires TotalPreorder(cmp) && end <= hi <= a.Length && AllButOne(cmp, a[..], lo, end, p) && SinksIn(cmp, a[..], lo, p)
    modifies a
    ensures Permuted(old(a[..]), a[..], lo, hi) && AllButOne(cmp, a[..], lo, end, p - 1)
  {
    hide TotalPreorder, Permuted;
    ghost var t := a[..];
    var q := p - 1;
    Swap(a, p, q, lo, hi);
    SwapDown(cmp, t, a[..], lo, end, p, q);
  }

  /** The element at p goes down while the one before it is greater. */
  method SwapIntoPlace<T(!new)>(cmp: (T, T) -> int, a: array<T>, lo: nat, p: nat, ghost hi: nat)
    requires TotalPreorder(cmp) && lo <= p < hi <= a.Length && SortedBy(cmp, a[..], lo, p)
    modifies a
    ensures Permuted(old(a[..]), a[..], lo, hi) && SortedBy(cmp, a[..], lo, p + 1)
  {
    hide TotalPreorder, Permuted, AllButOne, SortedBy, SinksIn;
    ghost var s := a[..];
    SelfPermuted(s, lo, hi);
    NextDown(cmp, s, lo, p);
    var pl := p;
    var sinks := Sinks(cmp, a, lo, pl);
    while sinks
      invariant lo <= pl <= p && (sinks ==> lo < pl) && Permuted(s, a[..], lo, hi) && AllButOne(cmp, a[..], lo, p + 1, pl)
      invariant sinks == SinksIn(cmp, a[..], lo, pl)
      decreases pl
    {
      ghost var t := a[..];
      SinkOnce(cmp, a, lo, p + 1, pl, hi);
      PermutedTrans(s, t, a[..], lo, hi);
      pl := pl - 1;
      sinks := Sinks(cmp, a, lo, pl);
    }
    Arrived(cmp, a[..], lo, p + 1, pl);
  }

  method InsertionSort<T(!new)>(cmp: (T, T) -> int, a: array<T>, lo: nat, hi: nat)
    requires TotalPreorder(cmp) && lo <= hi <= a.Length
    modifies a
    ensures Permuted(old(a[..]), a[..], lo, hi) && SortedBy(cmp, a[..], lo, hi)
  {
    hide TotalPreorder, Permuted, SortedBy;
    ghost var s := a[..];
    ShortSorted(cmp, s, lo, if lo == hi then lo else lo + 1);
    SelfPermuted(s, lo, hi);
    if lo == hi { return; }
    for pm := lo + 1 to hi
      invariant Permuted(s, a[..], lo, hi) && SortedBy(cmp, a[..], lo, pm)
    {
      ghost var t := a[..];
      SwapIntoPlace(cmp, a, lo, pm, hi);
      PermutedTrans(s, t, a[..], lo, hi);
    }
  }

  // ---------- choosing the pivot ----------

  predicate Mid<T>(cmp: (T, T) -> int, x: T, v: T, y: T) {
    (cmp(x, v) <= 0 && cmp(v, y) <= 0) || (cmp(y, v) <= 0 && cmp(v, x) <= 0)
  }

  /** The index of the median of three elements. */
  function Med3<T(!new)>(cmp: (T, T) -> int, a: array<T>, i: nat, j: nat, k: nat): (m: nat)
    requires TotalPreorder(cmp) && i < a.Length && j < a.Length && k < a.Length
    reads a
    ensures (m == i && Mid(cmp, a[j], a[m], a[k])) || (m == j && Mid(cmp, a[i], a[m], a[k])) || (m == k && Mid(cmp, a[i], a[m], a[j]))
  {
    if cmp(a[i], a[j]) < 0 then
      if cmp(a[j], a[k]) < 0 then j else if cmp(a[i], a[k]) < 0 then k else i
    else if cmp(a[j], a[k]) > 0 then j
    else if cmp(a[i], a[k]) < 0 then i
    else k
  }

  /** The middle, the median of three, or for many elements the median of three medians. */
  method ChoosePivot<T(!new)>(cmp: (T, T) -> int, a: array<T>, first: nat, n: nat) returns (pm: nat)
    requires TotalPreorder(cmp) && 7 <= n && first + n <= a.Length
    ensures first <= pm < first + n
  {
    pm := first + n / 2;
    if n > 7 {
      var pl, pn := first, first + n - 1;
      if n > 40 {
        var d := n / 8;
        pl := Med3(cmp, a, pl, pl + d, pl + 2 * d);
        pm := Med3(cmp, a, pm - d, pm, pm + d);
        pn := Med3(cmp, a, pn - 2 * d, pn - d, pn);
      }
      pm := Med3(cmp, a, pl, pm, pn);
    }
  }

  // ---------- the partition ----------

  /** The element at first is the pivot.  Up to pa the elements equal it, up to pb they are less;
      behind pc they are greater, and behind pd they equal it again. */
  ghost predicate Regions<T>(cmp: (T, T) -> int, s: seq<T>, first: nat, end: nat, pa: int, pb: int, pc: int, pd: int) {
    && first < pa <= pb <= pc + 1 <= pd + 1 <= end <= |s|
    && (forall k {:trigger s[k]} :: first <= k < pa ==> cmp(s[k], s[first]) == 0)
    && (forall k {:trigger s[k]} :: pa <= k < pb ==> cmp(s[k], s[first]) < 0)
    && (forall k {:trigger s[k]} :: pc < k <= pd ==> cmp(s[k], s[first]) > 0)
    && (forall k {:trigger s[k]} :: pd < k < end ==> cmp(s[k], s[first]) == 0)
  }

  /** The element at pb equals the pivot and joins those on the left. */
  lemma EqualLeft<T(!new)>(cmp: (T, T) -> int, s: seq<T>, first: nat, end: nat, pa: int, pb: int, pc: int, pd: int)
    requires Regions(cmp, s, first, end, pa, pb, pc, pd) && pb <= pc && cmp(s[pb], s[first]) == 0
    ensures Regions(cmp, s[pa := s[pb]][pb := s[pa]], first, end, pa + 1, pb + 1, pc, pd)
  {
  }

  lemma EqualRight<T(!new)>(cmp: (T, T) -> int, s: seq<T>, first: nat, end: nat, pa: int, pb: int, pc: int, pd: int)
    requires Regions(cmp, s, first, end, pa, pb, pc, pd) && pb <= pc && cmp(s[pc], s[first]) == 0
    ensures Regions(cmp, s[pc := s[pd]][pd := s[pc]], first, end, pa, pb, pc - 1, pd - 1)
  {
  }

  lemma Crossing<T(!new)>(cmp: (T, T) -> int, s: seq<T>, first: nat, end: nat, pa: int, pb: int, pc: int, pd: int)
    requires Regions(cmp, s, first, end, pa, pb, pc, pd) && pb < pc && cmp(s[pb], s[first]) > 0 && cmp(s[pc], s[first]) < 0
    ensures Regions(cmp, s[pb := s[pc]][pc := s[pb]], first, end, pa, pb + 1, pc - 1, pd)
  {
  }

  /** Scans up over the elements that are not greater. */
  method ScanUp<T(!new)>(cmp: (T, T) -> int, a: array<T>, first: nat, end: nat, pa0: nat, pb0: nat, pc: int, ghost pd: int, cnt0: bool)
    returns (pa: nat, pb: nat, cnt: bool)
    requires TotalPreorder(cmp) && end <= a.Length && Regions(cmp, a[..], first, end, pa0, pb0, pc, pd)
    modifies a
    ensures Permuted(old(a[..]), a[..], first, end) && Regions(cmp, a[..], first, end, pa, pb, pc, pd) && pb0 <= pb
    ensures pb <= pc ==> cmp(a[pb], a[first]) > 0
    ensures (cnt0 ==> cnt) && (!cnt ==> a[..] == old(a[..]))
  {
    hide TotalPreorder, Permuted;
    ghost var s := a[..];
    SelfPermuted(s, first, end);
    pa, pb, cnt := pa0, pb0, cnt0;
    while pb <= pc && cmp(a[pb], a[first]) <= 0
      invariant Permuted(s, a[..], first, end) && Regions(cmp, a[..], first, end, pa, pb, pc, pd) && pb0 <= pb
      invariant (cnt0 ==> cnt) && (!cnt ==> a[..] == s)
      decreases pc - pb
    {
      if cmp(a[pb], a[first]) == 0 {
        ghost var t := a[..];
        cnt := true;
        EqualLeft(cmp, t, first, end, pa, pb, pc, pd);
        Swap(a, pa, pb, first, end);
        PermutedTrans(s, t, a[..], first, end);
        pa := pa + 1;
      }
      pb := pb + 1;
    }
  }

  /** Scans down over the elements that are not less. */
  method ScanDown<T(!new)>(cmp: (T, T) -> int, a: array<T>, first: nat, end: nat, ghost pa: nat, pb: nat, pc0: int, pd0: int, cnt0: bool)
    returns (pc: int, pd: int, cnt: bool)
    requires TotalPreorder(cmp) && end <= a.Length && Regions(cmp, a[..], first, end, pa, pb, pc0, pd0)
    modifies a
    ensures Permuted(old(a[..]), a[..], first, end) && Regions(cmp, a[..], first, end, pa, pb, pc, pd) && pc <= pc0
    ensures pb <= pc ==> cmp(a[pc], a[first]) < 0
    ensures (cnt0 ==> cnt) && (!cnt ==> a[..] == old(a[..]))
    ensures a[first] == old(a[first]) && (pb <= pc ==> a[pb] == old(a[pb]))
  {
    hide TotalPreorder, Permuted;
    ghost var s := a[..];
    SelfPermuted(s, first, end);
    pc, pd, cnt := pc0, pd0, cnt0;
    while pb <= pc && cmp(a[pc], a[first]) >= 0
      invariant Permuted(s, a[..], first, end) && Regions(cmp, a[..], first, end, pa, pb, pc, pd) && pc <= pc0
      invariant (cnt0 ==> cnt) && (!cnt ==> a[..] == s)
      invariant forall k :: 0 <= k <= pc ==> a[k] == s[k]
      decreases pc - pb
    {
      if cmp(a[pc], a[first]) == 0 {
        ghost var t := a[..];
        cnt := true;
        EqualRight(cmp, t, first, end, pa, pb, pc, pd);
        Swap(a, pc, pd, first, end);
        PermutedTrans(s, t, a[..], first, end);
        pd := pd - 1;
      }
      pc := pc - 1;
    }
  }

  /** One scan from either side, and the exchange of the elements where they stopped. */
  method Round<T(!new)>(cmp: (T, T) -> int, a: array<T>, first: nat, end: nat, pa0: nat, pb0: nat, pc0: int, pd0: int, cnt0: bool)
    returns (pa: nat, pb: nat, pc: int, pd: int, cnt: bool, more: bool)
    requires TotalPreorder(cmp) && end <= a.Length && Regions(cmp, a[..], first, end, pa0, pb0, pc0, pd0)
    modifies a
    ensures Permuted(old(a[..]), a[..], first, end) && Regions(cmp, a[..], first, end, pa, pb, pc, pd)
    ensures if more then pc - pb < pc0 - pb0 && pc0 >= pb0 else pb > pc
    ensures (cnt0 ==> cnt) && (!cnt ==> a[..] == old(a[..]))
  {
    hide TotalPreorder, Permuted, Regions;
    ghost var t := a[..];
    pa, pb, cnt := ScanUp(cmp, a, first, end, pa0, pb0, pc0, pd0, cnt0);
    ghost var u := a[..];
    pc, pd, cnt := ScanDown(cmp, a, first, end, pa, pb, pc0, pd0, cnt);
    ghost var v := a[..];
    PermutedTrans(t, u, v, first, end);
    more := pb <= pc;
    if more {
      RegionsBounds(cmp, v, first, end, pa, pb, pc, pd);
      DifferentEnds(cmp, v, first, pb, pc);
      Crossing(cmp, v, first, end, pa, pb, pc, pd);
      Swap(a, pb, pc, first, end);
      PermutedTrans(t, v, a[..], first, end);
      cnt := true;
      pb := pb + 1;
      pc := pc - 1;
    }
  }

  /** The whole scan around the pivot at first; cnt tells whether anything was swapped. */
  method Partition<T(!new)>(cmp: (T, T) -> int, a: array<T>, first: nat, end: nat) returns (pa: nat, pb: nat, pc: int, pd: int, cnt: bool)
    requires TotalPreorder(cmp) && first < end <= a.Length
    modifies a
    ensures Permuted(old(a[..]), a[..], first, end) && Regions(cmp, a[..], first, end, pa, pb, pc, pd) && pb > pc
    ensures !cnt ==> a[..] == old(a[..])
  {
    hide TotalPreorder, Permuted, Regions;
    ghost var s := a[..];
    SelfPermuted(s, first, end);
    pa, pb, pc, pd, cnt := first + 1, first + 1, end - 1, end - 1, false;
    RegionsStart(cmp, s, first, end);
    var more := true;
    while more
      invariant Permuted(s, a[..], first, end) && Regions(cmp, a[..], first, end, pa, pb, pc, pd)
      invariant (!cnt ==> a[..] == s) && (!more ==> pb > pc)
      decreases more, pc - pb + 1
    {
      ghost var t := a[..];
      pa, pb, pc, pd, cnt, more := Round(cmp, a, first, end, pa, pb, pc, pd, cnt);
      PermutedTrans(s, t, a[..], first, end);
    }
  }

  lemma RegionsStart<T(!new)>(cmp: (T, T) -> int, s: seq<T>, first: nat, end: nat)
    requires TotalPreorder(cmp) && first < end <= |s|
    ensures Regions(cmp, s, first, end, first + 1, first + 1, end - 1, end - 1)
  {
    assert cmp(s[first], s[first]) == 0;
  }

  lemma RegionsBounds<T>(cmp: (T, T) -> int, s: seq<T>, first: nat, end: nat, pa: int, pb: int, pc: int, pd: int)
    requires Regions(cmp, s, first, end, pa, pb, pc, pd)
    ensures first < pa <= pb <= pc + 1 <= pd + 1 <= end <= |s|
  {
  }

  lemma DifferentEnds<T>(cmp: (T, T) -> int, s: seq<T>, first: nat, pb: nat, pc: int)
    requires first < pb <= pc < |s| && cmp(s[pb], s[first]) > 0 && cmp(s[pc], s[first]) < 0
    ensures pb < pc
  {
  }

  // ---------- bringing the equal elements together ----------

  /** Swaps the n elements from i on with those from j on. */
  method VecSwap<T(!new)>(a: array<T>, i: nat, j: nat, n: nat, ghost lo: nat, ghost hi: nat)
    requires lo <= i && i + n <= j && j + n <= hi <= a.Length
    modifies a
    ensures Permuted(old(a[..]), a[..], lo, hi) && Exchanged(old(a[..]), a[..], i, j, n)
  {
    hide Permuted, Exchanged;
    ghost var s := a[..];
    SelfPermuted(s, lo, hi);
    ExchangedNone(s, i, j);
    for k := 0 to n
      invariant Permuted(s, a[..], lo, hi) && Exchanged(s, a[..], i, j, k)
    {
      ghost var t := a[..];
      var p, q := i + k, j + k;
      Swap(a, p, q, lo, hi);
      ExchangedMore(s, t, a[..], i, j, k, p, q);
      PermutedTrans(s, t, a[..], lo, hi);
    }
  }

  ghost predicate Exchanged<T>(s: seq<T>, t: seq<T>, i: nat, j: nat, n: nat) {
    && i + n <= j && j + n <= |s| == |t|
    && (forall k {:trigger t[k]} :: 0 <= k < |t| ==>
          t[k] == if i <= k < i + n then s[k + (j - i)] else if j <= k < j + n then s[k - (j - i)] else s[k])
  }

  lemma ExchangedNone<T>(s: seq<T>, i: nat, j: nat)
    requires i <= j <= |s|
    ensures Exchanged(s, s, i, j, 0)
  {
  }

  lemma ExchangedMore<T>(s: seq<T>, t: seq<T>, u: seq<T>, i: nat, j: nat, n: nat, p: nat, q: nat)
    requires Exchanged(s, t, i, j, n) && p == i + n < j && q == j + n < |t|
    requires u == t[p := t[q]][q := t[p]]
    ensures Exchanged(s, u, i, j, n + 1)
  {
    assert t[p] == s[p] && t[q] == s[q];
  }

  /** Less than the pivot, equal to it, greater. */
  ghost predicate ThreeWay<T>(cmp: (T, T) -> int, s: seq<T>, first: nat, m1: nat, m2: nat, end: nat, v: T) {
    && first <= m1 <= m2 <= end <= |s|
    && (forall k {:trigger s[k]} :: first <= k < m1 ==> cmp(s[k], v) < 0)
    && (forall k {:trigger s[k]} :: m1 <= k < m2 ==> cmp(s[k], v) == 0)
    && (forall k {:trigger s[k]} :: m2 <= k < end ==> cmp(s[k], v) > 0)
  }

  lemma MiddleEqual<T>(cmp: (T, T) -> int, s: seq<T>, t: seq<T>, u: seq<T>, first: nat, end: nat, pa: nat, pb: nat, pc: int, pd: int, r1: nat, r2: nat)
    requires Regions(cmp, s, first, end, pa, pb, pc, pd) && pb > pc
    requires r1 == (if pa - first < pb - pa then pa - first else pb - pa) && r2 == (if pd - pc < end - pd - 1 then pd - pc else end - pd - 1)
    requires Exchanged(s, t, first, pb - r1, r1) && Exchanged(t, u, pb, end - r2, r2)
    ensures ThreeWay(cmp, u, first, first + (pb - pa), end - (pd - pc), end, s[first]) && pb - pa < end - first && pd - pc < end - first
  {
    forall k | first <= k < first + (pb - pa) ensures cmp(u[k], s[first]) < 0 { assert u[k] == t[k]; }
    forall k | end - (pd - pc) <= k < end ensures cmp(u[k], s[first]) > 0 {
      var k' := if end - r2 <= k then k - (end - r2 - pb) else k;
      assert u[k] == t[k'] == s[k'];
    }
    forall k | first + (pb - pa) <= k < end - (pd - pc) ensures cmp(u[k], s[first]) == 0 {
      if k < pb {
        assert u[k] == t[k];
      } else {
        var k' := if k < pb + r2 then k + (end - r2 - pb) else k;
        assert u[k] == t[k'] == s[k'];
      }
    }
  }

  /** The equal elements move from both ends to the middle. */
  method Gather<T(!new)>(cmp: (T, T) -> int, a: array<T>, first: nat, end: nat, pa: nat, pb: nat, pc: int, pd: int)
    requires end <= a.Length && Regions(cmp, a[..], first, end, pa, pb, pc, pd) && pb > pc
    modifies a
    ensures Permuted(old(a[..]), a[..], first, end)
    ensures pb - pa < end - first && 0 <= pd - pc < end - first
    ensures ThreeWay(cmp, a[..], first, first + (pb - pa), end - (pd - pc), end, old(a[first]))
  {
    hide Permuted, Exchanged, ThreeWay;
    ghost var s := a[..];
    RegionsBounds(cmp, s, first, end, pa, pb, pc, pd);
    var r1 := if pa - first < pb - pa then pa - first else pb - pa;
    VecSwap(a, first, pb - r1, r1, first, end);
    ghost var t := a[..];
    var r2 := if pd - pc < end - pd - 1 then pd - pc else end - pd - 1;
    VecSwap(a, pb, end - r2, r2, first, end);
    PermutedTrans(s, t, a[..], first, end);
    MiddleEqual(cmp, s, t, a[..], first, end, pa, pb, pc, pd, r1, r2);
  }

  // ---------- the sort ----------

  /** Sorting the lower part puts everything but the upper part in its final place. */
  lemma LowerSorted<T(!new)>(cmp: (T, T) -> int, s: seq<T>, t: seq<T>, lo: nat, first: nat, m1: nat, m2: nat, end: nat, v: T)
    requires TotalPreorder(cmp) && SortedBy(cmp, s, lo, first) && InOrder(cmp, s, lo, first, end)
    requires ThreeWay(cmp, s, first, m1, m2, end, v) && Permuted(s, t, first, m1) && SortedBy(cmp, t, first, m1)
    ensures SortedBy(cmp, t, lo, m2) && InOrder(cmp, t, lo, m2, end)
  {
    forall k | first <= k < m1 ensures cmp(t[k], v) < 0 { var k' := PermutedIn(s, t, first, m1, k); }
    forall k | m1 <= k < end ensures t[k] == s[k] {}
    forall i, k | lo <= i < first <= k < end ensures cmp(t[i], t[k]) <= 0 {
      assert t[i] == s[i];
      if k < m1 { var k' := PermutedIn(s, t, first, m1, k); } else { assert t[k] == s[k]; }
    }
    forall i, j | lo <= i < j < first ensures cmp(t[i], t[j]) <= 0 { assert t[i] == s[i] && t[j] == s[j]; }
    forall i, j | first <= i < m2 && i < j < end && m1 <= j ensures cmp(t[i], t[j]) <= 0 {
      Through(cmp, t[i], v, t[j]);
    }
  }

  lemma Through<T(!new)>(cmp: (T, T) -> int, x: T, v: T, y: T)
    requires TotalPreorder(cmp) && cmp(x, v) <= 0 && cmp(y, v) >= 0
    ensures cmp(x, y) <= 0
  {
    assert cmp(y, v) == 0 || cmp(v, y) < 0;
    assert !(cmp(v, y) > 0);
  }

  /** [lo, first) is in its final place. */
  ghost predicate Settled<T(!new)>(cmp: (T, T) -> int, s: seq<T>, t: seq<T>, lo: nat, first: nat, end: nat) {
    lo <= first && Permuted(s, t, lo, end) && SortedBy(cmp, t, lo, first) && InOrder(cmp, t, lo, first, end)
  }

  lemma StillSettled<T(!new)>(cmp: (T, T) -> int, s: seq<T>, t: seq<T>, u: seq<T>, lo: nat, first: nat, end: nat)
    requires Settled(cmp, s, t, lo, first, end) && Permuted(t, u, first, end)
    ensures Settled(cmp, s, u, lo, first, end)
  {
    PermutedWider(t, u, first, end, lo, end);
    PermutedTrans(s, t, u, lo, end);
    forall i, k | lo <= i < first <= k < end ensures cmp(u[i], u[k]) <= 0 {
      assert u[i] == t[i];
      var k' := PermutedIn(t, u, first, end, k);
    }
    forall i, j | lo <= i < j < first ensures cmp(u[i], u[j]) <= 0 { assert u[i] == t[i] && u[j] == t[j]; }
  }

  lemma MoreSettled<T(!new)>(cmp: (T, T) -> int, s: seq<T>, t: seq<T>, u: seq<T>, lo: nat, first: nat, m1: nat, m2: nat, end: nat, v: T)
    requires TotalPreorder(cmp) && Settled(cmp, s, t, lo, first, end)
    requires ThreeWay(cmp, t, first, m1, m2, end, v) && Permuted(t, u, first, m1) && SortedBy(cmp, u, first, m1)
    ensures Settled(cmp, s, u, lo, m2, end)
  {
    hide TotalPreorder;
    LowerSorted(cmp, t, u, lo, first, m1, m2, end, v);
    PermutedWider(t, u, first, m1, lo, end);
    PermutedTrans(s, t, u, lo, end);
  }

  lemma AllSettled<T(!new)>(cmp: (T, T) -> int, s: seq<T>, t: seq<T>, lo: nat, first: nat, end: nat)
    requires Settled(cmp, s, t, lo, first, end) && (SortedBy(cmp, t, first, end) || end - first <= 1)
    ensures Permuted(s, t, lo, end) && SortedBy(cmp, t, lo, end)
  {
  }

  /** Moves the pivot to the front and splits around it. */
  method SplitAround<T(!new)>(cmp: (T, T) -> int, a: array<T>, first: nat, n: nat) returns (pa: nat, pb: nat, pc: int, pd: int, cnt: bool)
    requires TotalPreorder(cmp) && 7 <= n && first + n <= a.Length
    modifies a
    ensures Permuted(old(a[..]), a[..], first, first + n) && Regions(cmp, a[..], first, first + n, pa, pb, pc, pd) && pb > pc
  {
    hide TotalPreorder, Permuted, Regions;
    ghost var s := a[..];
    var pm := ChoosePivot(cmp, a, first, n);
    var end := first + n;
    Swap(a, first, pm, first, end);
    ghost var t := a[..];
    pa, pb, pc, pd, cnt := Partition(cmp, a, first, end);
    PermutedTrans(s, t, a[..], first, end);
  }

  /** Splits the stretch and brings the three parts in order; without any swap in the scan, done is
      false and the parts are left as they are. */
  method Arrange<T(!new)>(cmp: (T, T) -> int, a: array<T>, first: nat, n: nat) returns (done: bool, m1: nat, m2: nat, ghost v: T)
    requires TotalPreorder(cmp) && 7 <= n && first + n <= a.Length
    modifies a
    ensures Permuted(old(a[..]), a[..], first, first + n)
    ensures done ==> m1 < first + n && first < m2 && ThreeWay(cmp, a[..], first, m1, m2, first + n, v)
  {
    hide TotalPreorder, Permuted, ThreeWay, Regions;
    ghost var s := a[..];
    var pa, pb, pc, pd;
    pa, pb, pc, pd, done := SplitAround(cmp, a, first, n);
    ghost var u := a[..];
    v := a[first];
    RegionsBounds(cmp, u, first, first + n, pa, pb, pc, pd);
    m1, m2 := first + (pb - pa), first + n - (pd - pc);
    if done {
      Gather(cmp, a, first, first + n, pa, pb, pc, pd);
      PermutedTrans(s, u, a[..], first, first + n);
    }
  }

  /** Recursion sorts the lower part; the loop goes on with the upper one.  Both are shorter. */
  method Sort<T(!new)>(cmp: (T, T) -> int, a: array<T>, first0: nat, n0: nat)
    requires TotalPreorder(cmp) && first0 + n0 <= a.Length
    modifies a
    ensures Permuted(old(a[..]), a[..], first0, first0 + n0) && SortedBy(cmp, a[..], first0, first0 + n0)
    decreases n0
  {
    hide TotalPreorder, Permuted, ThreeWay, SortedBy, InOrder, Settled;
    ghost var s := a[..];
    var first: nat, n: nat := first0, n0;
    var end := first0 + n0;
    SettledStart(cmp, s, first, end);
    while true
      invariant first0 <= first && first + n == end && n <= n0 && Settled(cmp, s, a[..], first0, first, end)
      decreases n
    {
      ghost var t := a[..];
      if n < 7 {
        InsertionSort(cmp, a, first, end);
        StillSettled(cmp, s, t, a[..], first0, first, end);
        AllSettled(cmp, s, a[..], first0, first, end);
        return;
      }
      var done, m1, m2;
      ghost var v;
      done, m1, m2, v := Arrange(cmp, a, first, n);
      ghost var u := a[..];
      StillSettled(cmp, s, t, u, first0, first, end);
      if !done {
        InsertionSort(cmp, a, first, end);
        StillSettled(cmp, s, u, a[..], first0, first, end);
        AllSettled(cmp, s, a[..], first0, first, end);
        return;
      }
      ThreeWayBounds(cmp, u, first, m1, m2, end, v);
      if m1 - first > 1 {
        Sort(cmp, a, first, m1 - first);
      } else {
        ShortSorted(cmp, u, first, m1);
      }
      MoreSettled(cmp, s, u, a[..], first0, first, m1, m2, end, v);
      if end - m2 <= 1 {
        AllSettled(cmp, s, a[..], first0, m2, end);
        return;
      }
      first := m2;
      n := end - m2;
    }
  }

  lemma SettledStart<T(!new)>(cmp: (T, T) -> int, s: seq<T>, first: nat, end: nat)
    requires first <= end <= |s|
    ensures Settled(cmp, s, s, first, first, end)
  {
  }

  lemma ThreeWayBounds<T>(cmp: (T, T) -> int, s: seq<T>, first: nat, m1: nat, m2: nat, end: nat, v: T)
    requires ThreeWay(cmp, s, first, m1, m2, end, v)
    ensures first <= m1 <= m2 <= end <= |s|
  {
  }
}
