/** What a stable sort is: a sorted rearrangement that keeps, for every element,
    the order of the elements equivalent to it.  There is only one. */
module Stable {
  import opened Order

  predicate Equiv<T>(less: (T, T) -> bool, a: T, b: T) { !less(a, b) && !less(b, a) }

  /** The elements of s equivalent to x, in the order in which they occur. */
  ghost function Class<T>(less: (T, T) -> bool, s: seq<T>, x: T): seq<T> {
    if s == [] then []
    else (if Equiv(less, s[0], x) then [s[0]] else []) + Class(less, s[1..], x)
  }

  ghost predicate SameClasses<T(!new)>(less: (T, T) -> bool, s: seq<T>, t: seq<T>) {
    forall x {:trigger Class(less, t, x)} :: Class(less, s, x) == Class(less, t, x)
  }

  ghost predicate StablySorted<T(!new)>(less: (T, T) -> bool, s: seq<T>, t: seq<T>) {
    SameClasses(less, s, t) && Sorted(less, t)
  }

  lemma {:induction false} ClassConcat<T>(less: (T, T) -> bool, s: seq<T>, t: seq<T>, x: T)
    ensures Class(less, s + t, x) == Class(less, s, x) + Class(less, t, x)
  {
    if s == [] {
      assert s + t == t;
    } else {
      ClassConcat(less, s[1..], t, x);
      assert (s + t)[1..] == s[1..] + t;
    }
  }

  lemma SameConcat<T(!new)>(less: (T, T) -> bool, s: seq<T>, s': seq<T>, t: seq<T>, t': seq<T>)
    requires SameClasses(less, s, s') && SameClasses(less, t, t')
    ensures SameClasses(less, s + t, s' + t')
  {
    forall x ensures Class(less, s + t, x) == Class(less, s' + t', x) {
      ClassConcat(less, s, t, x);
      ClassConcat(less, s', t', x);
    }
  }

  lemma {:induction false} ClassMembers<T>(less: (T, T) -> bool, s: seq<T>, x: T, y: T)
    ensures y in Class(less, s, x) <==> y in s && Equiv(less, y, x)
  {
    if s != [] {
      ClassMembers(less, s[1..], x, y);
      assert s == [s[0]] + s[1..];
    }
  }

  lemma {:induction false} ClassCounts<T>(less: (T, T) -> bool, s: seq<T>, x: T, y: T)
    ensures multiset(Class(less, s, x))[y] == if Equiv(less, y, x) then multiset(s)[y] else 0
  {
    if s != [] {
      ClassCounts(less, s[1..], x, y);
      assert s == [s[0]] + s[1..];
    }
  }

  /** Classes determine the elements with their multiplicities. */
  lemma SamePermutes<T(!new)>(less: (T, T) -> bool, s: seq<T>, t: seq<T>)
    requires StrictWeakOrder(less) && SameClasses(less, s, t)
    ensures multiset(s) == multiset(t) && |s| == |t|
    ensures forall y :: y in s <==> y in t
  {
    forall y ensures multiset(s)[y] == multiset(t)[y] {
      ClassCounts(less, s, y, y);
      ClassCounts(less, t, y, y);
    }
    assert multiset(s) == multiset(t);
    assert |multiset(s)| == |s| && |multiset(t)| == |t|;
    forall y ensures y in s <==> y in t { assert y in s <==> y in multiset(s); assert y in t <==> y in multiset(t); }
  }

  lemma {:induction false} ClassEmpty<T>(less: (T, T) -> bool, s: seq<T>, x: T)
    requires forall y :: y in s ==> !Equiv(less, y, x)
    ensures Class(less, s, x) == []
  {
    if s != [] { ClassEmpty(less, s[1..], x); }
  }

  /** Exchanging two blocks is stable when every element of one is less than every element of the other. */
  lemma SwapApart<T(!new)>(less: (T, T) -> bool, s: seq<T>, t: seq<T>)
    requires StrictWeakOrder(less) && forall y, z :: y in s && z in t ==> less(z, y)
    ensures SameClasses(less, s + t, t + s)
  {
    forall x ensures Class(less, s + t, x) == Class(less, t + s, x) {
      ClassConcat(less, s, t, x);
      ClassConcat(less, t, s, x);
      if y :| y in s && Equiv(less, y, x) {
        forall z | z in t ensures !Equiv(less, z, x) { assert less(z, y); }
        ClassEmpty(less, t, x);
      } else {
        ClassEmpty(less, s, x);
      }
    }
  }

  lemma SortedConcat<T(!new)>(less: (T, T) -> bool, s: seq<T>, t: seq<T>)
    requires Sorted(less, s) && Sorted(less, t)
    requires forall y, z :: y in s && z in t ==> !less(z, y)
    ensures Sorted(less, s + t)
  {
    var u := s + t;
    forall i, j | 0 <= i < j < |u| ensures !less(u[j], u[i]) {
      assert u[i] == if i < |s| then s[i] else t[i - |s|];
      assert u[j] == if j < |s| then s[j] else t[j - |s|];
    }
  }

  /** The first element of a sorted sequence heads its own class. */
  lemma HeadOfClass<T(!new)>(less: (T, T) -> bool, s: seq<T>)
    requires StrictWeakOrder(less) && s != []
    ensures Class(less, s, s[0]) != [] && Class(less, s, s[0])[0] == s[0]
  {
  }

  /** A stable sort of a sequence is unique. */
  lemma {:induction false} StableUnique<T(!new)>(less: (T, T) -> bool, s: seq<T>, t: seq<T>)
    requires StrictWeakOrder(less) && SameClasses(less, s, t) && Sorted(less, s) && Sorted(less, t)
    ensures s == t
  {
    SamePermutes(less, s, t);
    if s != [] {
      assert s[0] in t && t[0] in s;
      var i :| 0 <= i < |t| && t[i] == s[0];
      var j :| 0 <= j < |s| && s[j] == t[0];
      assert Equiv(less, s[0], t[0]);
      HeadOfClass(less, s);
      ClassMembers(less, t, s[0], t[0]);
      assert Class(less, t, s[0]) == [t[0]] + Class(less, t[1..], s[0]);
      assert Class(less, s, s[0]) == Class(less, t, s[0]);
      assert s[0] == t[0];
      forall x ensures Class(less, s[1..], x) == Class(less, t[1..], x) {
        assert Class(less, s, x) == Class(less, t, x);
        var h := if Equiv(less, s[0], x) then [s[0]] else [];
        assert Class(less, s, x) == h + Class(less, s[1..], x);
        assert Class(less, t, x) == h + Class(less, t[1..], x);
        assert (h + Class(less, s[1..], x))[|h|..] == Class(less, s[1..], x);
        assert (h + Class(less, t[1..], x))[|h|..] == Class(less, t[1..], x);
      }
      StableUnique(less, s[1..], t[1..]);
      assert s == [s[0]] + s[1..] && t == [t[0]] + t[1..];
    }
  }

  // ---------- inserting and merging ----------

  lemma SortedPart<T>(less: (T, T) -> bool, s: seq<T>, i: int, j: int)
    requires Sorted(less, s) && 0 <= i <= j <= |s|
    ensures Sorted(less, s[i..j])
  {
  }

  lemma SameRefl<T(!new)>(less: (T, T) -> bool, s: seq<T>)
    ensures SameClasses(less, s, s)
  {
  }

  lemma SameTrans<T(!new)>(less: (T, T) -> bool, s: seq<T>, t: seq<T>, u: seq<T>)
    requires SameClasses(less, s, t) && SameClasses(less, t, u)
    ensures SameClasses(less, s, u)
  {
    forall x ensures Class(less, s, x) == Class(less, u, x) {
      assert Class(less, t, x) == Class(less, u, x);
    }
  }

  /** A block inside a longer sequence is exchanged with the one after it. */
  lemma SwapInside<T(!new)>(less: (T, T) -> bool, p: seq<T>, s: seq<T>, t: seq<T>, q: seq<T>)
    requires StrictWeakOrder(less) && forall y, z :: y in s && z in t ==> less(z, y)
    ensures SameClasses(less, p + s + t + q, p + t + s + q)
  {
    SwapApart(less, s, t);
    SameRefl(less, p);
    SameRefl(less, q);
    SameConcat(less, p, p, s + t, t + s);
    SameConcat(less, p + (s + t), p + (t + s), q, q);
    assert p + s + t + q == p + (s + t) + q;
    assert p + t + s + q == p + (t + s) + q;
  }

  /** An element moved in front of the greater elements of a sorted sequence. */
  lemma InsertStable<T(!new)>(less: (T, T) -> bool, s: seq<T>, v: T, p: int)
    requires StrictWeakOrder(less) && Sorted(less, s) && 0 <= p <= |s|
    requires p < |s| ==> less(v, s[p])
    requires p > 0 ==> !less(v, s[p - 1])
    ensures StablySorted(less, s + [v], s[..p] + [v] + s[p..])
  {
    forall y | y in s[p..] ensures less(v, y) { assert !less(y, s[p]); }
    SwapInside(less, s[..p], s[p..], [v], []);
    assert s[..p] + s[p..] + [v] + [] == s + [v];
    assert s[..p] + [v] + s[p..] + [] == s[..p] + [v] + s[p..];
    SortedPart(less, s, 0, p);
    SortedPart(less, s, p, |s|);
    SortedConcat(less, [v], s[p..]);
    forall y, z | y in s[..p] && z in [v] + s[p..] ensures !less(z, y) {
      if z == v { assert p > 0 && !less(s[p - 1], y); }
    }
    SortedConcat(less, s[..p], [v] + s[p..]);
    assert s[..p] + [v] + s[p..] == s[..p] + ([v] + s[p..]);
  }

  /** d holds what has been merged; s1[i..] and s2[j..] are still to come. */
  ghost predicate Merging<T(!new)>(less: (T, T) -> bool, s1: seq<T>, s2: seq<T>, d: seq<T>, i: int, j: int) {
    && 0 <= i <= |s1| && 0 <= j <= |s2| && |d| == i + j
    && Sorted(less, s1) && Sorted(less, s2) && Sorted(less, d)
    && SameClasses(less, s1 + s2, d + s1[i..] + s2[j..])
    && (forall y, k :: y in d && i <= k < |s1| ==> !less(s1[k], y))
    && (forall y, k :: y in d && j <= k < |s2| ==> !less(s2[k], y))
  }

  lemma MergeStart<T(!new)>(less: (T, T) -> bool, s1: seq<T>, s2: seq<T>)
    requires Sorted(less, s1) && Sorted(less, s2)
    ensures Merging(less, s1, s2, [], 0, 0)
  {
    assert [] + s1[0..] + s2[0..] == s1 + s2;
  }

  lemma TakeSecond<T(!new)>(less: (T, T) -> bool, s1: seq<T>, s2: seq<T>, d: seq<T>, i: int, j: int)
    requires StrictWeakOrder(less) && Merging(less, s1, s2, d, i, j) && j < |s2|
    requires i < |s1| ==> less(s2[j], s1[i])
    ensures Merging(less, s1, s2, d + [s2[j]], i, j + 1)
  {
    var v := s2[j];
    forall y | y in s1[i..] ensures less(v, y) { assert !less(y, s1[i]); }
    SwapInside(less, d, s1[i..], [v], s2[j + 1..]);
    assert d + s1[i..] + s2[j..] == d + s1[i..] + [v] + s2[j + 1..];
    SameTrans(less, s1 + s2, d + s1[i..] + s2[j..], d + [v] + s1[i..] + s2[j + 1..]);
    SortedConcat(less, d, [v]);
    forall k | i <= k < |s1| ensures !less(s1[k], v) { assert !less(s1[k], s1[i]); }
  }

  lemma TakeFirst<T(!new)>(less: (T, T) -> bool, s1: seq<T>, s2: seq<T>, d: seq<T>, i: int, j: int)
    requires StrictWeakOrder(less) && Merging(less, s1, s2, d, i, j) && i < |s1|
    requires j < |s2| ==> !less(s2[j], s1[i])
    ensures Merging(less, s1, s2, d + [s1[i]], i + 1, j)
  {
    var v := s1[i];
    assert d + [v] + s1[i + 1..] + s2[j..] == d + s1[i..] + s2[j..];
    SortedConcat(less, d, [v]);
    forall k | j <= k < |s2| ensures !less(s2[k], v) { assert !less(s2[k], s2[j]); }
  }

  /** Once one input is used up the rest of the other follows. */
  lemma MergeEnd<T(!new)>(less: (T, T) -> bool, s1: seq<T>, s2: seq<T>, d: seq<T>, i: int, j: int)
    requires StrictWeakOrder(less) && Merging(less, s1, s2, d, i, j) && (i == |s1| || j == |s2|)
    ensures StablySorted(less, s1 + s2, d + s1[i..] + s2[j..])
  {
    SortedPart(less, s1, i, |s1|);
    SortedPart(less, s2, j, |s2|);
    if i == |s1| {
      assert d + s1[i..] + s2[j..] == d + s2[j..];
      SortedConcat(less, d, s2[j..]);
    } else {
      assert d + s1[i..] + s2[j..] == d + s1[i..];
      SortedConcat(less, d, s1[i..]);
    }
  }

  /** Merging from the back: s1[..i] and s2[..j] are still to come before d. */
  ghost predicate MergingBack<T(!new)>(less: (T, T) -> bool, s1: seq<T>, s2: seq<T>, d: seq<T>, i: int, j: int) {
    && 0 <= i <= |s1| && 0 <= j <= |s2|
    && Sorted(less, s1) && Sorted(less, s2) && Sorted(less, d)
    && SameClasses(less, s1 + s2, s1[..i] + s2[..j] + d)
    && (forall y, k :: y in d && 0 <= k < i ==> !less(y, s1[k]))
    && (forall y, k :: y in d && 0 <= k < j ==> !less(y, s2[k]))
  }

  lemma MergeBackStart<T(!new)>(less: (T, T) -> bool, s1: seq<T>, s2: seq<T>)
    requires Sorted(less, s1) && Sorted(less, s2)
    ensures MergingBack(less, s1, s2, [], |s1|, |s2|)
  {
    assert s1[..|s1|] + s2[..|s2|] + [] == s1 + s2;
  }

  lemma TakeFirstBack<T(!new)>(less: (T, T) -> bool, s1: seq<T>, s2: seq<T>, d: seq<T>, i: int, j: int)
    requires StrictWeakOrder(less) && MergingBack(less, s1, s2, d, i, j) && i > 0
    requires j > 0 ==> less(s2[j - 1], s1[i - 1])
    ensures MergingBack(less, s1, s2, [s1[i - 1]] + d, i - 1, j)
  {
    var v := s1[i - 1];
    forall z | z in s2[..j] ensures less(z, v) { assert !less(s2[j - 1], z); }
    SwapInside(less, s1[..i - 1], [v], s2[..j], d);
    assert s1[..i] + s2[..j] + d == s1[..i - 1] + [v] + s2[..j] + d;
    assert s1[..i - 1] + s2[..j] + ([v] + d) == s1[..i - 1] + s2[..j] + [v] + d;
    SameTrans(less, s1 + s2, s1[..i] + s2[..j] + d, s1[..i - 1] + s2[..j] + ([v] + d));
    SortedConcat(less, [v], d);
    forall k | 0 <= k < j ensures !less(v, s2[k]) { assert !less(s2[j - 1], s2[k]); }
  }

  lemma TakeSecondBack<T(!new)>(less: (T, T) -> bool, s1: seq<T>, s2: seq<T>, d: seq<T>, i: int, j: int)
    requires StrictWeakOrder(less) && MergingBack(less, s1, s2, d, i, j) && j > 0
    requires i > 0 ==> !less(s2[j - 1], s1[i - 1])
    ensures MergingBack(less, s1, s2, [s2[j - 1]] + d, i, j - 1)
  {
    var v := s2[j - 1];
    assert s1[..i] + s2[..j - 1] + ([v] + d) == s1[..i] + s2[..j] + d;
    SortedConcat(less, [v], d);
    forall k | 0 <= k < i ensures !less(v, s1[k]) { assert !less(s1[i - 1], s1[k]); }
  }

  lemma MergeBackEnd<T(!new)>(less: (T, T) -> bool, s1: seq<T>, s2: seq<T>, d: seq<T>, i: int, j: int)
    requires StrictWeakOrder(less) && MergingBack(less, s1, s2, d, i, j) && (i == 0 || j == 0)
    ensures StablySorted(less, s1 + s2, s1[..i] + s2[..j] + d)
  {
    SortedPart(less, s1, 0, i);
    SortedPart(less, s2, 0, j);
    if i == 0 {
      assert s1[..i] + s2[..j] + d == s2[..j] + d;
      SortedConcat(less, s2[..j], d);
    } else {
      assert s1[..i] + s2[..j] + d == s1[..i] + d;
      SortedConcat(less, s1[..i], d);
    }
  }

  // ---------- cutting two sorted sequences ----------

  /** Everything of s2 before the cut is less than everything of s1 after it, and
      nothing of s2 after the cut is less than anything of s1 before it. */
  ghost predicate Cut<T>(less: (T, T) -> bool, s1: seq<T>, s2: seq<T>, i: int, j: int) {
    && 0 <= i <= |s1| && 0 <= j <= |s2|
    && (forall m, n :: i <= m < |s1| && 0 <= n < j ==> less(s2[n], s1[m]))
    && (forall m, n :: 0 <= m < i && j <= n < |s2| ==> !less(s2[n], s1[m]))
  }

  lemma CutAtFirst<T(!new)>(less: (T, T) -> bool, s1: seq<T>, s2: seq<T>, i: int, j: int)
    requires StrictWeakOrder(less) && Sorted(less, s1) && Sorted(less, s2) && 0 <= i < |s1| && 0 <= j <= |s2|
    requires forall n :: 0 <= n < j ==> less(s2[n], s1[i])
    requires forall n :: j <= n < |s2| ==> !less(s2[n], s1[i])
    ensures Cut(less, s1, s2, i, j)
  {
    forall m, n | i <= m < |s1| && 0 <= n < j ensures less(s2[n], s1[m]) { assert m == i || !less(s1[m], s1[i]); }
    forall m, n | 0 <= m < i && j <= n < |s2| ensures !less(s2[n], s1[m]) { assert !less(s1[i], s1[m]); }
  }

  lemma CutAtSecond<T(!new)>(less: (T, T) -> bool, s1: seq<T>, s2: seq<T>, i: int, j: int)
    requires StrictWeakOrder(less) && Sorted(less, s1) && Sorted(less, s2) && 0 <= i <= |s1| && 0 <= j < |s2|
    requires forall m :: 0 <= m < i ==> !less(s2[j], s1[m])
    requires forall m :: i <= m < |s1| ==> less(s2[j], s1[m])
    ensures Cut(less, s1, s2, i, j)
  {
    forall m, n | i <= m < |s1| && 0 <= n < j ensures less(s2[n], s1[m]) { assert !less(s2[j], s2[n]); }
    forall m, n | 0 <= m < i && j <= n < |s2| ensures !less(s2[n], s1[m]) { assert n == j || !less(s2[n], s2[j]); }
  }

  /** Sorting the two sides of a cut sorts the whole. */
  lemma JoinCut<T(!new)>(less: (T, T) -> bool, s1: seq<T>, s2: seq<T>, i: int, j: int, l: seq<T>, r: seq<T>)
    requires StrictWeakOrder(less) && Sorted(less, s1) && Sorted(less, s2) && Cut(less, s1, s2, i, j)
    requires StablySorted(less, s1[..i] + s2[..j], l) && StablySorted(less, s1[i..] + s2[j..], r)
    ensures StablySorted(less, s1 + s2, l + r)
  {
    forall y, z | y in s1[i..] && z in s2[..j] ensures less(z, y) {}
    SwapInside(less, s1[..i], s1[i..], s2[..j], s2[j..]);
    assert s1[..i] + s1[i..] + s2[..j] + s2[j..] == s1 + s2;
    assert s1[..i] + s2[..j] + s1[i..] + s2[j..] == (s1[..i] + s2[..j]) + (s1[i..] + s2[j..]);
    SameConcat(less, s1[..i] + s2[..j], l, s1[i..] + s2[j..], r);
    SameTrans(less, s1 + s2, (s1[..i] + s2[..j]) + (s1[i..] + s2[j..]), l + r);
    SamePermutes(less, s1[..i] + s2[..j], l);
    SamePermutes(less, s1[i..] + s2[j..], r);
    forall y, z | y in l && z in r ensures !less(z, y) {
      assert y in s1[..i] + s2[..j] && z in s1[i..] + s2[j..];
      CutOrdered(less, s1, s2, i, j, y, z);
    }
    SortedConcat(less, l, r);
  }

  lemma CutOrdered<T(!new)>(less: (T, T) -> bool, s1: seq<T>, s2: seq<T>, i: int, j: int, y: T, z: T)
    requires StrictWeakOrder(less) && Sorted(less, s1) && Sorted(less, s2) && Cut(less, s1, s2, i, j)
    requires y in s1[..i] + s2[..j] && z in s1[i..] + s2[j..]
    ensures !less(z, y)
  {
    if y in s1[..i] && z in s1[i..] {
    } else if y in s1[..i] {
      assert z in s2[j..];
    } else if z in s1[i..] {
      assert y in s2[..j];
    }
  }
}
