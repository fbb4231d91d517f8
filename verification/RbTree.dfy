/** The ordered container over the linked nodes: lookups, plain and hinted
    insertion, erasure, and the library's own consistency check. */
module RbTree {
  import opened RbShape
  import opened RbColour
  import opened RbLinks
  import opened Order

  /** The number of leading elements of s whose key is less than k. */
  ghost function LowerIndex<K, V>(keyOf: V -> K, less: (K, K) -> bool, s: seq<V>, k: K): (i: nat)
    ensures i <= |s|
  {
    if s == [] || !less(keyOf(s[0]), k) then 0 else 1 + LowerIndex(keyOf, less, s[1..], k)
  }

  /** The number of leading elements of s whose key is not greater than k. */
  ghost function UpperIndex<K, V>(keyOf: V -> K, less: (K, K) -> bool, s: seq<V>, k: K): (i: nat)
    ensures i <= |s|
  {
    if s == [] || less(k, keyOf(s[0])) then 0 else 1 + UpperIndex(keyOf, less, s[1..], k)
  }

  ghost predicate KeysSorted<K, V>(keyOf: V -> K, less: (K, K) -> bool, s: seq<V>) {
    forall i, j :: 0 <= i < j < |s| ==> !less(keyOf(s[j]), keyOf(s[i]))
  }

  lemma {:induction false} LowerIndexUnique<K, V>(keyOf: V -> K, less: (K, K) -> bool, s: seq<V>, k: K, i: nat)
    requires i <= |s|
    requires forall j :: 0 <= j < i ==> less(keyOf(s[j]), k)
    requires i < |s| ==> !less(keyOf(s[i]), k)
    ensures i == LowerIndex(keyOf, less, s, k)
  {
    if i > 0 { LowerIndexUnique(keyOf, less, s[1..], k, i - 1); }
  }

  lemma {:induction false} UpperIndexUnique<K, V>(keyOf: V -> K, less: (K, K) -> bool, s: seq<V>, k: K, i: nat)
    requires i <= |s|
    requires forall j :: 0 <= j < i ==> !less(k, keyOf(s[j]))
    requires i < |s| ==> less(k, keyOf(s[i]))
    ensures i == UpperIndex(keyOf, less, s, k)
  {
    if i > 0 { UpperIndexUnique(keyOf, less, s[1..], k, i - 1); }
  }

  lemma {:induction false} LowerIndexMeans<K(!new), V>(keyOf: V -> K, less: (K, K) -> bool, s: seq<V>, k: K)
    requires StrictWeakOrder(less) && KeysSorted(keyOf, less, s)
    ensures var i := LowerIndex(keyOf, less, s, k);
      Below(keyOf, less, s, i, k) && NotBelow(keyOf, less, s, i, k)
  {
    if s != [] {
      if less(keyOf(s[0]), k) {
        LowerIndexMeans(keyOf, less, s[1..], k);
        forall j | 0 <= j < |s|
          ensures j < LowerIndex(keyOf, less, s, k) <==> less(keyOf(s[j]), k)
        {
          if j > 0 { assert s[j] == s[1..][j - 1]; }
        }
      } else {
        Compare(keyOf, less, s, 0, k);
      }
    }
  }

  /** The first a keys are less than k. */
  ghost predicate Below<K, V>(keyOf: V -> K, less: (K, K) -> bool, s: seq<V>, a: int, k: K)
    requires a <= |s|
  {
    forall j {:trigger s[j]} :: 0 <= j < a ==> less(keyOf(s[j]), k)
  }

  /** No key from position b on is less than k. */
  ghost predicate NotBelow<K, V>(keyOf: V -> K, less: (K, K) -> bool, s: seq<V>, b: int, k: K)
    requires 0 <= b
  {
    forall j {:trigger s[j]} :: b <= j < |s| ==> !less(keyOf(s[j]), k)
  }

  ghost predicate NotAbove<K, V>(keyOf: V -> K, less: (K, K) -> bool, s: seq<V>, a: int, k: K)
    requires a <= |s|
  {
    forall j {:trigger s[j]} :: 0 <= j < a ==> !less(k, keyOf(s[j]))
  }

  ghost predicate Above<K, V>(keyOf: V -> K, less: (K, K) -> bool, s: seq<V>, b: int, k: K)
    requires 0 <= b
  {
    forall j {:trigger s[j]} :: b <= j < |s| ==> less(k, keyOf(s[j]))
  }

  /** What comparing one element of a sorted sequence with k says about the others. */
  lemma Compare<K(!new), V>(keyOf: V -> K, less: (K, K) -> bool, s: seq<V>, i: int, k: K)
    requires StrictWeakOrder(less) && KeysSorted(keyOf, less, s) && 0 <= i < |s|
    ensures less(keyOf(s[i]), k) ==> Below(keyOf, less, s, i + 1, k)
    ensures !less(keyOf(s[i]), k) ==> NotBelow(keyOf, less, s, i, k)
    ensures less(k, keyOf(s[i])) ==> Above(keyOf, less, s, i, k)
    ensures !less(k, keyOf(s[i])) ==> NotAbove(keyOf, less, s, i + 1, k)
  {
    forall j | 0 <= j < |s|
      ensures j <= i ==> !less(keyOf(s[i]), keyOf(s[j]))
      ensures i <= j ==> !less(keyOf(s[j]), keyOf(s[i]))
    {}
  }

  ghost function Listing<V>(ord: seq<int>, value: seq<V>): (s: seq<V>)
    requires forall i {:trigger ord[i]} :: 0 <= i < |ord| ==> 0 <= ord[i] < |value|
    ensures |s| == |ord|
    ensures forall i {:trigger s[i]} :: 0 <= i < |s| ==> s[i] == value[ord[i]]
  {
    seq(|ord|, i requires 0 <= i < |ord| => value[ord[i]])
  }

  /** The sequence after inserting v at position k. */
  ghost function InsertAt<V>(s: seq<V>, k: int, v: V): seq<V>
    requires 0 <= k <= |s|
  {
    s[..k] + [v] + s[k..]
  }

  /** What plain insertion of an element computes on the sorted sequence. */
  ghost function AddEqual<K, V>(keyOf: V -> K, less: (K, K) -> bool, s: seq<V>, v: V): seq<V> {
    InsertAt(s, UpperIndex(keyOf, less, s, keyOf(v)), v)
  }

  ghost predicate HasKey<K, V>(keyOf: V -> K, less: (K, K) -> bool, s: seq<V>, k: K) {
    exists j :: 0 <= j < |s| && !less(keyOf(s[j]), k) && !less(k, keyOf(s[j]))
  }

  ghost function AddUnique<K, V>(keyOf: V -> K, less: (K, K) -> bool, s: seq<V>, v: V): seq<V> {
    if HasKey(keyOf, less, s, keyOf(v)) then s else InsertAt(s, LowerIndex(keyOf, less, s, keyOf(v)), v)
  }

  ghost predicate Equivalent<K>(less: (K, K) -> bool, x: K, y: K) { !less(x, y) && !less(y, x) }

  /** The elements whose key is not equivalent to k, in their order. */
  ghost function Others<K, V>(keyOf: V -> K, less: (K, K) -> bool, s: seq<V>, k: K): seq<V> {
    if s == [] then [] else (if Equivalent(less, keyOf(s[0]), k) then [] else [s[0]]) + Others(keyOf, less, s[1..], k)
  }

  /** The number of elements whose key is equivalent to k. */
  ghost function CountOf<K, V>(keyOf: V -> K, less: (K, K) -> bool, s: seq<V>, k: K): nat {
    if s == [] then 0 else (if Equivalent(less, keyOf(s[0]), k) then 1 else 0) + CountOf(keyOf, less, s[1..], k)
  }

  /** Position k is a place for the key: nothing before it is greater, nothing after it is less. */
  ghost predicate Slot<K, V>(keyOf: V -> K, less: (K, K) -> bool, s: seq<V>, i: int, k: K) {
    0 <= i <= |s| && NotAbove(keyOf, less, s, i, k) && NotBelow(keyOf, less, s, i, k)
  }

  /** An equivalent key, if there is one, sits at the lower bound. */
  lemma HasKeyAt<K(!new), V>(keyOf: V -> K, less: (K, K) -> bool, s: seq<V>, k: K)
    requires StrictWeakOrder(less) && KeysSorted(keyOf, less, s)
    ensures var i := LowerIndex(keyOf, less, s, k);
      HasKey(keyOf, less, s, k) <==> i < |s| && !less(k, keyOf(s[i]))
    ensures var i := LowerIndex(keyOf, less, s, k); i < |s| ==> !less(keyOf(s[i]), k)
  {
    var i := LowerIndex(keyOf, less, s, k);
    LowerIndexMeans(keyOf, less, s, k);
    if i < |s| { Compare(keyOf, less, s, i, k); }
  }

  /** A place strictly between its neighbours is the lower bound of a new key. */
  lemma UniqueSlot<K(!new), V>(keyOf: V -> K, less: (K, K) -> bool, s: seq<V>, i: int, k: K)
    requires StrictWeakOrder(less) && KeysSorted(keyOf, less, s) && 0 <= i <= |s|
    requires i > 0 ==> less(keyOf(s[i - 1]), k)
    requires i < |s| ==> less(k, keyOf(s[i]))
    ensures !HasKey(keyOf, less, s, k) && i == LowerIndex(keyOf, less, s, k) && Slot(keyOf, less, s, i, k)
  {
    if i > 0 { Compare(keyOf, less, s, i - 1, k); }
    if i < |s| { Compare(keyOf, less, s, i, k); }
    LowerIndexUnique(keyOf, less, s, k, i);
  }

  /** A place between its neighbours, equivalent ones allowed. */
  lemma EqualSlot<K(!new), V>(keyOf: V -> K, less: (K, K) -> bool, s: seq<V>, i: int, k: K)
    requires StrictWeakOrder(less) && KeysSorted(keyOf, less, s) && 0 <= i <= |s|
    requires i > 0 ==> !less(k, keyOf(s[i - 1]))
    requires i < |s| ==> !less(keyOf(s[i]), k)
    ensures Slot(keyOf, less, s, i, k)
  {
    if i > 0 { Compare(keyOf, less, s, i - 1, k); }
    if i < |s| { Compare(keyOf, less, s, i, k); }
  }

  /** Where the hinted insertion puts a key: before the hint, when that is a place for the key, and otherwise behind
      all equivalent ones. Before the first element it goes only when it is less than that one. */
  ghost function NearIndex<K, V>(keyOf: V -> K, less: (K, K) -> bool, s: seq<V>, hint: int, k: K): (i: int)
    ensures 0 <= i <= |s|
  {
    if Slot(keyOf, less, s, hint, k) && (hint == 0 && s != [] ==> less(k, keyOf(s[0]))) then hint
    else UpperIndex(keyOf, less, s, k)
  }

  /** Behind the last element is a place for the key exactly when that is behind all equivalent ones. */
  lemma NearEnd<K(!new), V>(keyOf: V -> K, less: (K, K) -> bool, s: seq<V>, k: K)
    requires StrictWeakOrder(less) && KeysSorted(keyOf, less, s)
    ensures Slot(keyOf, less, s, UpperIndex(keyOf, less, s, k), k) && NearIndex(keyOf, less, s, |s|, k) == UpperIndex(keyOf, less, s, k)
  {
    UpperIndexMeans(keyOf, less, s, k);
    var u := UpperIndex(keyOf, less, s, k);
    if u < |s| { assert less(k, keyOf(s[u])); }
  }

  /** At the hint, if nothing before it is greater and nothing after it is less; otherwise behind everything
      that is not greater. A hint at the beginning counts only when everything is greater. */
  ghost predicate HintKept<K, V>(keyOf: V -> K, less: (K, K) -> bool, s: seq<V>, hint: int, i: int, k: K) {
    0 <= i <= |s| &&
    var place := 0 <= hint <= |s| && NotAbove(keyOf, less, s, hint, k) && NotBelow(keyOf, less, s, hint, k);
    && (place && (hint > 0 || Above(keyOf, less, s, 0, k)) ==> i == hint)
    && (!(place && (hint > 0 || Above(keyOf, less, s, 0, k))) ==> NotAbove(keyOf, less, s, i, k) && Above(keyOf, less, s, i, k))
  }

  lemma NearKeepsHint<K(!new), V>(keyOf: V -> K, less: (K, K) -> bool, s: seq<V>, hint: int, k: K)
    requires StrictWeakOrder(less) && KeysSorted(keyOf, less, s)
    ensures HintKept(keyOf, less, s, hint, NearIndex(keyOf, less, s, hint, k), k)
  {
    UpperIndexMeans(keyOf, less, s, k);
    if s != [] { Compare(keyOf, less, s, 0, k); }
  }

  /** What hinted insertion of an element computes on the sorted sequence. */
  ghost function AddEqualNear<K, V>(keyOf: V -> K, less: (K, K) -> bool, s: seq<V>, hint: int, v: V): seq<V> {
    InsertAt(s, NearIndex(keyOf, less, s, hint, keyOf(v)), v)
  }

  /** The sequence without the positions from a up to, but not including, b. */
  ghost function Without<V>(s: seq<V>, a: int, b: int): seq<V>
    requires 0 <= a <= b <= |s|
  {
    s[..a] + s[b..]
  }

  /** Wherever an element is inserted among equivalent ones, the keys read the same. */
  lemma SlotsSameKeys<K(!new), V>(keyOf: V -> K, less: (K, K) -> bool, s: seq<V>, v: V, i: int, j: int, n: int)
    requires StrictWeakOrder(less) && KeysSorted(keyOf, less, s)
    requires Slot(keyOf, less, s, i, keyOf(v)) && Slot(keyOf, less, s, j, keyOf(v)) && 0 <= n <= |s|
    ensures var a, b := keyOf(InsertAt(s, i, v)[n]), keyOf(InsertAt(s, j, v)[n]); !less(a, b) && !less(b, a)
  {
    var t, u := InsertAt(s, i, v), InsertAt(s, j, v);
    assert t[n] == if n < i then s[n] else if n == i then v else s[n - 1];
    assert u[n] == if n < j then s[n] else if n == j then v else s[n - 1];
  }

  lemma InsertSorted<K(!new), V>(keyOf: V -> K, less: (K, K) -> bool, s: seq<V>, i: int, v: V)
    requires StrictWeakOrder(less) && KeysSorted(keyOf, less, s) && Slot(keyOf, less, s, i, keyOf(v))
    ensures KeysSorted(keyOf, less, InsertAt(s, i, v))
  {
    var t := InsertAt(s, i, v);
    forall m, n | 0 <= m < n < |t| ensures !less(keyOf(t[n]), keyOf(t[m])) {
      assert t[m] == if m < i then s[m] else if m == i then v else s[m - 1];
      assert t[n] == if n < i then s[n] else if n == i then v else s[n - 1];
    }
  }

  lemma ListingInsert<V>(ord: seq<int>, value: seq<V>, k: int, z: int, v: V)
    requires forall i {:trigger ord[i]} :: 0 <= i < |ord| ==> 0 <= ord[i] < |value|
    requires 0 <= k <= |ord| && z == |value|
    ensures var ord' := ord[..k] + [z] + ord[k..];
      (forall i {:trigger ord'[i]} :: 0 <= i < |ord'| ==> 0 <= ord'[i] < |value| + 1) &&
      Listing(ord', value + [v]) == InsertAt(Listing(ord, value), k, v)
  {
    var ord' := ord[..k] + [z] + ord[k..];
    forall i | 0 <= i < |ord'|
      ensures ord'[i] == if i < k then ord[i] else if i == k then z else ord[i - 1]
    {}
    var t := Listing(ord', value + [v]);
    var u := InsertAt(Listing(ord, value), k, v);
    assert |t| == |u|;
    forall i | 0 <= i < |t| ensures t[i] == u[i] {
      assert t[i] == (value + [v])[ord'[i]];
    }
  }

  lemma ListingRemove<V>(ord: seq<int>, value: seq<V>, a: int, b: int)
    requires forall i {:trigger ord[i]} :: 0 <= i < |ord| ==> 0 <= ord[i] < |value|
    requires 0 <= a <= b <= |ord|
    ensures var ord' := ord[..a] + ord[b..];
      (forall i {:trigger ord'[i]} :: 0 <= i < |ord'| ==> 0 <= ord'[i] < |value|) &&
      Listing(ord', value) == Listing(ord, value)[..a] + Listing(ord, value)[b..]
  {
    var ord' := ord[..a] + ord[b..];
    forall i | 0 <= i < |ord'| ensures ord'[i] == if i < a then ord[i] else ord[i + b - a] {}
    var t := Listing(ord', value);
    var u := Listing(ord, value)[..a] + Listing(ord, value)[b..];
    assert |t| == |u|;
    forall i | 0 <= i < |t| ensures t[i] == u[i] { assert t[i] == value[ord'[i]]; }
  }

  lemma {:induction false} UpperIndexMeans<K(!new), V>(keyOf: V -> K, less: (K, K) -> bool, s: seq<V>, k: K)
    requires StrictWeakOrder(less) && KeysSorted(keyOf, less, s)
    ensures var i := UpperIndex(keyOf, less, s, k);
      NotAbove(keyOf, less, s, i, k) && Above(keyOf, less, s, i, k)
  {
    if s != [] {
      if less(k, keyOf(s[0])) {
        Compare(keyOf, less, s, 0, k);
      } else {
        UpperIndexMeans(keyOf, less, s[1..], k);
        forall j | 0 <= j < |s|
          ensures j < UpperIndex(keyOf, less, s, k) <==> !less(k, keyOf(s[j]))
        {
          if j > 0 { assert s[j] == s[1..][j - 1]; }
        }
      }
    }
  }

  /** The elements between the two bounds are exactly those equivalent to k. */
  lemma EqualRange<K(!new), V>(keyOf: V -> K, less: (K, K) -> bool, s: seq<V>, k: K, j: int)
    requires StrictWeakOrder(less) && KeysSorted(keyOf, less, s)
    ensures LowerIndex(keyOf, less, s, k) <= UpperIndex(keyOf, less, s, k)
    ensures 0 <= j < |s| ==>
      (LowerIndex(keyOf, less, s, k) <= j < UpperIndex(keyOf, less, s, k) <==>
        !less(keyOf(s[j]), k) && !less(k, keyOf(s[j])))
  {
    LowerIndexMeans(keyOf, less, s, k);
    UpperIndexMeans(keyOf, less, s, k);
    var a, b := LowerIndex(keyOf, less, s, k), UpperIndex(keyOf, less, s, k);
    assert b < |s| ==> less(k, keyOf(s[b]));
  }

  /** t is s without a run of n elements, which are exactly those whose key is equivalent to k. */
  ghost predicate Stripped<K, V>(keyOf: V -> K, less: (K, K) -> bool, s: seq<V>, k: K, t: seq<V>, n: int) {
    exists a :: StrippedAt(keyOf, less, s, k, t, a, n)
  }

  ghost predicate StrippedAt<K, V>(keyOf: V -> K, less: (K, K) -> bool, s: seq<V>, k: K, t: seq<V>, a: int, n: int) {
    && 0 <= a <= a + n <= |s| && t == Without(s, a, a + n)
    && forall j {:trigger s[j]} :: 0 <= j < |s| ==> (a <= j < a + n <==> Equivalent(less, keyOf(s[j]), k))
  }

  /** Such a run is all that the other elements lack. */
  lemma {:induction false} StrippedOthers<K, V>(keyOf: V -> K, less: (K, K) -> bool, s: seq<V>, k: K, t: seq<V>, a: int, n: int)
    requires StrippedAt(keyOf, less, s, k, t, a, n)
    ensures t == Others(keyOf, less, s, k) && n == CountOf(keyOf, less, s, k)
    decreases |s|
  {
    if s != [] {
      var u := s[1..];
      assert forall j {:trigger u[j]} :: 0 <= j < |u| ==> u[j] == s[j + 1];
      if a > 0 {
        assert !Equivalent(less, keyOf(s[0]), k);
        assert t == [s[0]] + Without(u, a - 1, a - 1 + n);
        StrippedOthers(keyOf, less, u, k, Without(u, a - 1, a - 1 + n), a - 1, n);
      } else if n > 0 {
        assert Equivalent(less, keyOf(s[0]), k);
        assert t == Without(u, 0, n - 1);
        StrippedOthers(keyOf, less, u, k, t, 0, n - 1);
      } else {
        assert !Equivalent(less, keyOf(s[0]), k);
        assert t == [s[0]] + Without(u, 0, 0);
        StrippedOthers(keyOf, less, u, k, Without(u, 0, 0), 0, 0);
      }
    }
  }

  lemma StrippedHasNone<K(!new), V>(keyOf: V -> K, less: (K, K) -> bool, s: seq<V>, k: K, t: seq<V>, a: int, n: int)
    requires StrippedAt(keyOf, less, s, k, t, a, n)
    ensures !HasKey(keyOf, less, t, k)
  {
    forall j | 0 <= j < |t| ensures !Equivalent(less, keyOf(t[j]), k) {
      assert t[j] == s[if j < a then j else j + n];
    }
  }

  /** In a sorted sequence the equivalent elements are the run between the two bounds. */
  lemma SortedStripped<K(!new), V>(keyOf: V -> K, less: (K, K) -> bool, s: seq<V>, k: K)
    requires StrictWeakOrder(less) && KeysSorted(keyOf, less, s)
    ensures var a, b := LowerIndex(keyOf, less, s, k), UpperIndex(keyOf, less, s, k);
      a <= b && StrippedAt(keyOf, less, s, k, Without(s, a, b), a, b - a)
  {
    forall j | 0 <= j < |s|
      ensures LowerIndex(keyOf, less, s, k) <= j < UpperIndex(keyOf, less, s, k) <==> Equivalent(less, keyOf(s[j]), k)
    {
      EqualRange(keyOf, less, s, k, j);
    }
    EqualRange(keyOf, less, s, k, 0);
  }

  lemma RemoveFromGap(s: seq<int>, a: int, i: int)
    requires 0 <= a <= i <= |s|
    ensures |Without(s, a, i)| == |s| - (i - a) && Without(s, a, a) == s
    ensures forall x {:trigger Without(s, a, i)[x]} :: a <= x < |s| - (i - a) ==> Without(s, a, i)[x] == s[x + (i - a)]
    ensures i < |s| ==> Without(Without(s, a, i), a, a + 1) == Without(s, a, i + 1)
  {
    var t := s[..a] + s[i..];
    assert t[..a] == s[..a];
    if i < |s| { assert t[a + 1..] == s[i + 1..]; }
  }

  class Tree<K(!new), V(0)> {
    const keyOf: V -> K
    const less: (K, K) -> bool
    const links: Links
    var value: seq<V>
    var nodeCount: int

    constructor (keyOf: V -> K, less: (K, K) -> bool)
      requires StrictWeakOrder(less)
      ensures Valid() && Contents() == [] && fresh(links)
      ensures this.keyOf == keyOf && this.less == less
    {
      this.keyOf, this.less := keyOf, less;
      links := new Links();
      var v: V := *;
      value := [v];
      nodeCount := 0;
    }

    /** The values of the nodes in iteration order. */
    ghost function Contents(): seq<V>
      requires links.Valid() && |value| == |links.left|
      reads this, links
    {
      Listing(links.ord, value)
    }

    ghost predicate Valid()
      reads this, links
    {
      && links.Valid() && |value| == |links.left|
      && nodeCount == |links.ord|
      && StrictWeakOrder(less)
      && KeysSorted(keyOf, less, Contents())
    }

    // ---------- lookups ----------

    /** The state of a descent: y is the node after the span [a, b) of x. */
    ghost predicate Descent(x: int, y: int, a: int, b: int)
      requires links.Sh().Sized()
      reads this, links
    {
      && 0 <= a <= b <= |links.ord| && y == links.NodeAt(b)
      && if x == NULL then a == b else links.Sh().IsNode(x) && links.lo[x] == a && links.hi[x] == b
    }

    method LowerBound(k: K) returns (y: int)
      requires Valid()
      ensures y == links.NodeAt(LowerIndex(keyOf, less, Contents(), k))
    {
      y := HEADER;
      var x := links.parent[HEADER];
      ghost var c := Contents();
      ghost var a, b := 0, |links.ord|;
      while x != NULL
        invariant Descent(x, y, a, b)
        invariant Below(keyOf, less, c, a, k) && NotBelow(keyOf, less, c, b, k)
        decreases b - a
      {
        StepDown(x, y, a, b);
        Compare(keyOf, less, c, links.at[x], k);
        if !less(keyOf(value[x]), k) {
          b := links.at[x];
          y, x := x, links.left[x];
        } else {
          a := links.at[x] + 1;
          x := links.right[x];
        }
      }
      LowerIndexUnique(keyOf, less, c, k, a);
    }

    lemma StepDown(x: int, y: int, a: int, b: int)
      requires Valid() && x != NULL && Descent(x, y, a, b)
      ensures a <= links.at[x] < b && x < |value| && value[x] == Contents()[links.at[x]]
      ensures Descent(links.left[x], x, a, links.at[x])
      ensures Descent(links.right[x], y, links.at[x] + 1, b)
    {
      assert links.Sh().Ok(x);
      assert links.Sh().Ok(links.left[x]);
      assert links.Sh().Ok(links.right[x]);
    }

    method UpperBound(k: K) returns (y: int)
      requires Valid()
      ensures y == links.NodeAt(UpperIndex(keyOf, less, Contents(), k))
    {
      y := HEADER;
      var x := links.parent[HEADER];
      ghost var c := Contents();
      ghost var a, b := 0, |links.ord|;
      while x != NULL
        invariant Descent(x, y, a, b)
        invariant NotAbove(keyOf, less, c, a, k) && Above(keyOf, less, c, b, k)
        decreases b - a
      {
        StepDown(x, y, a, b);
        Compare(keyOf, less, c, links.at[x], k);
        if less(k, keyOf(value[x])) {
          b := links.at[x];
          y, x := x, links.left[x];
        } else {
          a := links.at[x] + 1;
          x := links.right[x];
        }
      }
      UpperIndexUnique(keyOf, less, c, k, a);
    }

    method Find(k: K) returns (r: int)
      requires Valid()
      ensures r == HEADER <==> !HasKey(keyOf, less, Contents(), k)
      ensures r != HEADER ==>
        links.Sh().IsNode(r) && links.at[r] == LowerIndex(keyOf, less, Contents(), k) &&
        !less(keyOf(value[r]), k) && !less(k, keyOf(value[r]))
    {
      var j := LowerBound(k);
      ghost var c := Contents();
      HasKeyAt(keyOf, less, c, k);
      links.NodeAtIs(LowerIndex(keyOf, less, c, k));
      if j == HEADER || less(k, keyOf(value[j])) {
        r := HEADER;
      } else {
        r := j;
      }
    }

    // ---------- insertion ----------

    /** Links a new node holding v below y; x only says that the left side is meant. */
    method Insert(x: int, y: int, v: V, ghost k: int) returns (z: int)
      requires Valid() && 0 <= y < |value|
      requires Vacant(links.Sh(), y, y == HEADER || x != NULL || less(keyOf(v), keyOf(value[y])), k)
      requires Slot(keyOf, less, Contents(), k, keyOf(v))
      modifies this`value, this`nodeCount, links
      ensures Valid() && z == old(|value|) && value == old(value) + [v]
      ensures links.Sh().IsNode(z) && links.at[z] == k
      ensures links.ord == old(links.ord)[..k] + [z] + old(links.ord)[k..]
      ensures Contents() == InsertAt(old(Contents()), k, v)
    {
      ghost var ord0, value0 := links.ord, value;
      InsertSorted(keyOf, less, Contents(), k, v);
      ListingInsert(links.ord, value, k, |value|, v);
      if y == HEADER || x != NULL || less(keyOf(v), keyOf(value[y])) {
        z := links.InsertLeaf(y, true, k);
      } else {
        z := links.InsertLeaf(y, false, k);
      }
      links.NodeAtIs(k);
      value := value + [v];
      nodeCount := nodeCount + 1;
    }

    /** The state of a descent for insertion: the leaf goes below y. */
    ghost predicate Search(x: int, y: int, comp: bool, a: int, b: int)
      requires links.Sh().Sized()
      reads this, links
    {
      && 0 <= a <= b <= |links.ord| && 0 <= y < |links.left|
      && (x == NULL ==> a == b && Vacant(links.Sh(), y, comp, a))
      && (x != NULL ==> links.Sh().IsNode(x) && links.lo[x] == a && links.hi[x] == b)
    }

    lemma SearchStep(x: int, a: int, b: int)
      requires Valid() && links.Sh().IsNode(x) && links.lo[x] == a && links.hi[x] == b
      ensures a <= links.at[x] < b && x < |value| && value[x] == Contents()[links.at[x]]
      ensures Search(links.left[x], x, true, a, links.at[x])
      ensures Search(links.right[x], x, false, links.at[x] + 1, b)
    {
      assert links.Sh().Ok(x);
      assert links.Sh().Ok(links.left[x]);
      assert links.Sh().Ok(links.right[x]);
    }

    method InsertEqual(v: V) returns (z: int)
      requires Valid()
      modifies this`value, this`nodeCount, links
      ensures Valid() && z == old(|value|) && value == old(value) + [v]
      ensures links.Sh().IsNode(z) && links.at[z] == UpperIndex(keyOf, less, old(Contents()), keyOf(v))
      ensures Slot(keyOf, less, old(Contents()), links.at[z], keyOf(v))
      ensures links.ord == InsertAt(old(links.ord), links.at[z], z)
      ensures Contents() == AddEqual(keyOf, less, old(Contents()), v)
    {
      var y := HEADER;
      var x := links.parent[HEADER];
      ghost var c, k := Contents(), keyOf(v);
      ghost var a, b, comp := 0, |links.ord|, true;
      while x != NULL
        modifies {}
        invariant Search(x, y, comp, a, b)
        invariant y != HEADER ==> y < |value| && comp == less(k, keyOf(value[y]))
        invariant NotAbove(keyOf, less, c, a, k) && Above(keyOf, less, c, b, k)
        decreases b - a
      {
        SearchStep(x, a, b);
        Compare(keyOf, less, c, links.at[x], k);
        y := x;
        comp := less(k, keyOf(value[x]));
        if comp {
          b := links.at[x];
        } else {
          a := links.at[x] + 1;
        }
        x := if less(keyOf(v), keyOf(value[x])) then links.left[x] else links.right[x];
      }
      UpperIndexUnique(keyOf, less, c, k, a);
      z := Insert(x, y, v, a);
    }

    /** Either a new node r holds v, or nothing changed and r has an equivalent key. */
    twostate predicate AddedUnique(v: V, r: int, inserted: bool)
      requires old(Valid()) && Valid()
      reads this, links
    {
      && links.Sh().IsNode(r)
      && Contents() == AddUnique(keyOf, less, old(Contents()), v)
      && (inserted <==> !HasKey(keyOf, less, old(Contents()), keyOf(v)))
      && (inserted ==> r == old(|value|) && value == old(value) + [v])
      && (!inserted ==> value == old(value) && links.ord == old(links.ord))
      && !less(keyOf(value[r]), keyOf(v)) && !less(keyOf(v), keyOf(value[r]))
    }

    method InsertUnique(v: V) returns (r: int, inserted: bool)
      requires Valid()
      modifies this`value, this`nodeCount, links
      ensures Valid() && AddedUnique(v, r, inserted)
    {
      var y := HEADER;
      var x := links.parent[HEADER];
      ghost var c, k := Contents(), keyOf(v);
      ghost var a, b := 0, |links.ord|;
      var comp := true;
      while x != NULL
        modifies {}
        invariant Search(x, y, comp, a, b)
        invariant y != HEADER ==> y < |value| && comp == less(k, keyOf(value[y]))
        invariant NotAbove(keyOf, less, c, a, k) && Above(keyOf, less, c, b, k)
        decreases b - a
      {
        SearchStep(x, a, b);
        Compare(keyOf, less, c, links.at[x], k);
        y := x;
        comp := less(keyOf(v), keyOf(value[x]));
        if comp {
          b := links.at[x];
          x := links.left[x];
        } else {
          a := links.at[x] + 1;
          x := links.right[x];
        }
      }
      r, inserted := FinishUnique(x, y, comp, v, a);
    }

    method FinishUnique(x: int, y: int, comp: bool, v: V, ghost a: int) returns (r: int, inserted: bool)
      requires Valid() && x == NULL && Vacant(links.Sh(), y, comp, a) && 0 <= y < |value|
      requires y != HEADER ==> comp == less(keyOf(v), keyOf(value[y]))
      requires NotAbove(keyOf, less, Contents(), a, keyOf(v)) && Above(keyOf, less, Contents(), a, keyOf(v))
      modifies this`value, this`nodeCount, links
      ensures Valid() && AddedUnique(v, r, inserted)
    {
      ghost var c := Contents();
      var j := y;
      links.NodeAtIs(a);
      if comp {
        if j == links.left[HEADER] {
          UniqueSlot(keyOf, less, c, a, keyOf(v));
          r := Insert(x, y, v, a);
          return r, true;
        }
        j := links.Decrement(j);
      }
      assert links.at[j] == a - 1 && value[j] == c[a - 1];
      if less(keyOf(value[j]), keyOf(v)) {
        UniqueSlot(keyOf, less, c, a, keyOf(v));
        r := Insert(x, y, v, a);
        inserted := true;
      } else {
        r, inserted := j, false;
      }
    }

    /** Insertion with a hint: any position of the tree will do. */
    method InsertUniqueAt(position: int, v: V) returns (r: int, ghost inserted: bool)
      requires Valid() && (position == HEADER || links.Sh().IsNode(position))
      modifies this`value, this`nodeCount, links
      ensures Valid() && AddedUnique(v, r, inserted)
    {
      ghost var c, k := Contents(), keyOf(v);
      links.EndsAre();
      if position == links.left[HEADER] {
        if nodeCount > 0 && less(keyOf(v), keyOf(value[position])) {
          UniqueSlot(keyOf, less, c, 0, k);
          r := Insert(position, position, v, 0);
          inserted := true;
        } else {
          r, inserted := InsertUnique(v);
        }
      } else if position == HEADER {
        if less(keyOf(value[links.right[HEADER]]), keyOf(v)) {
          UniqueSlot(keyOf, less, c, |c|, k);
          r := Insert(NULL, links.right[HEADER], v, |c|);
          inserted := true;
        } else {
          r, inserted := InsertUnique(v);
        }
      } else {
        var before := links.Decrement(position);
        ghost var i := links.at[position];
        assert value[before] == c[i - 1] && value[position] == c[i];
        if less(keyOf(value[before]), keyOf(v)) && less(keyOf(v), keyOf(value[position])) {
          UniqueSlot(keyOf, less, c, i, k);
          BetweenNeighbours(links.Sh(), before, position);
          if links.right[before] == NULL {
            r := Insert(NULL, before, v, i);
          } else {
            r := Insert(position, position, v, i);
          }
          inserted := true;
        } else {
          r, inserted := InsertUnique(v);
        }
      }
    }

    /** The number of elements before a position. */
    ghost function PlaceOf(position: int): int
      requires links.Sh().Sized() && (position == HEADER || links.Sh().IsNode(position))
      reads this, links
    {
      if position == HEADER then |links.ord| else links.at[position]
    }

    /** Insertion with a hint, next to equivalent elements too. */
    method InsertEqualAt(position: int, v: V) returns (r: int)
      requires Valid() && (position == HEADER || links.Sh().IsNode(position))
      modifies this`value, this`nodeCount, links
      ensures Valid() && links.Sh().IsNode(r) && r == old(|value|) && value == old(value) + [v]
      ensures var i := links.at[r];
        i == NearIndex(keyOf, less, old(Contents()), old(PlaceOf(position)), keyOf(v)) && Slot(keyOf, less, old(Contents()), i, keyOf(v))
      ensures Contents() == AddEqualNear(keyOf, less, old(Contents()), old(PlaceOf(position)), v)
      ensures HintKept(keyOf, less, old(Contents()), old(PlaceOf(position)), links.at[r], keyOf(v))
    {
      ghost var c, k := Contents(), keyOf(v);
      links.EndsAre();
      NearEnd(keyOf, less, c, k);
      NearKeepsHint(keyOf, less, c, PlaceOf(position), k);
      if position == links.left[HEADER] {
        if nodeCount > 0 && less(keyOf(v), keyOf(value[position])) {
          EqualSlot(keyOf, less, c, 0, k);
          r := Insert(position, position, v, 0);
        } else {
          r := InsertEqual(v);
        }
      } else if position == HEADER {
        if !less(keyOf(v), keyOf(value[links.right[HEADER]])) {
          EqualSlot(keyOf, less, c, |c|, k);
          r := Insert(NULL, links.right[HEADER], v, |c|);
        } else {
          r := InsertEqual(v);
        }
      } else {
        var before := links.Decrement(position);
        ghost var i := links.at[position];
        assert value[before] == c[i - 1] && value[position] == c[i];
        if !less(keyOf(v), keyOf(value[before])) && !less(keyOf(value[position]), keyOf(v)) {
          EqualSlot(keyOf, less, c, i, k);
          BetweenNeighbours(links.Sh(), before, position);
          if links.right[before] == NULL {
            r := Insert(NULL, before, v, i);
          } else {
            r := Insert(position, position, v, i);
          }
        } else {
          r := InsertEqual(v);
        }
      }
    }

    // ---------- erasure ----------

    method Erase(position: int)
      requires Valid() && links.Sh().IsNode(position)
      modifies this`nodeCount, links
      ensures Valid()
      ensures var i := old(links.at[position]);
        links.ord == old(links.ord)[..i] + old(links.ord)[i + 1..] &&
        Contents() == old(Contents())[..i] + old(Contents())[i + 1..]
    {
      ghost var i := links.at[position];
      ListingRemove(links.ord, value, i, i + 1);
      var y := links.RebalanceForErase(position);
      nodeCount := nodeCount - 1;
    }

    method Clear()
      requires Valid()
      modifies this`nodeCount, links
      ensures Valid() && links.ord == [] && Contents() == []
    {
      if nodeCount != 0 {
        links.Clear();
        nodeCount := 0;
      }
    }

    /** Erases the node at position a and moves on to the next one. */
    method EraseNext(first: int, ghost a: int) returns (next: int)
      requires Valid() && 0 <= a < |links.ord| && first == links.ord[a]
      modifies this`nodeCount, links
      ensures Valid() && links.ord == Without(old(links.ord), a, a + 1)
      ensures next == links.NodeAt(a)
    {
      links.NodeAtIs(a);
      next := links.Increment(first);
      Erase(first);
    }

    /** Erases the nodes at positions a up to, but not including, b. */
    method EraseRange(first0: int, last: int, ghost a: int, ghost b: int)
      requires Valid() && 0 <= a <= b <= |links.ord| && first0 == links.NodeAt(a) && last == links.NodeAt(b)
      modifies this`nodeCount, links
      ensures Valid() && links.ord == old(links.ord)[..a] + old(links.ord)[b..]
      ensures Contents() == old(Contents())[..a] + old(Contents())[b..]
    {
      ghost var ord := links.ord;
      links.EndsAre();
      links.NodeAtIs(a);
      links.NodeAtIs(b);
      ListingRemove(ord, value, a, b);
      if first0 == links.left[HEADER] && last == HEADER {
        links.NodeAtIs(0);
        Clear();
      } else {
        EraseLoop(first0, last, a, b);
      }
    }

    method EraseLoop(first0: int, last: int, ghost a: int, ghost b: int)
      requires Valid() && 0 <= a <= b <= |links.ord| && first0 == links.NodeAt(a) && last == links.NodeAt(b)
      modifies this`nodeCount, links
      ensures Valid() && links.ord == Without(old(links.ord), a, b)
    {
      hide KeysSorted, StrictWeakOrder, Listing, Without;
      var first := first0;
      ghost var ord, i := links.ord, a;
      RemoveFromGap(ord, a, i);
      while first != last
        invariant Valid() && a <= i <= b <= |ord| && links.ord == Without(ord, a, i) && |links.ord| == |ord| - (i - a)
        invariant first == links.NodeAt(a) && last == links.NodeAt(a + b - i)
        decreases b - i
      {
        first := EraseNext(first, a);
        RemoveFromGap(ord, a, i);
        i := i + 1;
        RemoveFromGap(ord, a, i);
      }
      links.NodeAtIs(a);
      links.NodeAtIs(a + b - i);
    }

    /** The number of steps from one position to a later one. */
    method Distance(first0: int, last: int, ghost a: int, ghost b: int) returns (n: int)
      requires Valid() && 0 <= a <= b <= |links.ord| && first0 == links.NodeAt(a) && last == links.NodeAt(b)
      ensures n == b - a
    {
      n := 0;
      var first := first0;
      links.NodeAtIs(b);
      while first != last
        invariant 0 <= n <= b - a && first == links.NodeAt(a + n)
        decreases b - a - n
      {
        links.NodeAtIs(a + n);
        first := links.Increment(first);
        n := n + 1;
      }
      links.NodeAtIs(a + n);
    }

    method Count(k: K) returns (n: int)
      requires Valid()
      ensures n == CountOf(keyOf, less, Contents(), k)
    {
      ghost var c, a, b := Contents(), LowerIndex(keyOf, less, Contents(), k), UpperIndex(keyOf, less, Contents(), k);
      SortedStripped(keyOf, less, c, k);
      StrippedOthers(keyOf, less, c, k, Without(c, a, b), a, b - a);
      var first := LowerBound(k);
      var last := UpperBound(k);
      n := Distance(first, last, a, b);
    }

    /** Erases every element with an equivalent key. */
    method EraseKey(k: K) returns (n: int)
      requires Valid()
      modifies this`nodeCount, links
      ensures Valid() && !HasKey(keyOf, less, Contents(), k)
      ensures Contents() == Others(keyOf, less, old(Contents()), k) && n == CountOf(keyOf, less, old(Contents()), k)
      ensures Stripped(keyOf, less, old(Contents()), k, Contents(), n)
    {
      ghost var c := Contents();
      SortedStripped(keyOf, less, c, k);
      ghost var a, b := LowerIndex(keyOf, less, Contents(), k), UpperIndex(keyOf, less, Contents(), k);
      EqualRange(keyOf, less, Contents(), k, 0);
      var first := LowerBound(k);
      var last := UpperBound(k);
      n := Distance(first, last, a, b);
      EraseRange(first, last, a, b);
      StrippedOthers(keyOf, less, c, k, Without(c, a, b), a, b - a);
      StrippedHasNone(keyOf, less, c, k, Without(c, a, b), a, b - a);
    }

    // ---------- the library's own check ----------

    /** The nodes can be walked and have values; colours, keys and the count may be anything. */
    ghost predicate Walkable()
      reads this, links
    {
      links.Shaped() && |value| == |links.left| == |links.red|
    }

    /** What the check asks of a node: no red child below a red node, children on their sides, and at a leaf len black nodes up to the root. */
    ghost predicate NodePasses(x: int, len: int)
      requires Walkable() && links.Sh().IsNode(x)
      reads this, links
    {
      var L, R := links.left[x], links.right[x];
      assert links.Sh().Ok(x);
      && !(links.red[x] && (Red(links.red, L) || Red(links.red, R)))
      && (L != NULL ==> !less(keyOf(value[x]), keyOf(value[L])))
      && (R != NULL ==> !less(keyOf(value[R]), keyOf(value[x])))
      && (L == NULL && R == NULL ==> BlackCount(links.Sh(), links.parent, links.red, x) == len)
    }

    method CheckNode(x: int, len: int) returns (ok: bool)
      requires Walkable() && links.Sh().IsNode(x)
      ensures ok == NodePasses(x, len)
    {
      var L, R := links.left[x], links.right[x];
      assert links.Sh().Ok(x) && links.Sh().Ok(L) && links.Sh().Ok(R);
      if links.red[x] {
        if (L != NULL && links.red[L]) || (R != NULL && links.red[R]) {
          return false;
        }
      }
      if L != NULL {
        if less(keyOf(value[x]), keyOf(value[L])) { return false; }
      }
      if R != NULL {
        if less(keyOf(value[R]), keyOf(value[x])) { return false; }
      }
      if L == NULL && R == NULL {
        if BlackCount(links.Sh(), links.parent, links.red, x) != len { return false; }
      }
      return true;
    }

    /** An empty tree passes if it counts no nodes; any other if it counts some and every node passes, the leaves
        with as many black nodes up to the root as the leftmost node. */
    ghost predicate Passes()
      requires Walkable()
      reads this, links
    {
      if nodeCount == 0 || links.ord == [] then nodeCount == 0 && links.ord == []
      else
        var first := links.ord[0];
        forall i {:trigger links.ord[i]} :: 0 <= i < |links.ord| ==>
          NodePasses(links.ord[i], BlackCount(links.Sh(), links.parent, links.red, first))
    }

    /** A valid tree passes. */
    lemma ValidPasses()
      requires Valid()
      ensures Passes()
    {
      if links.ord != [] {
        links.EndsAre();
        BlackCountOfLeaf(links.Sh(), links.red, links.bh, links.ord[0]);
        forall i | 0 <= i < |links.ord|
          ensures NodePasses(links.ord[i], BlackCount(links.Sh(), links.parent, links.red, links.ord[0]))
        {
          NodeValid(links.ord[i]);
        }
      }
    }

    lemma NodeValid(x: int)
      requires Valid() && links.Sh().IsNode(x)
      ensures NodePasses(x, H(links.bh, links.parent[HEADER]))
    {
      var L, R := links.left[x], links.right[x];
      assert links.Sh().Ok(x) && links.Sh().Ok(L) && links.Sh().Ok(R);
      assert NoRedRed(links.Sh(), links.red, x);
      var c := Contents();
      assert c[links.at[x]] == value[x];
      assert L != NULL ==> c[links.at[L]] == value[L];
      assert R != NULL ==> c[links.at[R]] == value[R];
      if L == NULL && R == NULL { BlackCountOfLeaf(links.Sh(), links.red, links.bh, x); }
    }

    method Verify() returns (ok: bool)
      requires Walkable()
      ensures ok == Passes()
      ensures Valid() ==> ok
    {
      if Valid() { ValidPasses(); }
      links.EndsAre();
      var first := links.left[HEADER];
      if nodeCount == 0 || first == HEADER {
        return nodeCount == 0 && first == HEADER && links.left[HEADER] == HEADER && links.right[HEADER] == HEADER;
      }
      var len := BlackCount(links.Sh(), links.parent, links.red, first);
      var it := first;
      ghost var i := 0;
      while it != HEADER
        invariant 0 <= i <= |links.ord| && it == links.NodeAt(i)
        invariant forall k {:trigger links.ord[k]} :: 0 <= k < i ==> NodePasses(links.ord[k], len)
        decreases |links.ord| - i
      {
        links.NodeAtIs(i);
        var good := CheckNode(it, len);
        if !good { return false; }
        it := links.Increment(it);
        i := i + 1;
      }
      links.NodeAtIs(i);
      ok := CheckEnds();
    }

    method CheckEnds() returns (ok: bool)
      requires Walkable() && links.ord != []
      ensures ok
    {
      links.EndsAre();
      var lowest := links.Minimum(links.parent[HEADER]);
      if links.left[HEADER] != lowest { return false; }
      var highest := links.Maximum(links.parent[HEADER]);
      if links.right[HEADER] != highest { return false; }
      return true;
    }

    // ---------- walking the whole container ----------

    method Walk() returns (s: seq<V>)
      requires Valid()
      ensures s == Contents()
    {
      s := [];
      links.EndsAre();
      var it := links.left[HEADER];
      while it != HEADER
        invariant |s| <= |links.ord| && it == links.NodeAt(|s|) && s == Contents()[..|s|]
        decreases |links.ord| - |s|
      {
        links.NodeAtIs(|s|);
        s := s + [value[it]];
        it := links.Increment(it);
      }
      links.NodeAtIs(|s|);
    }

    method WalkBack() returns (s: seq<V>)
      requires Valid()
      ensures s == Contents()
    {
      s := [];
      links.EndsAre();
      var it := HEADER;
      while it != links.left[HEADER]
        invariant |s| <= |links.ord| && it == links.NodeAt(|links.ord| - |s|)
        invariant s == Contents()[|links.ord| - |s|..]
        decreases |links.ord| - |s|
      {
        links.NodeAtIs(|links.ord| - |s|);
        it := links.Decrement(it);
        links.NodeAtIs(links.at[it] + 1);
        s := [value[it]] + s;
      }
      links.NodeAtIs(|links.ord| - |s|);
    }

    /** The position that many steps from the beginning, or the end. */
    method PositionOf(n: nat) returns (it: int)
      requires Valid()
      ensures it == links.NodeAt(Steps(n, |links.ord|))
    {
      links.EndsAre();
      it := links.left[HEADER];
      var i := 0;
      while i < n && it != HEADER
        invariant 0 <= i <= n && i <= |links.ord| && it == links.NodeAt(i)
      {
        links.NodeAtIs(i);
        it := links.Increment(it);
        i := i + 1;
      }
      links.NodeAtIs(i);
    }

    /** Erases the element that many steps from the beginning, if there is one. */
    method EraseAt(n: nat)
      requires Valid()
      modifies this`nodeCount, links
      ensures Valid()
      ensures var c := old(Contents()); Contents() == if n < |c| then Without(c, n, n + 1) else c
    {
      hide KeysSorted, StrictWeakOrder;
      var it := PositionOf(n);
      links.NodeAtIs(Steps(n, |links.ord|));
      if it != HEADER {
        Erase(it);
      }
    }
  }

  /** The position that many steps from the beginning of a sequence, or its end. */
  function Steps(n: nat, length: nat): (i: nat) { if n < length then n else length }

  // ---------- whole runs ----------

  datatype Op<K, V> =
    | AddOne(v: V)                  // insert_unique
    | AddNear(v: V, hint: nat)      // insert_unique with a position hint
    | AddMore(v: V)                 // insert_equal
    | AddMoreNear(v: V, hint: nat)  // insert_equal with a position hint
    | Drop(k: K)                    // erase by key
    | DropAt(n: nat)                // erase at a position
    | DropRange(m: nat, n: nat)     // erase a range of positions
    | DropAll                       // clear

  /** What one operation does to the sorted sequence. */
  ghost function Apply<K, V>(keyOf: V -> K, less: (K, K) -> bool, s: seq<V>, op: Op<K, V>): seq<V> {
    match op
    case AddOne(v) => AddUnique(keyOf, less, s, v)
    case AddNear(v, _) => AddUnique(keyOf, less, s, v)
    case AddMore(v) => AddEqual(keyOf, less, s, v)
    case AddMoreNear(v, hint) => AddEqualNear(keyOf, less, s, Steps(hint, |s|), v)
    case Drop(k) => Others(keyOf, less, s, k)
    case DropAt(n) => if n < |s| then Without(s, n, n + 1) else s
    case DropRange(m, n) => if m <= n then Without(s, Steps(m, |s|), Steps(n, |s|)) else s
    case DropAll => []
  }

  ghost function ApplyAll<K, V>(keyOf: V -> K, less: (K, K) -> bool, ops: seq<Op<K, V>>): seq<V> {
    if ops == [] then []
    else Apply(keyOf, less, ApplyAll(keyOf, less, ops[..|ops| - 1]), ops[|ops| - 1])
  }

  method Perform<K(!new), V(0)>(t: Tree<K, V>, op: Op<K, V>)
    requires t.Valid()
    modifies t, t.links
    ensures t.Valid() && t.Contents() == Apply(t.keyOf, t.less, old(t.Contents()), op)
  {
    hide AddUnique, AddEqual, AddEqualNear, Others, HasKey, KeysSorted, StrictWeakOrder;
    match op {
      case AddOne(v) =>
        var r, inserted := t.InsertUnique(v);
      case AddNear(v, hint) =>
        var it := t.PositionOf(hint);
        ghost var inserted;
        var r;
        t.links.NodeAtIs(Steps(hint, |t.links.ord|));
        r, inserted := t.InsertUniqueAt(it, v);
      case AddMore(v) =>
        var z := t.InsertEqual(v);
      case AddMoreNear(v, hint) =>
        var it := t.PositionOf(hint);
        t.links.NodeAtIs(Steps(hint, |t.links.ord|));
        var z := t.InsertEqualAt(it, v);
      case Drop(k) =>
        var n := t.EraseKey(k);
      case DropAt(n) =>
        t.EraseAt(n);
      case DropRange(m, n) =>
        if m <= n {
          var first := t.PositionOf(m);
          var last := t.PositionOf(n);
          t.EraseRange(first, last, Steps(m, |t.links.ord|), Steps(n, |t.links.ord|));
        }
      case DropAll =>
        t.Clear();
    }
  }

  /** After any run of operations on a new tree, the check of the library holds
      and both walks list the sorted sequence that the operations describe. */
  method Run<K(!new), V(0)>(keyOf: V -> K, less: (K, K) -> bool, ops: seq<Op<K, V>>)
    returns (forward: seq<V>, backward: seq<V>, verified: bool)
    requires StrictWeakOrder(less)
    ensures forward == backward == ApplyAll(keyOf, less, ops)
    ensures KeysSorted(keyOf, less, forward) && verified
  {
    var t := new Tree(keyOf, less);
    for i := 0 to |ops|
      invariant t.Valid() && t.keyOf == keyOf && t.less == less
      invariant fresh(t) && fresh(t.links)
      invariant t.Contents() == ApplyAll(keyOf, less, ops[..i])
    {
      assert ops[..i + 1][..i] == ops[..i];
      Perform(t, ops[i]);
    }
    assert ops[..|ops|] == ops;
    forward := t.Walk();
    backward := t.WalkBack();
    verified := t.Verify();
  }
}
