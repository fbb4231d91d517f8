/** The next and the previous arrangement of a range in lexicographic order. */
module Permutation {
  import opened Order
  import Rotate

  /** A strict total order: of two different elements one is less. */
  ghost predicate TotalOrder<T(!new)>(less: (T, T) -> bool) {
    StrictWeakOrder(less) && forall x, y :: !less(x, y) && !less(y, x) ==> x == y
  }

  function Flip<T>(less: (T, T) -> bool): (T, T) -> bool { (x: T, y: T) => less(y, x) }

  lemma FlipTotal<T(!new)>(less: (T, T) -> bool)
    requires TotalOrder(less)
    ensures TotalOrder(Flip(less))
  {
  }

  /** s and t first differ at k, and s has the lesser element there. */
  ghost predicate LessAt<T>(less: (T, T) -> bool, s: seq<T>, t: seq<T>, k: nat) {
    k < |s| && k < |t| && s[..k] == t[..k] && less(s[k], t[k])
  }

  ghost predicate LexLess<T>(less: (T, T) -> bool, s: seq<T>, t: seq<T>) {
    exists k: nat :: LessAt(less, s, t, k)
  }

  ghost predicate LexAtMost<T>(less: (T, T) -> bool, s: seq<T>, t: seq<T>) { s == t || LexLess(less, s, t) }

  lemma LexFlip<T>(less: (T, T) -> bool, s: seq<T>, t: seq<T>)
    ensures LexLess(Flip(less), s, t) <==> LexLess(less, t, s)
  {
    if LexLess(less, t, s) { var k: nat :| LessAt(less, t, s, k); assert LessAt(Flip(less), s, t, k); }
    if LexLess(Flip(less), s, t) { var k: nat :| LessAt(Flip(less), s, t, k); assert LessAt(less, t, s, k); }
  }

  lemma LexAsymmetric<T(!new)>(less: (T, T) -> bool, s: seq<T>, t: seq<T>)
    requires TotalOrder(less) && LexLess(less, s, t)
    ensures !LexLess(less, t, s) && s != t
  {
    var k: nat :| LessAt(less, s, t, k);
    Agree(less, s, t, k);
    forall j: nat ensures !LessAt(less, t, s, j) {
      if LessAt(less, t, s, j) { Agree(less, t, s, j); }
    }
  }

  lemma Agree<T>(less: (T, T) -> bool, s: seq<T>, t: seq<T>, k: nat)
    requires LessAt(less, s, t, k)
    ensures forall j :: 0 <= j < k ==> s[j] == t[j]
  {
    forall j | 0 <= j < k ensures s[j] == t[j] { assert s[..k][j] == t[..k][j]; }
  }

  /** t is the least arrangement of the elements of s. */
  ghost predicate Least<T(!new)>(less: (T, T) -> bool, s: seq<T>, t: seq<T>) {
    multiset(t) == multiset(s) && forall u {:trigger multiset(u)} :: multiset(u) == multiset(s) ==> LexAtMost(less, t, u)
  }

  /** t is the least arrangement of the elements of s that is greater than s. */
  ghost predicate Successor<T(!new)>(less: (T, T) -> bool, s: seq<T>, t: seq<T>) {
    && multiset(t) == multiset(s) && LexLess(less, s, t)
    && forall u {:trigger multiset(u)} :: multiset(u) == multiset(s) && LexLess(less, s, u) ==> LexAtMost(less, t, u)
  }

  /** What next_permutation promises; a range of fewer than two elements is left alone. */
  ghost predicate Next<T(!new)>(less: (T, T) -> bool, s: seq<T>, t: seq<T>, ok: bool) {
    if ok then Successor(less, s, t)
    else if |s| < 2 then t == s
    else Least(Flip(less), s, s) && Least(less, s, t)
  }

  // ---------- first elements ----------

  lemma {:induction false} MemberOf<T>(s: seq<T>, t: seq<T>, k: nat) returns (j: nat)
    requires multiset(s) == multiset(t) && k < |s|
    ensures j < |t| && t[j] == s[k]
  {
    assert s[k] in multiset(s);
    assert s[k] in t;
    j :| 0 <= j < |t| && t[j] == s[k];
  }

  /** What follows equal beginnings of two arrangements are arrangements of each other. */
  lemma SameRest<T>(s: seq<T>, t: seq<T>, k: nat)
    requires multiset(s) == multiset(t) && k <= |s| && k <= |t| && s[..k] == t[..k]
    ensures multiset(s[k..]) == multiset(t[k..])
  {
    assert s == s[..k] + s[k..] && t == t[..k] + t[k..];
    assert multiset(s[k..]) == multiset(s) - multiset(s[..k]);
  }

  lemma LexAfter<T>(less: (T, T) -> bool, s: seq<T>, t: seq<T>, k: nat)
    requires k <= |s| && k <= |t| && s[..k] == t[..k] && LexAtMost(less, s[k..], t[k..])
    ensures LexAtMost(less, s, t)
  {
    assert s == s[..k] + s[k..] && t == t[..k] + t[k..];
    if s[k..] != t[k..] {
      var j: nat :| LessAt(less, s[k..], t[k..], j);
      assert s[..k + j] == s[..k] + s[k..][..j] && t[..k + j] == t[..k] + t[k..][..j];
      assert LessAt(less, s, t, k + j);
    }
  }

  /** The sorted arrangement is the least. */
  lemma {:induction false} SortedLeast<T(!new)>(less: (T, T) -> bool, s: seq<T>, u: seq<T>)
    requires TotalOrder(less) && Sorted(less, s) && multiset(s) == multiset(u)
    ensures LexAtMost(less, s, u)
    decreases |s|
  {
    assert |multiset(s)| == |s| && |multiset(u)| == |u|;
    if s != [] {
      var j := MemberOf(u, s, 0);
      assert !less(s[j], s[0]);
      if less(s[0], u[0]) {
        assert LessAt(less, s, u, 0);
      } else {
        SameRest(s, u, 1);
        SortedLeast(less, s[1..], u[1..]);
        LexAfter(less, s, u, 1);
      }
    }
  }

  /** From lo on no element is less than a later one. */
  ghost predicate Falling<T>(less: (T, T) -> bool, s: seq<T>, lo: nat) {
    lo <= |s| && forall p, q :: lo <= p < q < |s| ==> !less(s[p], s[q])
  }

  /** Where the falling end begins: the element at i is less than the one after it, and j is the last one greater than it. */
  ghost predicate Turn<T>(less: (T, T) -> bool, s: seq<T>, i: nat, j: nat) {
    && i < j < |s| && Falling(less, s, i + 1) && less(s[i], s[j])
    && (forall k :: j < k < |s| ==> !less(s[i], s[k]))
  }

  /** The arrangement that the swap and the reversal make. */
  ghost predicate Turned<T(!new)>(less: (T, T) -> bool, s: seq<T>, i: nat, j: nat, t: seq<T>) {
    && i < j < |s| == |t| && multiset(t) == multiset(s) && t[..i] == s[..i] && t[i] == s[j] && Sorted(less, t[i + 1..])
  }

  /** No greater arrangement first differs inside the falling end. */
  lemma NotInside<T(!new)>(less: (T, T) -> bool, s: seq<T>, u: seq<T>, lo: nat, k: nat)
    requires TotalOrder(less) && Falling(less, s, lo) && multiset(u) == multiset(s)
    requires lo <= k < |s| && k < |u| && s[..k] == u[..k]
    ensures !less(s[k], u[k])
  {
    SameRest(u, s, k);
    var j := MemberOf(u[k..], s[k..], 0);
    assert s[k + j] == u[k];
  }

  /** The element that comes to i is the least of those that are greater than the one there. */
  lemma LeastGreater<T(!new)>(less: (T, T) -> bool, s: seq<T>, i: nat, j: nat, u: seq<T>)
    requires TotalOrder(less) && Turn(less, s, i, j) && multiset(u) == multiset(s) && LessAt(less, s, u, i)
    ensures !less(u[i], s[j])
  {
    SameRest(u, s, i);
    var k := MemberOf(u[i..], s[i..], 0);
    assert s[i + k] == u[i];
    if i + k < j { assert !less(s[i + k], s[j]); }
  }

  lemma TurnedSuccessor<T(!new)>(less: (T, T) -> bool, s: seq<T>, i: nat, j: nat, t: seq<T>)
    requires TotalOrder(less) && Turn(less, s, i, j) && Turned(less, s, i, j, t)
    ensures Successor(less, s, t)
  {
    assert LessAt(less, s, t, i);
    forall u | multiset(u) == multiset(s) && LexLess(less, s, u) ensures LexAtMost(less, t, u) {
      var k: nat :| LessAt(less, s, u, k);
      if k > i {
        NotInside(less, s, u, i + 1, k);
      } else if k < i {
        assert t[..k] == t[..i][..k] == s[..i][..k] == u[..k] && t[k] == t[..i][k];
        assert LessAt(less, t, u, k);
      } else {
        LeastGreater(less, s, i, j, u);
        if less(t[i], u[i]) {
          assert LessAt(less, t, u, i);
        } else {
          assert t[..i + 1] == t[..i] + [t[i]] && u[..i + 1] == u[..i] + [u[i]];
          SameRest(t, u, i + 1);
          SortedLeast(less, t[i + 1..], u[i + 1..]);
          LexAfter(less, t, u, i + 1);
        }
      }
    }
  }

  // ---------- undoing ----------

  lemma SameLength<T>(s: seq<T>, t: seq<T>)
    requires multiset(s) == multiset(t)
    ensures |s| == |t|
  {
    assert |multiset(s)| == |s| && |multiset(t)| == |t|;
  }

  /** Fewer than two elements have one arrangement only. */
  lemma ShortNotLess<T(!new)>(less: (T, T) -> bool, s: seq<T>, t: seq<T>)
    requires TotalOrder(less) && multiset(s) == multiset(t) && |s| < 2
    ensures !LexLess(less, s, t)
  {
    SameLength(s, t);
    if |s| == 1 { var j := MemberOf(s, t, 0); }
  }

  lemma SuccessorBack<T(!new)>(less: (T, T) -> bool, s: seq<T>, t: seq<T>, p: seq<T>)
    requires TotalOrder(less) && Successor(less, s, t) && Successor(Flip(less), t, p)
    ensures p == s
  {
    LexFlip(less, t, s);
    LexFlip(less, t, p);
    LexFlip(less, p, s);
    LexAsymmetric(less, p, t);
    assert multiset(p) == multiset(s);
  }

  lemma LeastBack<T(!new)>(less: (T, T) -> bool, s: seq<T>, t: seq<T>, p: seq<T>)
    requires TotalOrder(less) && Least(Flip(less), s, s) && Least(less, s, t) && Least(Flip(less), t, p)
    ensures p == s
  {
    assert multiset(p) == multiset(s);
    LexFlip(less, p, s);
    LexFlip(less, s, p);
    if LexLess(less, s, p) { LexAsymmetric(less, s, p); }
  }

  /** The least arrangement has no smaller one. */
  lemma LeastNone<T(!new)>(less: (T, T) -> bool, t: seq<T>, p: seq<T>, s: seq<T>)
    requires TotalOrder(less) && Least(less, s, t) && multiset(p) == multiset(t)
    ensures !LexLess(less, p, t)
  {
    if LexLess(less, p, t) { LexAsymmetric(less, p, t); }
  }

  lemma FlipTwice<T(!new)>(less: (T, T) -> bool, s: seq<T>, t: seq<T>)
    ensures LexLess(Flip(Flip(less)), s, t) <==> LexLess(less, s, t)
  {
    LexFlip(Flip(less), s, t);
    LexFlip(less, t, s);
  }

  /** Going back by prev_permutation, which is the same for the order turned around: it ends where
      next_permutation came from, also where that started over. */
  lemma PrevUndoes<T(!new)>(less: (T, T) -> bool, s: seq<T>, t: seq<T>, p: seq<T>, ok: bool, ok': bool)
    requires TotalOrder(less) && Next(less, s, t, ok) && Next(Flip(less), t, p, ok')
    ensures p == s && ok' == ok
  {
    hide TotalOrder, Least, Successor, LexLess;
    NextPermutes(less, s, t, ok);
    NextPermutes(Flip(less), t, p, ok');
    FlipTotal(less);
    SameLength(s, t);
    if |s| < 2 {
      NeverLonger(less, s, t, ok);
      NeverLonger(Flip(less), t, p, ok');
    } else if ok && ok' {
      SuccessorBack(less, s, t, p);
    } else if ok {
      NotBoth(less, s, t);
    } else if ok' {
      LexFlipLess(less, s, t, p);
    } else {
      LeastBack(less, s, t, p);
    }
  }

  lemma NextPermutes<T(!new)>(less: (T, T) -> bool, s: seq<T>, t: seq<T>, ok: bool)
    requires Next(less, s, t, ok)
    ensures multiset(t) == multiset(s)
  {
  }

  lemma NeverLonger<T(!new)>(less: (T, T) -> bool, s: seq<T>, t: seq<T>, ok: bool)
    requires TotalOrder(less) && Next(less, s, t, ok) && |s| < 2
    ensures !ok && t == s
  {
    NextPermutes(less, s, t, ok);
    ShortNotLess(less, s, t);
  }

  /** What has a predecessor is not the least. */
  lemma NotBoth<T(!new)>(less: (T, T) -> bool, s: seq<T>, t: seq<T>)
    requires TotalOrder(less) && Successor(less, s, t)
    ensures !Least(Flip(Flip(less)), t, t)
  {
    FlipTwice(less, t, s);
    LexAsymmetric(less, s, t);
    assert multiset(s) == multiset(t);
  }

  lemma LexFlipLess<T(!new)>(less: (T, T) -> bool, s: seq<T>, t: seq<T>, p: seq<T>)
    requires TotalOrder(less) && Least(less, s, t)
    ensures !Successor(Flip(less), t, p)
  {
    LexFlip(less, t, p);
    if multiset(p) == multiset(t) { LeastNone(less, t, p, s); }
  }

  // ---------- the operations on an array ----------

  lemma BackwardsSorted<T(!new)>(less: (T, T) -> bool, s: seq<T>)
    requires Falling(less, s, 0)
    ensures Sorted(less, Rotate.Backwards(s))
  {
    var r := Rotate.Backwards(s);
    forall p, q | 0 <= p < q < |r| ensures !less(r[q], r[p]) {
      Rotate.BackwardsAt(s, p);
      Rotate.BackwardsAt(s, q);
    }
  }

  lemma {:induction false} BackwardsPermutes<T>(s: seq<T>)
    ensures multiset(Rotate.Backwards(s)) == multiset(s)
  {
    if s != [] {
      BackwardsPermutes(s[1..]);
      assert s == [s[0]] + s[1..];
    }
  }

  lemma SwapTurns<T(!new)>(less: (T, T) -> bool, s: seq<T>, i: nat, j: nat, u: seq<T>)
    requires TotalOrder(less) && Turn(less, s, i, j) && u == s[i := s[j]][j := s[i]]
    ensures Turned(less, s, i, j, u[..i + 1] + Rotate.Backwards(u[i + 1..]))
  {
    var rest := u[i + 1..];
    forall p, q | 0 <= p < q < |rest| ensures !less(rest[p], rest[q]) {
      assert !less(s[i + 1 + p], s[i + 1 + q]);
      if i + 1 + q == j { assert !less(s[i + 1 + p], s[j]); }
    }
    BackwardsSorted(less, rest);
    BackwardsPermutes(rest);
    assert u == u[..i + 1] + rest;
    SwapKeeps(s, u, i, j);
    var t := u[..i + 1] + Rotate.Backwards(rest);
    assert t[i + 1..] == Rotate.Backwards(rest) && t[..i] == s[..i];
  }

  lemma SwapKeeps<T>(s: seq<T>, u: seq<T>, i: nat, j: nat)
    requires i < j < |s| && u == s[i := s[j]][j := s[i]]
    ensures multiset(u) == multiset(s)
  {
    assert s == s[..i] + [s[i]] + s[i + 1..j] + [s[j]] + s[j + 1..];
    assert u == s[..i] + [s[j]] + s[i + 1..j] + [s[i]] + s[j + 1..];
  }

  /** The greatest arrangement is followed by the least. */
  lemma StartOver<T(!new)>(less: (T, T) -> bool, s: seq<T>)
    requires TotalOrder(less) && Falling(less, s, 0)
    ensures Least(Flip(less), s, s) && Least(less, s, Rotate.Backwards(s))
  {
    FlipTotal(less);
    forall u | multiset(u) == multiset(s) ensures LexAtMost(Flip(less), s, u) { SortedLeast(Flip(less), s, u); }
    BackwardsSorted(less, s);
    BackwardsPermutes(s);
    forall u | multiset(u) == multiset(s) ensures LexAtMost(less, Rotate.Backwards(s), u) { SortedLeast(less, Rotate.Backwards(s), u); }
  }

  lemma PartReversed<T>(x: seq<T>, first: nat, ii: nat, last: nat)
    requires first <= ii <= last <= |x|
    ensures Rotate.ReversedPart(x, ii, last)[first..last] == x[first..ii] + Rotate.Backwards(x[ii..last])
    ensures forall k :: 0 <= k < |x| && !(first <= k < last) ==> Rotate.ReversedPart(x, ii, last)[k] == x[k]
  {
  }

  lemma FallingMore<T(!new)>(less: (T, T) -> bool, s: seq<T>, i: nat)
    requires TotalOrder(less) && i + 1 < |s| && Falling(less, s, i + 1) && !less(s[i], s[i + 1])
    ensures Falling(less, s, i)
  {
    forall q | i < q < |s| ensures !less(s[i], s[q]) {
      if q > i + 1 { assert !less(s[i + 1], s[q]); }
    }
  }

  /** The last element that is greater than the one at i, searched from the end without a bound. */
  method LastGreater<T(!new)>(less: (T, T) -> bool, a: array<T>, i: nat, last: nat) returns (j: nat)
    requires i + 1 < last <= a.Length && less(a[i], a[i + 1])
    ensures i < j < last && less(a[i], a[j]) && forall k :: j < k < last ==> !less(a[i], a[k])
  {
    j := last - 1;
    while !less(a[i], a[j])
      invariant i < j < last && forall k :: j < k < last ==> !less(a[i], a[k])
      decreases j
    {
      j := j - 1;
    }
  }

  ghost function SwapReversed<T>(s: seq<T>, i: nat, j: nat): seq<T>
    requires i < j < |s|
  {
    var u := s[i := s[j]][j := s[i]];
    u[..i + 1] + Rotate.Backwards(u[i + 1..])
  }

  lemma SwapReversedPart<T>(x: seq<T>, y: seq<T>, first: nat, i: nat, j: nat, last: nat)
    requires first <= i < j < last <= |x| && y == x[i := x[j]][j := x[i]]
    ensures Rotate.ReversedPart(y, i + 1, last)[first..last] == SwapReversed(x[first..last], i - first, j - first)
    ensures forall k :: 0 <= k < |x| && !(first <= k < last) ==> Rotate.ReversedPart(y, i + 1, last)[k] == x[k]
  {
    var s := x[first..last];
    var u := s[i - first := s[j - first]][j - first := s[i - first]];
    assert y[first..last] == u;
    PartReversed(y, first, i + 1, last);
    assert y[first..i + 1] == u[..i + 1 - first] && y[i + 1..last] == u[i + 1 - first..];
  }

  method SwapAndReverse<T>(a: array<T>, ghost first: nat, i: nat, j: nat, last: nat)
    requires first <= i < j < last <= a.Length
    modifies a
    ensures a[first..last] == SwapReversed(old(a[first..last]), i - first, j - first)
    ensures forall k :: 0 <= k < a.Length && !(first <= k < last) ==> a[k] == old(a[k])
  {
    hide SwapReversed, Rotate.ReversedPart;
    ghost var x := a[..];
    a[i], a[j] := a[j], a[i];
    ghost var y := a[..];
    assert y == x[i := x[j]][j := x[i]];
    Rotate.Reverse(a, i + 1, last);
    ghost var z := a[..];
    SwapReversedPart(x, y, first, i, j, last);
    assert a[first..last] == z[first..last];
  }

  /** The swap and the reversal at a place where the elements rise. */
  method Turnover<T(!new)>(less: (T, T) -> bool, a: array<T>, first: nat, i: nat, last: nat)
    requires TotalOrder(less) && first <= i && i + 1 < last <= a.Length && less(a[i], a[i + 1])
    requires Falling(less, a[first..last], i - first + 1)
    modifies a
    ensures Successor(less, old(a[first..last]), a[first..last])
    ensures forall k :: 0 <= k < a.Length && !(first <= k < last) ==> a[k] == old(a[k])
  {
    hide TotalOrder, Successor, SwapReversed, Falling;
    var j := LastGreater(less, a, i, last);
    TurnFound(less, a[..], first, i, j, last);
    assert a[..][first..last] == a[first..last];
    SwapAndReverse(a, first, i, j, last);
  }

  lemma TurnFound<T(!new)>(less: (T, T) -> bool, x: seq<T>, first: nat, i: nat, j: nat, last: nat)
    requires TotalOrder(less) && first <= i < j < last <= |x| && Falling(less, x[first..last], i - first + 1)
    requires less(x[i], x[j]) && forall k :: j < k < last ==> !less(x[i], x[k])
    ensures Successor(less, x[first..last], SwapReversed(x[first..last], i - first, j - first))
  {
    hide TotalOrder, Successor, Turned;
    var s, p, q := x[first..last], i - first, j - first;
    assert Turn(less, s, p, q);
    SwapTurns(less, s, p, q, s[p := s[q]][q := s[p]]);
    TurnedSuccessor(less, s, p, q, SwapReversed(s, p, q));
  }

  method NextPermutation<T(!new)>(less: (T, T) -> bool, a: array<T>, first: nat, last: nat) returns (ok: bool)
    requires TotalOrder(less) && first <= last <= a.Length
    modifies a
    ensures Next(less, old(a[first..last]), a[first..last], ok)
    ensures forall k :: 0 <= k < a.Length && !(first <= k < last) ==> a[k] == old(a[k])
  {
    hide TotalOrder, Successor, Least;
    if first == last || first + 1 == last {
      return false;
    }
    ghost var s := a[first..last];
    var i := last - 1;
    while true
      invariant first < i < last && Falling(less, s, i - first) && a[..] == old(a[..])
      decreases i
    {
      i := i - 1;
      if less(a[i], a[i + 1]) {
        Turnover(less, a, first, i, last);
        return true;
      }
      FallingMore(less, s, i - first);
      if i == first {
        ghost var x := a[..];
        StartOver(less, s);
        Rotate.Reverse(a, first, last);
        PartReversed(x, first, first, last);
        assert a[first..last] == Rotate.Backwards(s);
        return false;
      }
    }
  }

  /** The same loop with the operands of every comparison exchanged. */
  method PrevPermutation<T(!new)>(less: (T, T) -> bool, a: array<T>, first: nat, last: nat) returns (ok: bool)
    requires TotalOrder(less) && first <= last <= a.Length
    modifies a
    ensures Next(Flip(less), old(a[first..last]), a[first..last], ok)
    ensures forall k :: 0 <= k < a.Length && !(first <= k < last) ==> a[k] == old(a[k])
  {
    FlipTotal(less);
    ok := NextPermutation(Flip(less), a, first, last);
  }

  /** Forwards and back again leaves everything as it was. */
  method ThereAndBack<T(!new)>(less: (T, T) -> bool, a: array<T>, first: nat, last: nat) returns (ok: bool, ok': bool)
    requires TotalOrder(less) && first <= last <= a.Length
    modifies a
    ensures a[..] == old(a[..]) && ok == ok'
  {
    hide TotalOrder, Next;
    ghost var s, x := a[first..last], a[..];
    ok := NextPermutation(less, a, first, last);
    ghost var t := a[first..last];
    ok' := PrevPermutation(less, a, first, last);
    PrevUndoes(less, s, t, a[first..last], ok, ok');
    assert a[..] == a[..first] + a[first..last] + a[last..];
    assert x == x[..first] + s + x[last..];
    assert a[..first] == x[..first] && a[last..] == x[last..];
  }
}
