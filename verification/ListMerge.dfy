/** Moving cells between lists, and merging two lists. */
module ListMerge {
  import opened Order
  import opened Stable
  import opened ListLinks
  import Rotate

  ghost function Both(lists: map<nat, seq<nat>>, h: nat, l: seq<nat>, k: nat, m: seq<nat>): map<nat, seq<nat>> {
    lists[h := l][k := m]
  }

  class Lists {
    var next: seq<nat>
    var prev: seq<nat>
    ghost var spots: seq<Spot>
    /** The cells of each list in order, by its header. */
    ghost var lists: map<nat, seq<nat>>

    ghost predicate Valid()
      reads this
    {
      && |next| == |prev| == |spots|
      && forall h {:trigger h in lists} :: h in lists ==> Ring(next, prev, spots, h, lists[h])
    }

    constructor ()
      ensures Valid() && lists == map[] && next == []
    {
      next, prev, spots, lists := [], [], [], map[];
    }

    /** A header linked to itself. */
    method NewList() returns (h: nat)
      requires Valid()
      modifies this
      ensures Valid() && h !in old(lists) && h == |old(next)| && lists == old(lists)[h := []]
    {
      h := |next|;
      forall k | k in lists ensures k != h { assert Ring(next, prev, spots, k, lists[k]); }
      ghost var next0, prev0, spots0 := next, prev, spots;
      next := next + [h];
      prev := prev + [h];
      spots := spots + [Spot(h, 0)];
      forall k | k in lists ensures Ring(next, prev, spots, k, lists[k]) {
        Grown(next0, prev0, spots0, next, prev, spots, k, lists[k]);
      }
      lists := lists[h := []];
    }

    /** Seven assignments, for any position that is not the first cell moved. */
    method Relink(position: nat, first: nat, last: nat)
      requires |next| == |prev| && position < |next| && first < |next| && last < |next| && position != first
      requires prev[position] < |next| && prev[first] < |next| && prev[last] < |next|
      modifies this`next, this`prev
      ensures position != last ==> next == NextAfter(old(next), old(prev), position, first, last) && prev == PrevAfter(old(prev), position, first, last)
      ensures position == last ==> next == old(next) && prev == old(prev)
    {
      if position != last {
        next := next[prev[last] := position];
        next := next[prev[first] := last];
        next := next[prev[position] := first];
        var tmp := prev[position];
        prev := prev[position := prev[last]];
        prev := prev[last := prev[first]];
        prev := prev[first := tmp];
      }
    }

    /** Moves the cells [first, last) of the list of k in front of position in the list of h. */
    method Transfer(position: nat, first: nat, last: nat, ghost h: nat, ghost i: nat, ghost k: nat, ghost p: nat, ghost q: nat)
      requires Valid() && h in lists && k in lists && h != k
      requires i <= |lists[h]| && p < q <= |lists[k]|
      requires position == CellAt(h, lists[h], i) && first == lists[k][p] && last == CellAt(k, lists[k], q)
      modifies this
      ensures Valid() && |next| == |old(next)|
      ensures lists == old(Both(lists, h, lists[h][..i] + lists[k][p..q] + lists[h][i..], k, lists[k][..p] + lists[k][q..]))
    {
      ghost var next0, prev0, spots0, l, m := next, prev, spots, lists[h], lists[k];
      RewiredApart(next, prev, spots, h, l, i, k, m, p, q);
      OtherCells(next, prev, spots, h, l, i, k, m, p, q);
      Relink(position, first, last);
      spots := SpotsAfter(spots, h, i, k, p, q);
      TransferApart(next0, prev0, spots0, next, prev, h, l, i, k, m, p, q);
      forall o | o in lists && o != h && o != k ensures Ring(next, prev, spots, o, lists[o]) {
        TransferOther(next0, prev0, spots0, next, prev, h, l, i, k, m, p, q, o, lists[o]);
      }
      lists := lists[h := l[..i] + m[p..q] + l[i..]][k := m[..p] + m[q..]];
    }

    /** Moves the cells [first, last) in front of a position of the same list that is not among them. */
    method TransferWithin(position: nat, first: nat, last: nat, ghost h: nat, ghost i: nat, ghost p: nat, ghost q: nat)
      requires Valid() && h in lists && p < q <= |lists[h]| && (i < p || q <= i <= |lists[h]|)
      requires position == CellAt(h, lists[h], i) && first == lists[h][p] && last == CellAt(h, lists[h], q)
      modifies this
      ensures Valid() && |next| == |old(next)|
      ensures lists == old(lists[h := MovedTo(lists[h], i, p, q)])
    {
      ghost var l := lists[h];
      if position == last {
        SameIndex(next, prev, spots, h, l, i, q);
        assert MovedTo(l, q, p, q) == l;
        assert lists == lists[h := l];
        return;
      }
      ghost var a, b, c := if i < p then i else p, if i < p then p else q, if i < p then q else i;
      ghost var next0, prev0, spots0 := next, prev, spots;
      CrossedBothWays(next, prev, spots, h, l, a, b, c);
      SameIndex(next, prev, spots, h, l, i, p);
      Relink(position, first, last);
      spots := SpotsExchanged(spots, h, a, b, c);
      ExchangedRing(next0, prev0, spots0, next, prev, h, l, a, b, c);
      forall o | o in lists && o != h ensures Ring(next, prev, spots, o, lists[o]) {
        ExchangedOther(next0, prev0, spots0, next, prev, h, l, a, b, c, o, lists[o]);
      }
      lists := lists[h := Exchanged(l, a, b, c)];
    }

    method Empty(h: nat) returns (r: bool)
      requires Valid() && h in lists
      ensures r == (lists[h] == [])
    {
      assert Linked(next, prev, h, lists[h], 0);
      r := next[h] == h;
    }

    /** The test that spares short lists the sort. */
    method AtMostOne(h: nat) returns (r: bool)
      requires Valid() && h in lists
      ensures r == (|lists[h]| <= 1)
    {
      OnePast(next, prev, spots, h, lists[h], 0);
      assert Linked(next, prev, h, lists[h], 0);
      if |lists[h]| > 0 { OnePast(next, prev, spots, h, lists[h], 1); }
      r := next[h] == h || next[next[h]] == h;
    }

    /** Moves one cell of the list of k in front of a position of the list of h. */
    method SpliceCell(position: nat, cell: nat, ghost h: nat, ghost i: nat, ghost k: nat, ghost p: nat)
      requires Valid() && h in lists && k in lists && h != k && i <= |lists[h]| && p < |lists[k]|
      requires position == CellAt(h, lists[h], i) && cell == lists[k][p]
      modifies this
      ensures Valid() && |next| == |old(next)|
      ensures lists == old(Both(lists, h, lists[h][..i] + [lists[k][p]] + lists[h][i..], k, lists[k][..p] + lists[k][p + 1..]))
    {
      OnePast(next, prev, spots, k, lists[k], p);
      OtherCells(next, prev, spots, h, lists[h], i, k, lists[k], p, p + 1);
      assert lists[k][p..p + 1] == [lists[k][p]];
      var j := next[cell];
      if position == cell || position == j {
        return;
      }
      Transfer(position, cell, j, h, i, k, p, p + 1);
    }

    /** Moves one cell in front of a position of its own list, which may be next to it. */
    method SpliceWithin(position: nat, cell: nat, ghost h: nat, ghost i: nat, ghost p: nat)
      requires Valid() && h in lists && i <= |lists[h]| && p < |lists[h]|
      requires position == CellAt(h, lists[h], i) && cell == lists[h][p]
      modifies this
      ensures Valid() && |next| == |old(next)|
      ensures lists == old(lists[h := if i == p then lists[h] else MovedTo(lists[h], i, p, p + 1)])
    {
      ghost var l := lists[h];
      OnePast(next, prev, spots, h, l, p);
      SameIndex(next, prev, spots, h, l, i, p);
      SameIndex(next, prev, spots, h, l, i, p + 1);
      var j := next[cell];
      if position == cell || position == j {
        if i != p { assert MovedTo(l, p + 1, p, p + 1) == l; }
        assert lists == lists[h := l];
        return;
      }
      TransferWithin(position, cell, j, h, i, p, p + 1);
    }

    /** Moves the first cell of the list of k to the front of the list of h. */
    method SpliceFirst(h: nat, k: nat)
      requires Valid() && h in lists && k in lists && h != k && lists[k] != []
      modifies this
      ensures Valid() && |next| == |old(next)|
      ensures lists == old(Both(lists, h, [lists[k][0]] + lists[h], k, lists[k][1..]))
    {
      assert Linked(next, prev, h, lists[h], 0) && Linked(next, prev, k, lists[k], 0);
      ghost var l, m := lists[h], lists[k];
      assert l[..0] + [m[0]] + l[0..] == [m[0]] + l && m[..0] + m[1..] == m[1..];
      SpliceCell(next[h], next[k], h, 0, k, 0);
    }

    /** Cell by cell to the front. */
    method Reverse(h: nat)
      requires Valid() && h in lists
      modifies this
      ensures Valid() && |next| == |old(next)| && lists == old(lists[h := Rotate.Backwards(lists[h])])
    {
      hide Ring, Turned, Rotate.Backwards;
      ghost var lists0, l := lists, lists[h];
      Short(l);
      assert lists0[h := l] == lists0;
      var short := AtMostOne(h);
      if short { return; }
      var first := Second(h);
      ghost var j := 1;
      while first != h
        invariant 1 <= j <= |l| && Valid() && |next| == |old(next)| && h in lists
        invariant lists == lists0[h := Turned(l, j)] && first == CellAt(h, lists[h], j)
        decreases |l| - j
      {
        first := ReverseOne(h, first, lists0, l, j);
        j := j + 1;
      }
      OnePast(next, prev, spots, h, lists[h], j);
    }

    /** The first cell, or the header. */
    method FirstCell(h: nat) returns (cell: nat)
      requires Valid() && h in lists
      ensures cell == CellAt(h, lists[h], 0)
    {
      assert Linked(next, prev, h, lists[h], 0);
      cell := next[h];
    }

    /** The second cell, or the header. */
    method Second(h: nat) returns (cell: nat)
      requires Valid() && h in lists && lists[h] != []
      ensures cell == CellAt(h, lists[h], 1)
    {
      assert Linked(next, prev, h, lists[h], 0);
      OnePast(next, prev, spots, h, lists[h], 0);
      cell := next[next[h]];
    }

    method ReverseOne(h: nat, old0: nat, ghost lists0: map<nat, seq<nat>>, ghost l: seq<nat>, ghost j: nat) returns (first: nat)
      requires Valid() && h in lists && 1 <= j <= |l| && lists == lists0[h := Turned(l, j)] && old0 == CellAt(h, lists[h], j) && old0 != h
      modifies this
      ensures Valid() && |next| == |old(next)| && j < |l| && lists == lists0[h := Turned(l, j + 1)] && first == CellAt(h, lists[h], j + 1)
    {
      OnePast(next, prev, spots, h, lists[h], j);
      first := next[old0];
      assert Linked(next, prev, h, lists[h], 0);
      TurnedOne(l, j);
      hide Ring, Turned;
      TransferWithin(next[h], old0, first, h, 0, j, j + 1);
    }

    /** The list of h holds d and then x, the list of k holds y; the others are as they were. */
    ghost predicate Holds(was: map<nat, seq<nat>>, h: nat, d: seq<nat>, x: seq<nat>, k: nat, y: seq<nat>)
      reads this
    {
      Valid() && h != k && h in lists && k in lists && lists[h] == d + x && lists[k] == y && lists == Both(was, h, d + x, k, y)
    }

    /** The first cell of y goes between d and x. */
    method TakeCell(first1: nat, first2: nat, ghost was: map<nat, seq<nat>>, ghost h: nat, ghost d: seq<nat>, ghost x: seq<nat>, ghost k: nat, ghost y: seq<nat>) returns (n: nat)
      requires Holds(was, h, d, x, k, y) && y != [] && first1 == CellAt(h, d + x, |d|) && first2 == CellAt(k, y, 0)
      modifies this
      ensures Holds(was, h, d + [y[0]], x, k, y[1..]) && |next| == |old(next)|
      ensures n == CellAt(k, y[1..], 0) && first1 == CellAt(h, d + [y[0]] + x, |d| + 1)
    {
      OnePast(next, prev, spots, k, y, 0);
      n := next[first2];
      MovedCell(d, x, y);
      AfterCell(h, d, x, y);
      BothTwice(was, h, d + x, k, y, d + [y[0]] + x, y[1..]);
      hide Ring, Both;
      Transfer(first1, first2, n, h, |d|, k, 0, 1);
    }

    method StepOver(first1: nat, ghost was: map<nat, seq<nat>>, ghost h: nat, ghost d: seq<nat>, ghost x: seq<nat>, ghost k: nat, ghost y: seq<nat>) returns (n: nat)
      requires Holds(was, h, d, x, k, y) && x != [] && first1 == CellAt(h, d + x, |d|)
      ensures Holds(was, h, d + [x[0]], x[1..], k, y)
      ensures d + x == d + [x[0]] + x[1..] && n == CellAt(h, d + [x[0]] + x[1..], |d| + 1)
    {
      OnePast(next, prev, spots, h, d + x, |d|);
      n := next[first1];
      assert d + x == d + [x[0]] + x[1..];
    }

    /** The rest of y goes behind x. */
    method TakeRest(first2: nat, ghost was: map<nat, seq<nat>>, h: nat, ghost d: seq<nat>, ghost x: seq<nat>, k: nat, ghost y: seq<nat>)
      requires Holds(was, h, d, x, k, y) && first2 == CellAt(k, y, 0)
      modifies this
      ensures Valid() && |next| == |old(next)| && lists == Both(was, h, d + x + y, k, [])
    {
      OnePast(next, prev, spots, k, y, 0);
      if first2 != k {
        AllMoved(d + x, y);
        Transfer(h, first2, k, h, |d + x|, k, 0, |y|);
      } else {
        assert d + x + y == d + x;
      }
    }

    lemma Ends(first1: nat, first2: nat, was: map<nat, seq<nat>>, h: nat, d: seq<nat>, x: seq<nat>, k: nat, y: seq<nat>)
      requires Holds(was, h, d, x, k, y) && first1 == CellAt(h, d + x, |d|) && first2 == CellAt(k, y, 0)
      ensures (first1 == h <==> x == []) && (first2 == k <==> y == [])
      ensures (x != [] ==> first1 == x[0]) && (y != [] ==> first2 == y[0])
    {
      OnePast(next, prev, spots, h, d + x, |d|);
      OnePast(next, prev, spots, k, y, 0);
    }

    /** Merges the list of k into the list of h; of equivalent cells those of h come first. */
    method Merge(less: (nat, nat) -> bool, h: nat, k: nat)
      requires Valid() && h in lists && k in lists && h != k
      requires StrictWeakOrder(less) && Sorted(less, lists[h]) && Sorted(less, lists[k])
      modifies this
      ensures Valid() && |next| == |old(next)|
      ensures h in lists && lists == Both(old(lists), h, lists[h], k, [])
      ensures StablySorted(less, old(lists[h] + lists[k]), lists[h])
    {
      hide Merging, Ring, Both, StrictWeakOrder, Sorted, StablySorted, SameClasses, CellAt;
      ghost var lists0, s1, s2 := lists, lists[h], lists[k];
      var first1 := FirstCell(h);
      var first2 := FirstCell(k);
      ghost var d: seq<nat>, i: nat, j: nat := [], 0, 0;
      MergeStart(less, s1, s2);
      assert [] + s1[0..] == s1 && s2[0..] == s2;
      BothSame(lists0, h, k);
      while first1 != h && first2 != k
        invariant i <= |s1| && j <= |s2| && Merging(less, s1, s2, d, i, j) && |next| == |old(next)|
        invariant Holds(lists0, h, d, s1[i..], k, s2[j..])
        invariant first1 == CellAt(h, d + s1[i..], |d|) && first2 == CellAt(k, s2[j..], 0)
        decreases |s1| - i + |s2| - j
      {
        Ends(first1, first2, lists0, h, d, s1[i..], k, s2[j..]);
        if less(first2, first1) {
          TakeSecond(less, s1, s2, d, i, j);
          first2 := TakeCell(first1, first2, lists0, h, d, s1[i..], k, s2[j..]);
          d, j := d + [s2[j]], j + 1;
        } else {
          TakeFirst(less, s1, s2, d, i, j);
          first1 := StepOver(first1, lists0, h, d, s1[i..], k, s2[j..]);
          d, i := d + [s1[i]], i + 1;
        }
      }
      Ends(first1, first2, lists0, h, d, s1[i..], k, s2[j..]);
      MergeEnd(less, s1, s2, d, i, j);
      TakeRest(first2, lists0, h, d, s1[i..], k, s2[j..]);
      assert lists[h] == d + s1[i..] + s2[j..] by { BothHas(lists0, h, d + s1[i..] + s2[j..], k); }
    }
  }

  /** The list after its stretch [p, q) has gone in front of the cell at index i. */
  function MovedTo(l: seq<nat>, i: nat, p: nat, q: nat): seq<nat>
    requires p <= q <= |l| && (i < p || q <= i <= |l|)
  {
    if i < p then Exchanged(l, i, p, q) else Exchanged(l, p, q, i)
  }

  /** The first j cells are turned around. */
  function Turned(l: seq<nat>, j: nat): (t: seq<nat>)
    requires j <= |l|
    ensures |t| == |l|
  {
    Rotate.Backwards(l[..j]) + l[j..]
  }

  lemma Short(l: seq<nat>)
    ensures |l| <= 1 ==> Rotate.Backwards(l) == l
    ensures |l| >= 1 ==> Turned(l, 1) == l
    ensures Turned(l, |l|) == Rotate.Backwards(l)
  {
    hide Rotate.Backwards;
    assert l[..|l|] == l && l[|l|..] == [];
    NoneBackwards();
    if |l| >= 1 {
      assert l[..1] == [] + [l[0]] && [] + [l[0]] == [l[0]];
      BackwardsMore([], l[0]);
      assert [l[0]] + l[1..] == l;
    }
  }

  lemma NoneBackwards()
    ensures Rotate.Backwards<nat>([]) == []
  {
  }

  /** The next cell goes to the front. */
  lemma TurnedOne(l: seq<nat>, j: nat)
    requires 1 <= j <= |l|
    ensures j < |l| ==> MovedTo(Turned(l, j), 0, j, j + 1) == Turned(l, j + 1) && Turned(l, j)[j] == l[j]
    ensures j < |l| ==> Turned(l, j + 1)[j + 1..] == Turned(l, j)[j + 1..]
  {
    if j < |l| {
      var t, b := Turned(l, j), Rotate.Backwards(l[..j]);
      assert l[..j + 1] == l[..j] + [l[j]];
      BackwardsMore(l[..j], l[j]);
      assert t[..j] == b && t[j..] == l[j..] && t[j + 1..] == l[j + 1..];
      assert MovedTo(t, 0, j, j + 1) == [t[j]] + t[..j] + t[j + 1..];
      assert Turned(l, j + 1)[j + 1..] == l[j + 1..];
    }
  }

  lemma {:induction false} BackwardsMore(s: seq<nat>, x: nat)
    ensures Rotate.Backwards(s + [x]) == [x] + Rotate.Backwards(s)
  {
    if s != [] {
      assert (s + [x])[1..] == s[1..] + [x];
      BackwardsMore(s[1..], x);
    }
  }

  /** Cells of different lists differ. */
  lemma OtherCells(next: seq<nat>, prev: seq<nat>, spots: seq<Spot>, h: nat, l: seq<nat>, i: nat, k: nat, m: seq<nat>, p: nat, q: nat)
    requires h != k && Ring(next, prev, spots, h, l) && Ring(next, prev, spots, k, m) && i <= |l| && p <= |m| && q <= |m|
    ensures CellAt(h, l, i) != CellAt(k, m, p) && CellAt(h, l, i) != CellAt(k, m, q)
  {
    assert i < |l| ==> spots[l[i]].list == h;
    assert p < |m| ==> spots[m[p]].list == k;
    assert q < |m| ==> spots[m[q]].list == k;
  }

  lemma SameIndex(next: seq<nat>, prev: seq<nat>, spots: seq<Spot>, h: nat, l: seq<nat>, i: nat, j: nat)
    requires Ring(next, prev, spots, h, l) && i <= |l| && j <= |l|
    ensures CellAt(h, l, i) == CellAt(h, l, j) <==> i == j
  {
    assert i < |l| ==> spots[l[i]] == Spot(h, i + 1);
    assert j < |l| ==> spots[l[j]] == Spot(h, j + 1);
  }

  lemma BothSame(lists: map<nat, seq<nat>>, h: nat, k: nat)
    requires h in lists && k in lists
    ensures Both(lists, h, lists[h], k, lists[k]) == lists
  {
  }

  lemma BothHas(lists: map<nat, seq<nat>>, h: nat, l: seq<nat>, k: nat)
    requires h != k
    ensures h in Both(lists, h, l, k, []) && Both(lists, h, l, k, [])[h] == l
  {
  }

  lemma Grown(next: seq<nat>, prev: seq<nat>, spots: seq<Spot>, next': seq<nat>, prev': seq<nat>, spots': seq<Spot>, h: nat, l: seq<nat>)
    requires Ring(next, prev, spots, h, l) && next <= next' && prev <= prev' && spots <= spots' && |next'| == |prev'| == |spots'|
    ensures Ring(next', prev', spots', h, l)
  {
    forall i | 0 <= i <= |l| ensures Linked(next', prev', h, l, i) { assert Linked(next, prev, h, l, i); }
  }

  /** The cell at an index is past the end exactly when it is the header; else its next is the one after it. */
  lemma OnePast(next: seq<nat>, prev: seq<nat>, spots: seq<Spot>, h: nat, l: seq<nat>, i: nat)
    requires Ring(next, prev, spots, h, l) && i <= |l|
    ensures CellAt(h, l, i) == h <==> i == |l|
    ensures i < |l| ==> l[i] < |next| && next[l[i]] == CellAt(h, l, i + 1)
  {
    if i < |l| { assert Linked(next, prev, h, l, i + 1); }
  }

  lemma MovedCell(d: seq<nat>, x: seq<nat>, y: seq<nat>)
    requires y != []
    ensures (d + x)[..|d|] + y[0..1] + (d + x)[|d|..] == d + [y[0]] + x
    ensures y[..0] + y[1..] == y[1..]
  {
    assert (d + x)[..|d|] == d && (d + x)[|d|..] == x && y[0..1] == [y[0]];
  }

  lemma AfterCell(h: nat, d: seq<nat>, x: seq<nat>, y: seq<nat>)
    requires y != []
    ensures CellAt(h, d + x, |d|) == CellAt(h, d + [y[0]] + x, |d| + 1)
    ensures forall k :: CellAt(k, y, 1) == CellAt(k, y[1..], 0) && CellAt(k, y, 0) == y[0]
  {
  }

  lemma BothTwice(was: map<nat, seq<nat>>, h: nat, l: seq<nat>, k: nat, m: seq<nat>, l': seq<nat>, m': seq<nat>)
    requires h != k
    ensures var lists := Both(was, h, l', k, m');
      Both(Both(was, h, l, k, m), h, l', k, m') == lists && h in lists && k in lists && lists[h] == l' && lists[k] == m'
  {
  }

  lemma AllMoved(x: seq<nat>, y: seq<nat>)
    ensures x[..|x|] + y[0..|y|] + x[|x|..] == x + y && y[..0] + y[|y|..] == []
  {
  }
}
