/** The list sort: lists of 1, 2, 4, ... cells are merged the way a binary counter carries. */
module ListSort {
  import opened Order
  import opened Stable
  import opened ListLinks
  import opened ListMerge
  import opened Powers

  // ---------- what the bins hold ----------

  /** The number of cells in the bins from i up to f. */
  ghost function Above(bins: seq<seq<nat>>, i: nat, f: nat): nat
    requires f <= |bins|
    decreases f - i
  {
    if i >= f then 0 else |bins[i]| + Above(bins, i + 1, f)
  }

  lemma {:induction false} AboveSame(bins: seq<seq<nat>>, bins': seq<seq<nat>>, i: nat, f: nat)
    requires f <= |bins| == |bins'| && forall j :: i <= j < f ==> bins[j] == bins'[j]
    ensures Above(bins, i, f) == Above(bins', i, f)
    decreases f - i
  {
    if i < f { AboveSame(bins, bins', i + 1, f); }
  }

  lemma {:induction false} AboveSkip(bins: seq<seq<nat>>, i: nat, j: nat, f: nat)
    requires i <= j <= f <= |bins| && forall k :: i <= k < j ==> bins[k] == []
    ensures Above(bins, i, f) == Above(bins, j, f)
    decreases j - i
  {
    if i < j { AboveSkip(bins, i + 1, j, f); }
  }

  lemma {:induction false} AboveMonotone(bins: seq<seq<nat>>, i: nat, j: nat, f: nat)
    requires i <= j && f <= |bins|
    ensures Above(bins, j, f) <= Above(bins, i, f)
    decreases j - i
  {
    if i < j { AboveMonotone(bins, i + 1, j, f); }
  }

  /** b is s[from..to] stably sorted. */
  ghost predicate Part(less: (nat, nat) -> bool, s: seq<nat>, from: nat, to: nat, b: seq<nat>) {
    from <= to <= |s| && |b| == to - from && StablySorted(less, s[from..to], b)
  }

  /** Bin i is empty or holds 2^i cells: those of the input that come next after the cells of the higher bins. */
  ghost predicate Bin(less: (nat, nat) -> bool, s: seq<nat>, bins: seq<seq<nat>>, f: nat, i: nat)
    requires i < f <= |bins|
  {
    && (bins[i] == [] || |bins[i]| == Pow2(i))
    && Part(less, s, Above(bins, i + 1, f), Above(bins, i, f), bins[i])
  }

  ghost predicate Bins(less: (nat, nat) -> bool, s: seq<nat>, bins: seq<seq<nat>>, f: nat, i: nat) {
    && i <= f <= |bins|
    && (forall j {:trigger Bin(less, s, bins, f, j)} :: i <= j < f ==> Bin(less, s, bins, f, j))
    && (forall j {:trigger bins[j]} :: 0 <= j < |bins| && (j < i || j >= f) ==> bins[j] == [])
  }

  lemma PartJoin(less: (nat, nat) -> bool, s: seq<nat>, from: nat, mid: nat, to: nat, b: seq<nat>, c: seq<nat>, d: seq<nat>)
    requires StrictWeakOrder(less) && Part(less, s, from, mid, b) && Part(less, s, mid, to, c) && StablySorted(less, b + c, d)
    ensures Part(less, s, from, to, d)
  {
    SameConcat(less, s[from..mid], b, s[mid..to], c);
    assert s[from..to] == s[from..mid] + s[mid..to];
    SameTrans(less, s[from..to], b + c, d);
    SamePermutes(less, b + c, d);
  }

  lemma PartEmpty(less: (nat, nat) -> bool, s: seq<nat>, i: nat)
    requires i <= |s|
    ensures Part(less, s, i, i, [])
  {
    assert s[i..i] == [];
    SameRefl<nat>(less, []);
  }

  lemma PartOne(less: (nat, nat) -> bool, s: seq<nat>, i: nat)
    requires i < |s| && StrictWeakOrder(less)
    ensures Part(less, s, i, i + 1, [s[i]])
  {
    assert s[i..i + 1] == [s[i]];
    SameRefl(less, [s[i]]);
  }

  /** Taking bin i out. */
  lemma BinOut(less: (nat, nat) -> bool, s: seq<nat>, bins: seq<seq<nat>>, f: nat, i: nat)
    requires Bins(less, s, bins, f, i) && i < f
    ensures Bins(less, s, bins[i := []], f, i + 1)
    ensures Above(bins[i := []], i + 1, f) == Above(bins, i + 1, f)
  {
    var bins' := bins[i := []];
    forall j | i + 1 <= j < f ensures Bin(less, s, bins', f, j) {
      assert Bin(less, s, bins, f, j);
      AboveSame(bins, bins', j, f);
      AboveSame(bins, bins', j + 1, f);
    }
    AboveSame(bins, bins', i + 1, f);
  }

  /** Putting the carry into the empty bin i, perhaps a new one at the top. */
  lemma BinIn(less: (nat, nat) -> bool, s: seq<nat>, bins: seq<seq<nat>>, f: nat, i: nat, c: seq<nat>)
    requires Bins(less, s, bins, f, i) && i < |bins| && bins[i] == [] && |c| == Pow2(i)
    requires Part(less, s, Above(bins, i, f), Above(bins, i, f) + |c|, c)
    ensures var bins', f' := bins[i := c], if i == f then f + 1 else f;
      Bins(less, s, bins', f', 0) && Above(bins', 0, f') == Above(bins, i, f) + |c|
  {
    var bins', f' := bins[i := c], if i == f then f + 1 else f;
    if i < f { AboveSame(bins, bins', i + 1, f); }
    assert Above(bins', i + 1, f') == Above(bins, i, f);
    assert Above(bins', i, f') == Above(bins, i, f) + |c|;
    forall j | 0 <= j < f' ensures Bin(less, s, bins', f', j) {
      if j < i {
        AboveSkip(bins', j, i, f');
        AboveSkip(bins', j + 1, i, f');
        PartEmpty(less, s, Above(bins', i, f'));
      } else if j > i {
        assert Bin(less, s, bins, f, j);
        AboveSame(bins, bins', j, f);
        AboveSame(bins, bins', j + 1, f);
      }
    }
    AboveSkip(bins', 0, i, f');
  }

  // ---------- the sort ----------

  /** What the lists with these headers hold. */
  ghost function Held(lists: map<nat, seq<nat>>, counter: seq<nat>): (r: seq<seq<nat>>)
    requires forall i :: 0 <= i < |counter| ==> counter[i] in lists
    ensures |r| == |counter| && forall i {:trigger r[i]} :: 0 <= i < |r| ==> r[i] == lists[counter[i]]
  {
    seq(|counter|, i requires 0 <= i < |counter| => lists[counter[i]])
  }

  /** The headers that the sort works with: its own, which are all different. */
  ghost predicate Headers(lists: map<nat, seq<nat>>, was: map<nat, seq<nat>>, carry: nat, counter: seq<nat>) {
    && carry in lists && carry !in was
    && (forall i {:trigger counter[i]} :: 0 <= i < |counter| ==> counter[i] in lists && counter[i] !in was && counter[i] != carry)
    && (forall i, j :: 0 <= i < j < |counter| ==> counter[i] != counter[j])
  }

  /** Lists other than h that were there before are as they were. */
  ghost predicate Others(lists: map<nat, seq<nat>>, was: map<nat, seq<nat>>, h: nat) {
    h in lists && h in was && forall o {:trigger o in was} :: o in was && o != h ==> o in lists && lists[o] == was[o]
  }

  /** k cells have been counted in, none is on the way. */
  ghost predicate Counted(less: (nat, nat) -> bool, s: seq<nat>, lists: map<nat, seq<nat>>, counter: seq<nat>, fill: nat, k: nat)
    requires forall i :: 0 <= i < |counter| ==> counter[i] in lists
  {
    && |counter| == 64 && fill <= 64 && Bins(less, s, Held(lists, counter), fill, 0) && Above(Held(lists, counter), 0, fill) == k
    && (fill > 0 ==> Pow2(fill - 1) <= k)
  }

  /** The carry holds the last 2^i of k cells, and the bins below i are empty. */
  ghost predicate Carrying(less: (nat, nat) -> bool, s: seq<nat>, bins: seq<seq<nat>>, c: seq<nat>, fill: nat, i: nat, k: nat) {
    && Bins(less, s, bins, fill, i) && |c| == Pow2(i) && Part(less, s, Above(bins, i, fill), k, c)
  }

  lemma CarrySorted(less: (nat, nat) -> bool, s: seq<nat>, bins: seq<seq<nat>>, c: seq<nat>, fill: nat, i: nat, k: nat)
    requires Carrying(less, s, bins, c, fill, i, k) && i < fill
    ensures i < |bins| && Sorted(less, bins[i]) && Sorted(less, c)
  {
    assert Bin(less, s, bins, fill, i);
  }

  lemma CarryOn(less: (nat, nat) -> bool, s: seq<nat>, bins: seq<seq<nat>>, c: seq<nat>, fill: nat, i: nat, k: nat, d: seq<nat>)
    requires StrictWeakOrder(less) && Carrying(less, s, bins, c, fill, i, k) && i < fill && bins[i] != []
    requires StablySorted(less, bins[i] + c, d)
    ensures Carrying(less, s, bins[i := []], d, fill, i + 1, k)
  {
    BinOut(less, s, bins, fill, i);
    assert Bin(less, s, bins, fill, i);
    PartJoin(less, s, Above(bins, i + 1, fill), Above(bins, i, fill), k, bins[i], c, d);
  }

  lemma CarryStart(less: (nat, nat) -> bool, s: seq<nat>, bins: seq<seq<nat>>, fill: nat, k: nat)
    requires StrictWeakOrder(less) && Bins(less, s, bins, fill, 0) && Above(bins, 0, fill) == k < |s|
    ensures Carrying(less, s, bins, [s[k]], fill, 0, k + 1)
  {
    PartOne(less, s, k);
  }

  lemma CarryDone(less: (nat, nat) -> bool, s: seq<nat>, bins: seq<seq<nat>>, c: seq<nat>, fill: nat, i: nat, k: nat)
    requires Carrying(less, s, bins, c, fill, i, k) && |s| < Pow2(|bins|) && (i < fill ==> bins[i] == [])
    ensures i < |bins| && Pow2(i) <= k && i <= fill && bins[i] == []
    ensures var bins', f' := bins[i := c], if i == fill then fill + 1 else fill;
      Bins(less, s, bins', f', 0) && Above(bins', 0, f') == k
  {
    Pow2Below(i, |bins|);
    BinIn(less, s, bins, fill, i, c);
  }

  /** Merging and exchanging headers moves the contents of bin i into the carry. */
  lemma HeldAfterCarry(lists: map<nat, seq<nat>>, lists': map<nat, seq<nat>>, was: map<nat, seq<nat>>, carry: nat, counter: seq<nat>, i: nat, d: seq<nat>)
    requires Headers(lists, was, carry, counter) && i < |counter|
    requires lists' == Both(lists, counter[i], d, carry, [])
    ensures Headers(lists', was, counter[i], counter[i := carry])
    ensures Held(lists', counter[i := carry]) == Held(lists, counter)[i := []]
  {
  }

  lemma HeldAfterSwap(lists: map<nat, seq<nat>>, was: map<nat, seq<nat>>, carry: nat, counter: seq<nat>, i: nat)
    requires Headers(lists, was, carry, counter) && i < |counter|
    ensures Headers(lists, was, counter[i], counter[i := carry])
    ensures Held(lists, counter[i := carry]) == Held(lists, counter)[i := lists[carry]]
  {
  }

  lemma OthersKept(lists: map<nat, seq<nat>>, lists': map<nat, seq<nat>>, was: map<nat, seq<nat>>, h: nat, x: nat, l: seq<nat>, y: nat, m: seq<nat>)
    requires Others(lists, was, h) && lists' == Both(lists, x, l, y, m) && x !in was && (y !in was || y == h)
    ensures Others(lists', was, h) && (y != h ==> lists'[h] == lists[h])
  {
  }

  /** k cells of the input s have been counted in; the rest is still in the list of h. */
  ghost predicate Ready(less: (nat, nat) -> bool, s: seq<nat>, lists: map<nat, seq<nat>>, was: map<nat, seq<nat>>, h: nat,
                        carry: nat, counter: seq<nat>, fill: nat, k: nat) {
    && Headers(lists, was, carry, counter) && Others(lists, was, h)
    && k <= |s| && lists[h] == s[k..] && lists[carry] == []
    && Counted(less, s, lists, counter, fill, k) && (k > 0 ==> fill > 0)
  }

  /** One more cell is being counted in, and the carry has come to bin i. */
  ghost predicate Busy(less: (nat, nat) -> bool, s: seq<nat>, lists: map<nat, seq<nat>>, was: map<nat, seq<nat>>, h: nat,
                       carry: nat, counter: seq<nat>, fill: nat, i: nat, k: nat) {
    && Headers(lists, was, carry, counter) && Others(lists, was, h)
    && k < |s| && lists[h] == s[k + 1..] && |counter| == 64 && fill <= 64 && (fill > 0 ==> Pow2(fill - 1) <= k)
    && Carrying(less, s, Held(lists, counter), lists[carry], fill, i, k + 1)
  }

  ghost predicate InUse(lists: map<nat, seq<nat>>, counter: seq<nat>, fill: nat, i: nat) {
    i < fill <= |counter| && counter[i] in lists && lists[counter[i]] != []
  }

  lemma ReadyHas(less: (nat, nat) -> bool, s: seq<nat>, lists: map<nat, seq<nat>>, was: map<nat, seq<nat>>, h: nat,
                 carry: nat, counter: seq<nat>, fill: nat, k: nat)
    requires Ready(less, s, lists, was, h, carry, counter, fill, k)
    ensures h in lists && carry in lists && h != carry && k <= |s| && lists[h] == s[k..] && lists[carry] == []
  {
  }

  lemma ReadyStart(less: (nat, nat) -> bool, s: seq<nat>, lists: map<nat, seq<nat>>, was: map<nat, seq<nat>>, h: nat,
                   carry: nat, counter: seq<nat>)
    requires Headers(lists, was, carry, counter) && Others(lists, was, h) && lists[h] == s && lists[carry] == []
    requires |counter| == 64 && forall i :: 0 <= i < 64 ==> lists[counter[i]] == []
    ensures Ready(less, s, lists, was, h, carry, counter, 0, 0)
  {
    assert s[0..] == s;
  }

  /** The next cell has been moved into the carry. */
  lemma ReadyNext(less: (nat, nat) -> bool, s: seq<nat>, lists: map<nat, seq<nat>>, lists': map<nat, seq<nat>>, was: map<nat, seq<nat>>,
                  h: nat, carry: nat, counter: seq<nat>, fill: nat, k: nat)
    requires StrictWeakOrder(less) && Ready(less, s, lists, was, h, carry, counter, fill, k) && k < |s|
    requires lists' == Both(lists, carry, [lists[h][0]] + lists[carry], h, lists[h][1..])
    ensures Busy(less, s, lists', was, h, carry, counter, fill, 0, k)
  {
    hide StrictWeakOrder;
    assert [s[k]] + [] == [s[k]] && s[k..][1..] == s[k + 1..];
    assert Held(lists', counter) == Held(lists, counter);
    CarryStart(less, s, Held(lists, counter), fill, k);
  }

  lemma BusyHas(less: (nat, nat) -> bool, s: seq<nat>, lists: map<nat, seq<nat>>, was: map<nat, seq<nat>>, h: nat,
                carry: nat, counter: seq<nat>, fill: nat, i: nat, k: nat)
    requires Busy(less, s, lists, was, h, carry, counter, fill, i, k)
    ensures fill <= |counter| && carry in lists && forall j :: 0 <= j < |counter| ==> counter[j] in lists && counter[j] != carry
    ensures InUse(lists, counter, fill, i) ==> Sorted(less, lists[counter[i]]) && Sorted(less, lists[carry])
  {
    if InUse(lists, counter, fill, i) { CarrySorted(less, s, Held(lists, counter), lists[carry], fill, i, k + 1); }
  }

  lemma BusyNext(less: (nat, nat) -> bool, s: seq<nat>, lists: map<nat, seq<nat>>, lists': map<nat, seq<nat>>, was: map<nat, seq<nat>>, h: nat,
                 carry: nat, counter: seq<nat>, fill: nat, i: nat, k: nat, d: seq<nat>)
    requires StrictWeakOrder(less) && Busy(less, s, lists, was, h, carry, counter, fill, i, k) && InUse(lists, counter, fill, i)
    requires carry in lists && StablySorted(less, lists[counter[i]] + lists[carry], d) && lists' == Both(lists, counter[i], d, carry, [])
    ensures Busy(less, s, lists', was, h, counter[i], counter[i := carry], fill, i + 1, k)
  {
    hide StrictWeakOrder, StablySorted, Carrying, Pow2;
    CarryOn(less, s, Held(lists, counter), lists[carry], fill, i, k + 1, d);
    HeldAfterCarry(lists, lists', was, carry, counter, i, d);
    OthersKept(lists, lists', was, h, counter[i], d, carry, []);
  }

  lemma BusyDone(less: (nat, nat) -> bool, s: seq<nat>, lists: map<nat, seq<nat>>, was: map<nat, seq<nat>>, h: nat,
                 carry: nat, counter: seq<nat>, fill: nat, i: nat, k: nat)
    requires Busy(less, s, lists, was, h, carry, counter, fill, i, k) && !InUse(lists, counter, fill, i) && |s| < Pow2(|counter|)
    ensures i < |counter| && Ready(less, s, lists, was, h, counter[i], counter[i := carry], if i == fill then fill + 1 else fill, k + 1)
  {
    hide Bins, Above, Carrying, Pow2;
    CarryDone(less, s, Held(lists, counter), lists[carry], fill, i, k + 1);
    HeldAfterSwap(lists, was, carry, counter, i);
  }

  /** Counts the carried cell in. */
  method CountIn(a: Lists, less: (nat, nat) -> bool, ghost s: seq<nat>, ghost was: map<nat, seq<nat>>, ghost h: nat,
                 carry0: nat, counter0: seq<nat>, fill0: nat, ghost k: nat)
    returns (carry: nat, counter: seq<nat>, fill: nat)
    requires StrictWeakOrder(less) && a.Valid() && |s| < Pow2(|counter0|)
    requires Busy(less, s, a.lists, was, h, carry0, counter0, fill0, 0, k)
    modifies a
    ensures a.Valid() && |counter| == |counter0| && Ready(less, s, a.lists, was, h, carry, counter, fill, k + 1)
  {
    hide Ring, StrictWeakOrder, StablySorted, Sorted, Busy, Ready, Pow2;
    carry, counter, fill := carry0, counter0, fill0;
    var i: nat := 0;
    BusyHas(less, s, a.lists, was, h, carry, counter, fill, i, k);
    var used := NotEmpty(a, counter, i, fill);
    while used
      invariant a.Valid() && Busy(less, s, a.lists, was, h, carry, counter, fill, i, k)
      invariant |counter| == |counter0| && used == InUse(a.lists, counter, fill, i)
      decreases fill - i
    {
      ghost var lists := a.lists;
      BusyHas(less, s, lists, was, h, carry, counter, fill, i, k);
      a.Merge(less, counter[i], carry);
      BusyNext(less, s, lists, a.lists, was, h, carry, counter, fill, i, k, a.lists[counter[i]]);
      carry, counter := counter[i], counter[i := carry];
      i := i + 1;
      BusyHas(less, s, a.lists, was, h, carry, counter, fill, i, k);
      used := NotEmpty(a, counter, i, fill);
    }
    BusyDone(less, s, a.lists, was, h, carry, counter, fill, i, k);
    carry, counter := counter[i], counter[i := carry];
    if i == fill {
      fill := fill + 1;
    }
  }

  method NotEmpty(a: Lists, counter: seq<nat>, i: nat, fill: nat) returns (r: bool)
    requires a.Valid() && fill <= |counter| && forall j :: 0 <= j < |counter| ==> counter[j] in a.lists
    ensures r == InUse(a.lists, counter, fill, i)
  {
    r := false;
    if i < fill {
      var e := a.Empty(counter[i]);
      r := !e;
    }
  }

  /** A list that holds the rest of the input, in bin i - 1, and the bins from i on. */
  ghost predicate Collapsing(less: (nat, nat) -> bool, s: seq<nat>, bins: seq<seq<nat>>, c: seq<nat>, fill: nat, i: nat) {
    i <= fill <= |bins| && Part(less, s, Above(bins, i, fill), |s|, c) && forall j {:trigger Bin(less, s, bins, fill, j)} :: i <= j < fill ==> Bin(less, s, bins, fill, j)
  }

  lemma CollapseOn(less: (nat, nat) -> bool, s: seq<nat>, bins: seq<seq<nat>>, bins': seq<seq<nat>>, c: seq<nat>, fill: nat, i: nat, d: seq<nat>)
    requires StrictWeakOrder(less) && Collapsing(less, s, bins, c, fill, i) && i < fill && StablySorted(less, bins[i] + c, d)
    requires |bins'| == |bins| && forall j :: i < j < fill ==> bins'[j] == bins[j]
    ensures Collapsing(less, s, bins', d, fill, i + 1)
  {
    assert Bin(less, s, bins, fill, i);
    PartJoin(less, s, Above(bins, i + 1, fill), Above(bins, i, fill), |s|, bins[i], c, d);
    AboveSame(bins, bins', i + 1, fill);
    forall j | i + 1 <= j < fill ensures Bin(less, s, bins', fill, j) {
      assert Bin(less, s, bins, fill, j);
      AboveSame(bins, bins', j, fill);
      AboveSame(bins, bins', j + 1, fill);
    }
  }

  lemma CollapseSorted(less: (nat, nat) -> bool, s: seq<nat>, bins: seq<seq<nat>>, c: seq<nat>, fill: nat, i: nat)
    requires Collapsing(less, s, bins, c, fill, i) && i < fill
    ensures Sorted(less, bins[i]) && Sorted(less, c)
  {
    assert Bin(less, s, bins, fill, i);
  }

  lemma CollapseStart(less: (nat, nat) -> bool, s: seq<nat>, bins: seq<seq<nat>>, fill: nat)
    requires Bins(less, s, bins, fill, 0) && Above(bins, 0, fill) == |s| && fill > 0
    ensures Collapsing(less, s, bins, bins[0], fill, 1)
  {
    assert Bin(less, s, bins, fill, 0);
  }

  lemma CollapseEnd(less: (nat, nat) -> bool, s: seq<nat>, bins: seq<seq<nat>>, c: seq<nat>, fill: nat)
    requires Collapsing(less, s, bins, c, fill, fill)
    ensures StablySorted(less, s, c)
  {
    assert s[0..|s|] == s;
  }

  /** Merges the bins, each with what has been merged from those below it. */
  method Collapse(a: Lists, less: (nat, nat) -> bool, ghost s: seq<nat>, ghost was: map<nat, seq<nat>>, h: nat,
                  ghost carry: nat, counter: seq<nat>, fill: nat)
    requires StrictWeakOrder(less) && a.Valid() && Headers(a.lists, was, carry, counter) && Others(a.lists, was, h)
    requires Counted(less, s, a.lists, counter, fill, |s|) && fill > 0
    modifies a
    ensures a.Valid() && Headers(a.lists, was, carry, counter) && Others(a.lists, was, h) && a.lists[h] == old(a.lists[h])
    ensures StablySorted(less, s, a.lists[counter[fill - 1]])
  {
    hide Ring, Lists.Valid, SameClasses, Part, Bin, StrictWeakOrder, StablySorted, Sorted;
    CollapseStart(less, s, Held(a.lists, counter), fill);
    for i := 1 to fill
      invariant |counter| == 64 && fill <= 64
      invariant a.Valid() && Headers(a.lists, was, carry, counter) && Others(a.lists, was, h) && a.lists[h] == old(a.lists[h])
      invariant Collapsing(less, s, Held(a.lists, counter), a.lists[counter[i - 1]], fill, i)
    {
      ghost var lists, bins, c := a.lists, Held(a.lists, counter), a.lists[counter[i - 1]];
      CollapseSorted(less, s, bins, c, fill, i);
      a.Merge(less, counter[i], counter[i - 1]);
      CollapseOn(less, s, bins, Held(a.lists, counter), c, fill, i, a.lists[counter[i]]);
      OthersKept(lists, a.lists, was, h, counter[i], a.lists[counter[i]], counter[i - 1], []);
    }
    CollapseEnd(less, s, Held(a.lists, counter), a.lists[counter[fill - 1]], fill);
  }

  /** The headers of the carry and the 64 counters: empty lists. */
  method NewHeaders(a: Lists, ghost h: nat) returns (carry: nat, counter: seq<nat>)
    requires a.Valid() && h in a.lists
    modifies a
    ensures a.Valid() && Headers(a.lists, old(a.lists), carry, counter) && Others(a.lists, old(a.lists), h)
    ensures a.lists[h] == old(a.lists[h]) && a.lists[carry] == []
    ensures |counter| == 64 && forall i :: 0 <= i < 64 ==> a.lists[counter[i]] == []
  {
    ghost var was := a.lists;
    carry := a.NewList();
    counter := [];
    while |counter| < 64
      invariant |counter| <= 64 && a.Valid() && Headers(a.lists, was, carry, counter)
      invariant h in a.lists && h in was && forall o {:trigger o in was} :: o in was ==> o in a.lists && a.lists[o] == was[o]
      invariant a.lists[carry] == [] && forall i {:trigger counter[i]} :: 0 <= i < |counter| ==> a.lists[counter[i]] == []
    {
      var n := a.NewList();
      counter := counter + [n];
    }
  }

  /** Counts every cell in; by then the number of bins in use is at most the logarithm of the number of cells, plus one. */
  method CountAll(a: Lists, less: (nat, nat) -> bool, ghost was: map<nat, seq<nat>>, h: nat, carry0: nat, counter0: seq<nat>)
    returns (carry: nat, counter: seq<nat>, fill: nat)
    requires StrictWeakOrder(less) && a.Valid() && h in a.lists && |a.lists[h]| < Pow2(|counter0|)
    requires Ready(less, a.lists[h], a.lists, was, h, carry0, counter0, 0, 0)
    modifies a
    ensures a.Valid() && Ready(less, old(a.lists[h]), a.lists, was, h, carry, counter, fill, |old(a.lists[h])|)
  {
    ghost var s := a.lists[h];
    hide Ring, StrictWeakOrder, Busy, Ready, Pow2;
    carry, counter, fill := carry0, counter0, 0;
    ghost var k: nat := 0;
    ReadyHas(less, s, a.lists, was, h, carry, counter, fill, k);
    var done := a.Empty(h);
    while !done
      invariant a.Valid() && Ready(less, s, a.lists, was, h, carry, counter, fill, k)
      invariant |counter| == |counter0| && k <= |s| && done == (k == |s|)
      decreases |s| - k
    {
      ghost var lists := a.lists;
      ReadyHas(less, s, a.lists, was, h, carry, counter, fill, k);
      a.SpliceFirst(carry, h);
      ReadyNext(less, s, lists, a.lists, was, h, carry, counter, fill, k);
      carry, counter, fill := CountIn(a, less, s, was, h, carry, counter, fill, k);
      k := k + 1;
      ReadyHas(less, s, a.lists, was, h, carry, counter, fill, k);
      done := a.Empty(h);
    }
  }

  /** Sorts the list of h; r is the header it has afterwards. */
  method Sort(a: Lists, less: (nat, nat) -> bool, h: nat) returns (r: nat)
    requires StrictWeakOrder(less) && a.Valid() && h in a.lists && |a.lists[h]| < Pow2(64)
    modifies a
    ensures a.Valid() && r in a.lists && StablySorted(less, old(a.lists[h]), a.lists[r])
    ensures forall o :: o in old(a.lists) && o != h ==> o in a.lists && o != r && a.lists[o] == old(a.lists[o])
  {
    hide Ring, SameClasses, StrictWeakOrder, Sorted, Bins, Above, Pow2;
    ghost var s, was := a.lists[h], a.lists;
    var short := a.AtMostOne(h);
    if short {
      AlreadySorted(less, s);
      return h;
    }
    var carry, counter := NewHeaders(a, h);
    ReadyStart(less, s, a.lists, was, h, carry, counter);
    var fill;
    carry, counter, fill := CountAll(a, less, was, h, carry, counter);
    Collapse(a, less, s, was, h, carry, counter, fill);
    return counter[fill - 1];
  }

  lemma AlreadySorted(less: (nat, nat) -> bool, s: seq<nat>)
    requires |s| <= 1
    ensures StablySorted(less, s, s)
  {
    SameRefl(less, s);
  }
}
