/** The circular doubly linked lists.  Every list is a ring of cells through its header,
    and the cells of all lists live in one arena of next and prev links. */
module ListLinks {
  /** The cell at index i of a list, the header being the one past the end. */
  function CellAt(h: nat, l: seq<nat>, i: nat): nat
    requires i <= |l|
  {
    if i == |l| then h else l[i]
  }

  /** The cell before the one at index i. */
  function Before(h: nat, l: seq<nat>, i: nat): nat
    requires i <= |l|
  {
    if i == 0 then h else l[i - 1]
  }

  ghost predicate Linked(next: seq<nat>, prev: seq<nat>, h: nat, l: seq<nat>, i: nat)
    requires i <= |l|
  {
    var a, b := Before(h, l, i), CellAt(h, l, i);
    a < |next| && b < |prev| && next[a] == b && prev[b] == a
  }

  /** Where a cell is: the header of its list, and its index plus one there, 0 being the header's. */
  datatype Spot = Spot(list: nat, at: nat)

  /** The cells of l, in this order, form the ring of the list with header h. */
  ghost predicate Ring(next: seq<nat>, prev: seq<nat>, spots: seq<Spot>, h: nat, l: seq<nat>) {
    && |next| == |prev| == |spots|
    && h < |next| && spots[h] == Spot(h, 0)
    && (forall i {:trigger l[i]} :: 0 <= i < |l| ==> l[i] < |next| && spots[l[i]] == Spot(h, i + 1))
    && (forall i {:trigger Linked(next, prev, h, l, i)} :: 0 <= i <= |l| ==> Linked(next, prev, h, l, i))
  }

  /** The links after a transfer of [first, last) in front of position: seven assignments. */
  function NextAfter(next: seq<nat>, prev: seq<nat>, position: nat, first: nat, last: nat): (r: seq<nat>)
    requires |next| == |prev| && position < |next| && first < |next| && last < |next|
    requires prev[position] < |next| && prev[first] < |next| && prev[last] < |next|
    ensures |r| == |next|
  {
    next[prev[last] := position][prev[first] := last][prev[position] := first]
  }

  function PrevAfter(prev: seq<nat>, position: nat, first: nat, last: nat): (r: seq<nat>)
    requires position < |prev| && first < |prev| && last < |prev|
    ensures |r| == |prev|
  {
    prev[position := prev[last]][last := prev[first]][first := prev[position]]
  }

  // ---------- from one list to another ----------

  /** A place i in the list of h, and a stretch [p, q) of another list, that of k. */
  ghost predicate Apart(next: seq<nat>, prev: seq<nat>, spots: seq<Spot>, h: nat, l: seq<nat>, i: nat, k: nat, m: seq<nat>, p: nat, q: nat) {
    && h != k && Ring(next, prev, spots, h, l) && Ring(next, prev, spots, k, m)
    && i <= |l| && p < q <= |m|
  }

  /** What the transfer does to the links, in terms of the two lists. */
  ghost predicate Rewired(next: seq<nat>, prev: seq<nat>, next': seq<nat>, prev': seq<nat>, h: nat, l: seq<nat>, i: nat, k: nat, m: seq<nat>, p: nat, q: nat)
    requires i <= |l| && p < q <= |m|
  {
    var a, b, c := m[q - 1], Before(k, m, p), Before(h, l, i);
    var position, first, last := CellAt(h, l, i), m[p], CellAt(k, m, q);
    && |next| == |prev| == |next'| == |prev'|
    && (forall j {:trigger next'[j]} :: 0 <= j < |next| ==>
          next'[j] == if j == c then first else if j == b then last else if j == a then position else next[j])
    && (forall j {:trigger prev'[j]} :: 0 <= j < |prev| ==>
          prev'[j] == if j == first then c else if j == last then b else if j == position then a else prev[j])
  }

  lemma RewiredApart(next: seq<nat>, prev: seq<nat>, spots: seq<Spot>, h: nat, l: seq<nat>, i: nat, k: nat, m: seq<nat>, p: nat, q: nat)
    requires Apart(next, prev, spots, h, l, i, k, m, p, q)
    ensures var position, first, last := CellAt(h, l, i), m[p], CellAt(k, m, q);
      && position < |next| && first < |next| && last < |next|
      && prev[position] < |next| && prev[first] < |next| && prev[last] < |next|
      && Rewired(next, prev, NextAfter(next, prev, position, first, last), PrevAfter(prev, position, first, last), h, l, i, k, m, p, q)
  {
    assert Linked(next, prev, h, l, i) && Linked(next, prev, k, m, p) && Linked(next, prev, k, m, q);
  }

  /** The spots after the transfer. */
  ghost function SpotAfter(s: Spot, h: nat, i: nat, k: nat, p: nat, q: nat): Spot
    requires p <= q
  {
    if s.list == h then if s.at > i then Spot(h, s.at + (q - p)) else s
    else if s.list != k || s.at <= p then s
    else if s.at <= q then Spot(h, s.at - p + i)
    else Spot(k, s.at - (q - p))
  }

  ghost function SpotsAfter(spots: seq<Spot>, h: nat, i: nat, k: nat, p: nat, q: nat): (r: seq<Spot>)
    requires p <= q
    ensures |r| == |spots| && forall c {:trigger r[c]} :: 0 <= c < |r| ==> r[c] == SpotAfter(spots[c], h, i, k, p, q)
  {
    seq(|spots|, c requires 0 <= c < |spots| => SpotAfter(spots[c], h, i, k, p, q))
  }

  lemma GainedLink(next: seq<nat>, prev: seq<nat>, spots: seq<Spot>, next': seq<nat>, prev': seq<nat>,
                   h: nat, l: seq<nat>, i: nat, k: nat, m: seq<nat>, p: nat, q: nat, l': seq<nat>, j: nat)
    requires Apart(next, prev, spots, h, l, i, k, m, p, q) && Rewired(next, prev, next', prev', h, l, i, k, m, p, q)
    requires l' == l[..i] + m[p..q] + l[i..] && j <= |l'|
    ensures Linked(next', prev', h, l', j)
  {
    var n := q - p;
    if j <= i {
      assert Linked(next, prev, h, l, j);
    } else if j < i + n {
      assert Linked(next, prev, k, m, p + (j - i));
    } else {
      assert Linked(next, prev, h, l, j - n);
    }
    assert Linked(next, prev, k, m, p) && Linked(next, prev, k, m, q) && Linked(next, prev, h, l, i);
  }

  lemma LostLink(next: seq<nat>, prev: seq<nat>, spots: seq<Spot>, next': seq<nat>, prev': seq<nat>,
                 h: nat, l: seq<nat>, i: nat, k: nat, m: seq<nat>, p: nat, q: nat, m': seq<nat>, j: nat)
    requires Apart(next, prev, spots, h, l, i, k, m, p, q) && Rewired(next, prev, next', prev', h, l, i, k, m, p, q)
    requires m' == m[..p] + m[q..] && j <= |m'|
    ensures Linked(next', prev', k, m', j)
  {
    assert Linked(next, prev, k, m, if j <= p then j else j + (q - p));
    assert Linked(next, prev, k, m, p) && Linked(next, prev, k, m, q) && Linked(next, prev, h, l, i);
  }

  /** One list gains the stretch, the other loses it. */
  lemma TransferApart(next: seq<nat>, prev: seq<nat>, spots: seq<Spot>, next': seq<nat>, prev': seq<nat>,
                      h: nat, l: seq<nat>, i: nat, k: nat, m: seq<nat>, p: nat, q: nat)
    requires Apart(next, prev, spots, h, l, i, k, m, p, q) && Rewired(next, prev, next', prev', h, l, i, k, m, p, q)
    ensures var spots' := SpotsAfter(spots, h, i, k, p, q);
      && Ring(next', prev', spots', h, l[..i] + m[p..q] + l[i..])
      && Ring(next', prev', spots', k, m[..p] + m[q..])
  {
    var l', m' := l[..i] + m[p..q] + l[i..], m[..p] + m[q..];
    var spots' := SpotsAfter(spots, h, i, k, p, q);
    forall j | 0 <= j <= |l'| ensures Linked(next', prev', h, l', j) {
      GainedLink(next, prev, spots, next', prev', h, l, i, k, m, p, q, l', j);
    }
    forall j | 0 <= j <= |m'| ensures Linked(next', prev', k, m', j) {
      LostLink(next, prev, spots, next', prev', h, l, i, k, m, p, q, m', j);
    }
    forall j | 0 <= j < |l'| ensures l'[j] < |next'| && spots'[l'[j]] == Spot(h, j + 1) {
      assert l'[j] == if j < i then l[j] else if j < i + (q - p) then m[p + (j - i)] else l[j - (q - p)];
    }
    forall j | 0 <= j < |m'| ensures m'[j] < |next'| && spots'[m'[j]] == Spot(k, j + 1) {
      assert m'[j] == m[if j < p then j else j + (q - p)];
    }
  }

  /** Any other list is not touched. */
  lemma TransferOther(next: seq<nat>, prev: seq<nat>, spots: seq<Spot>, next': seq<nat>, prev': seq<nat>,
                      h: nat, l: seq<nat>, i: nat, k: nat, m: seq<nat>, p: nat, q: nat, o: nat, x: seq<nat>)
    requires Apart(next, prev, spots, h, l, i, k, m, p, q) && Rewired(next, prev, next', prev', h, l, i, k, m, p, q)
    requires o != h && o != k && Ring(next, prev, spots, o, x)
    ensures Ring(next', prev', SpotsAfter(spots, h, i, k, p, q), o, x)
  {
    forall j | 0 <= j <= |x| ensures Linked(next', prev', o, x, j) {
      assert Linked(next, prev, o, x, j);
    }
  }

  // ---------- within one list ----------

  /** Two neighbouring stretches [a, b) and [b, c) of a list. */
  ghost predicate Neighbours(next: seq<nat>, prev: seq<nat>, spots: seq<Spot>, h: nat, l: seq<nat>, a: nat, b: nat, c: nat) {
    Ring(next, prev, spots, h, l) && a < b < c <= |l|
  }

  /** The list with the two stretches exchanged. */
  function Exchanged(l: seq<nat>, a: nat, b: nat, c: nat): seq<nat>
    requires a <= b <= c <= |l|
  {
    l[..a] + l[b..c] + l[a..b] + l[c..]
  }

  ghost predicate Crossed(next: seq<nat>, prev: seq<nat>, next': seq<nat>, prev': seq<nat>, h: nat, l: seq<nat>, a: nat, b: nat, c: nat)
    requires a < b < c <= |l|
  {
    var u, v, w := Before(h, l, a), l[b - 1], l[c - 1];
    var x, y, z := l[a], l[b], CellAt(h, l, c);
    && |next| == |prev| == |next'| == |prev'|
    && (forall j {:trigger next'[j]} :: 0 <= j < |next| ==>
          next'[j] == if j == u then y else if j == v then z else if j == w then x else next[j])
    && (forall j {:trigger prev'[j]} :: 0 <= j < |prev| ==>
          prev'[j] == if j == y then u else if j == z then v else if j == x then w else prev[j])
  }

  /** The second stretch goes in front of the first, or the first behind the second: the links are the same. */
  lemma CrossedBothWays(next: seq<nat>, prev: seq<nat>, spots: seq<Spot>, h: nat, l: seq<nat>, a: nat, b: nat, c: nat)
    requires Neighbours(next, prev, spots, h, l, a, b, c)
    ensures var x, y, z := l[a], l[b], CellAt(h, l, c);
      && x < |next| && y < |next| && z < |next| && prev[x] < |next| && prev[y] < |next| && prev[z] < |next|
      && Crossed(next, prev, NextAfter(next, prev, x, y, z), PrevAfter(prev, x, y, z), h, l, a, b, c)
      && Crossed(next, prev, NextAfter(next, prev, z, x, y), PrevAfter(prev, z, x, y), h, l, a, b, c)
  {
    assert Linked(next, prev, h, l, a) && Linked(next, prev, h, l, b) && Linked(next, prev, h, l, c);
  }

  ghost function SpotExchanged(s: Spot, h: nat, a: nat, b: nat, c: nat): Spot
    requires a <= b <= c
  {
    if s.list != h || s.at <= a || s.at > c then s
    else if s.at <= b then Spot(h, s.at + (c - b))
    else Spot(h, s.at - (b - a))
  }

  ghost function SpotsExchanged(spots: seq<Spot>, h: nat, a: nat, b: nat, c: nat): (r: seq<Spot>)
    requires a <= b <= c
    ensures |r| == |spots| && forall d {:trigger r[d]} :: 0 <= d < |r| ==> r[d] == SpotExchanged(spots[d], h, a, b, c)
  {
    seq(|spots|, d requires 0 <= d < |spots| => SpotExchanged(spots[d], h, a, b, c))
  }

  lemma CrossedLink(next: seq<nat>, prev: seq<nat>, spots: seq<Spot>, next': seq<nat>, prev': seq<nat>,
                    h: nat, l: seq<nat>, a: nat, b: nat, c: nat, j: nat)
    requires Neighbours(next, prev, spots, h, l, a, b, c) && Crossed(next, prev, next', prev', h, l, a, b, c)
    requires j <= |l|
    ensures Linked(next', prev', h, Exchanged(l, a, b, c), j)
  {
    assert Linked(next, prev, h, l, a) && Linked(next, prev, h, l, b) && Linked(next, prev, h, l, c);
    var n := a + (c - b);
    assert Linked(next, prev, h, l, if j <= a || j >= c then j else if j < n then b + (j - a) else j - (c - b));
  }

  lemma ExchangedRing(next: seq<nat>, prev: seq<nat>, spots: seq<Spot>, next': seq<nat>, prev': seq<nat>,
                      h: nat, l: seq<nat>, a: nat, b: nat, c: nat)
    requires Neighbours(next, prev, spots, h, l, a, b, c) && Crossed(next, prev, next', prev', h, l, a, b, c)
    ensures Ring(next', prev', SpotsExchanged(spots, h, a, b, c), h, Exchanged(l, a, b, c))
  {
    var l', spots' := Exchanged(l, a, b, c), SpotsExchanged(spots, h, a, b, c);
    forall j | 0 <= j <= |l'| ensures Linked(next', prev', h, l', j) {
      CrossedLink(next, prev, spots, next', prev', h, l, a, b, c, j);
    }
    forall j | 0 <= j < |l'| ensures l'[j] < |next'| && spots'[l'[j]] == Spot(h, j + 1) {
      assert l'[j] == l[if j < a || j >= c then j else if j < a + (c - b) then b + (j - a) else j - (c - b)];
    }
  }

  lemma ExchangedOther(next: seq<nat>, prev: seq<nat>, spots: seq<Spot>, next': seq<nat>, prev': seq<nat>,
                       h: nat, l: seq<nat>, a: nat, b: nat, c: nat, o: nat, x: seq<nat>)
    requires Neighbours(next, prev, spots, h, l, a, b, c) && Crossed(next, prev, next', prev', h, l, a, b, c)
    requires o != h && Ring(next, prev, spots, o, x)
    ensures Ring(next', prev', SpotsExchanged(spots, h, a, b, c), o, x)
  {
    forall j | 0 <= j <= |x| ensures Linked(next', prev', o, x, j) {
      assert Linked(next, prev, o, x, j);
    }
  }
}
