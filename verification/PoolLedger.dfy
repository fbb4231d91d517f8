/** Who owns each byte of the memory that the pooled allocator has obtained: a block on a free list, a client, or the arena still to be carved.
    `owner` is a function of the byte, so nothing is owned twice; `Accounted`
    says that nothing is owned by a block or an arena that is no longer there. */
module PoolLedger {
  const ALIGN: nat := 8
  const MAX_BYTES: nat := 128
  const NFREELISTS: nat := 16

  function RoundUp(bytes: nat): (r: nat)
    ensures r % ALIGN == 0 && bytes <= r < bytes + ALIGN
  {
    (bytes + ALIGN - 1) / ALIGN * ALIGN
  }

  function FreeListIndex(bytes: nat): (i: nat)
    requires bytes > 0
    ensures BlockSize(i) == RoundUp(bytes)
  {
    (bytes + ALIGN - 1) / ALIGN - 1
  }

  /** The bytes in a block of list i. */
  function BlockSize(i: nat): nat { 8 * i + 8 }

  datatype Owner = Free(index: nat, block: nat) | Live(block: nat) | Arena | Loose

  /** `Loose` memory has been carved out of the arena and not been handed on yet. */
  datatype Ledger = Ledger(lists: seq<seq<nat>>, live: map<nat, nat>, owner: map<nat, Owner>,
                           start: nat, end: nat, loose: nat, looseEnd: nat)

  /** Block b of list i has BlockSize(i) bytes; g is one of them. */
  ghost predicate Covers(i: nat, b: nat, g: nat) { b <= g < b + BlockSize(i) }

  ghost predicate Owned(m: map<nat, Owner>, i: nat, b: nat, o: Owner) {
    b > 0 && forall g {:trigger m[g]} {:trigger g in m} :: Covers(i, b, g) ==> g in m && m[g] == o
  }

  ghost predicate Range(m: map<nat, Owner>, s: nat, e: nat, o: Owner) {
    && s <= e && (s < e ==> s > 0)
    && forall g {:trigger m[g]} {:trigger g in m} :: s <= g < e ==> g in m && m[g] == o
  }

  ghost predicate FreeOk(l: Ledger, i: nat, j: nat)
    requires |l.lists| == NFREELISTS
  {
    i < NFREELISTS && j < |l.lists[i]| ==> Owned(l.owner, i, l.lists[i][j], Free(i, l.lists[i][j]))
  }

  ghost predicate NoRepeat(s: seq<nat>) {
    forall j, k {:trigger s[j], s[k]} :: 0 <= j < k < |s| ==> s[j] != s[k]
  }

  ghost predicate LiveOk(l: Ledger, b: nat) {
    b in l.live ==> l.live[b] < NFREELISTS && Owned(l.owner, l.live[b], b, Live(b))
  }

  ghost predicate Accounted(l: Ledger, g: nat)
    requires |l.lists| == NFREELISTS
  {
    g in l.owner ==>
      match l.owner[g]
      case Free(i, b) => i < NFREELISTS && b in l.lists[i] && Covers(i, b, g)
      case Live(b) => b in l.live && Covers(l.live[b], b, g)
      case Arena => l.start <= g < l.end
      case Loose => l.loose <= g < l.looseEnd
  }

  ghost predicate Sound(l: Ledger) {
    && |l.lists| == NFREELISTS
    && (forall i, j {:trigger FreeOk(l, i, j)} :: FreeOk(l, i, j))
    && (forall i {:trigger NoRepeat(l.lists[i])} :: 0 <= i < NFREELISTS ==> NoRepeat(l.lists[i]))
    && (forall b {:trigger LiveOk(l, b)} :: LiveOk(l, b))
    && (forall g {:trigger Accounted(l, g)} :: Accounted(l, g))
    && Range(l.owner, l.start, l.end, Arena)
    && Range(l.owner, l.loose, l.looseEnd, Loose)
  }

  /** Every block and both ends of the arena are 8-aligned. */
  ghost predicate Aligned(l: Ledger) {
    && (forall i, j {:trigger l.lists[i][j]} :: 0 <= i < |l.lists| && 0 <= j < |l.lists[i]| ==> l.lists[i][j] % ALIGN == 0)
    && (forall b {:trigger b in l.live} :: b in l.live ==> b % ALIGN == 0)
    && l.start % ALIGN == 0 && l.end % ALIGN == 0 && l.loose % ALIGN == 0 && l.looseEnd % ALIGN == 0
  }

  // ---------- the moves ----------

  ghost function Relabel(m: map<nat, Owner>, from: Owner, to: Owner): (r: map<nat, Owner>)
    ensures r.Keys == m.Keys
    ensures forall g {:trigger g in r} {:trigger r[g]} :: g in r <==> g in m
    ensures forall g {:trigger r[g]} :: g in m ==> r[g] == if m[g] == from then to else m[g]
  {
    map g | g in m :: if m[g] == from then to else m[g]
  }

  ghost function Repaint(m: map<nat, Owner>, lo: nat, hi: nat, to: Owner): (r: map<nat, Owner>)
    ensures r.Keys == m.Keys
    ensures forall g {:trigger g in r} {:trigger r[g]} :: g in r <==> g in m
    ensures forall g {:trigger r[g]} :: g in m ==> r[g] == if lo <= g < hi then to else m[g]
  {
    map g | g in m :: if lo <= g < hi then to else m[g]
  }

  lemma NotListed(l: Ledger, i: nat, b: nat)
    requires Sound(l) && i < NFREELISTS && b in l.owner && l.owner[b] != Free(i, b)
    ensures b !in l.lists[i]
  {
    forall j: nat | j < |l.lists[i]| ensures l.lists[i][j] != b { assert FreeOk(l, i, j); }
  }

  ghost function Popped(l: Ledger, i: nat): Ledger
    requires i < |l.lists| && l.lists[i] != []
  {
    var b := l.lists[i][0];
    l.(lists := l.lists[i := l.lists[i][1..]], live := l.live[b := i], owner := Relabel(l.owner, Free(i, b), Live(b)))
  }

  /** The first block of list i goes to the client. */
  lemma PoppedSound(l: Ledger, i: nat)
    requires Sound(l) && i < NFREELISTS && l.lists[i] != []
    ensures Sound(Popped(l, i)) && l.lists[i][0] !in l.live && l.lists[i][0] > 0
  {
    var t := Popped(l, i);
    var b := l.lists[i][0];
    assert FreeOk(l, i, 0) && LiveOk(l, b) && b in l.owner;
    assert NoRepeat(l.lists[i]);
    forall i': nat, j: nat ensures FreeOk(t, i', j) {
      assert FreeOk(l, i', if i' == i then j + 1 else j);
    }
    forall c: nat ensures LiveOk(t, c) { assert LiveOk(l, c); }
    forall g: nat ensures Accounted(t, g) { assert Accounted(l, g); }
    forall i' | 0 <= i' < NFREELISTS ensures NoRepeat(t.lists[i']) { assert NoRepeat(l.lists[i']); }
  }

  ghost function Pushed(l: Ledger, i: nat, b: nat): Ledger
    requires i < |l.lists|
  {
    l.(lists := l.lists[i := [b] + l.lists[i]], live := l.live - {b}, owner := Relabel(l.owner, Live(b), Free(i, b)))
  }

  /** A client's block goes back to the front of its list. */
  lemma PushedSound(l: Ledger, i: nat, b: nat)
    requires Sound(l) && b in l.live && l.live[b] == i && i < NFREELISTS
    ensures Sound(Pushed(l, i, b))
  {
    var t := Pushed(l, i, b);
    assert LiveOk(l, b) && b in l.owner;
    assert NoRepeat(l.lists[i]);
    NotListed(l, i, b);
    forall i': nat, j: nat ensures FreeOk(t, i', j) {
      if i' == i && j > 0 { assert FreeOk(l, i', j - 1); }
      assert FreeOk(l, i', j);
    }
    forall c: nat ensures LiveOk(t, c) { assert LiveOk(l, c); }
    forall g: nat ensures Accounted(t, g) {
      assert Accounted(l, g);
      assert b in t.lists[i] && forall c :: c in l.lists[i] ==> c in t.lists[i];
    }
    forall i' | 0 <= i' < NFREELISTS ensures NoRepeat(t.lists[i']) { assert NoRepeat(l.lists[i']); }
  }

  ghost function Stashed(l: Ledger, i: nat): Ledger
    requires i < |l.lists|
  {
    l.(lists := l.lists[i := [l.start] + l.lists[i]], owner := Relabel(l.owner, Arena, Free(i, l.start)), start := 0, end := 0)
  }

  /** What is left of the arena becomes a block of the list of its size. */
  lemma StashedSound(l: Ledger, i: nat)
    requires Sound(l) && i < NFREELISTS && l.end == l.start + BlockSize(i)
    ensures Sound(Stashed(l, i))
  {
    var t := Stashed(l, i);
    var b := l.start;
    assert b in l.owner;
    assert NoRepeat(l.lists[i]);
    NotListed(l, i, b);
    forall i': nat, j: nat ensures FreeOk(t, i', j) {
      if i' == i && j > 0 { assert FreeOk(l, i', j - 1); }
      assert FreeOk(l, i', j);
    }
    forall c: nat ensures LiveOk(t, c) { assert LiveOk(l, c); }
    forall g: nat ensures Accounted(t, g) {
      assert Accounted(l, g);
      assert b in t.lists[i] && forall c :: c in l.lists[i] ==> c in t.lists[i];
    }
    forall i' | 0 <= i' < NFREELISTS ensures NoRepeat(t.lists[i']) { assert NoRepeat(l.lists[i']); }
  }

  ghost function Taken(l: Ledger, i: nat): Ledger
    requires i < |l.lists| && l.lists[i] != []
  {
    var b := l.lists[i][0];
    l.(lists := l.lists[i := l.lists[i][1..]], owner := Relabel(l.owner, Free(i, b), Arena),
       start := b, end := b + BlockSize(i))
  }

  /** The first block of list i becomes the arena. */
  lemma TakenSound(l: Ledger, i: nat)
    requires Sound(l) && i < NFREELISTS && l.lists[i] != [] && l.start == l.end
    ensures Sound(Taken(l, i))
  {
    var t := Taken(l, i);
    var b := l.lists[i][0];
    assert FreeOk(l, i, 0) && b in l.owner;
    assert NoRepeat(l.lists[i]);
    forall i': nat, j: nat ensures FreeOk(t, i', j) {
      assert FreeOk(l, i', if i' == i then j + 1 else j);
    }
    forall c: nat ensures LiveOk(t, c) { assert LiveOk(l, c); }
    forall g: nat ensures Accounted(t, g) { assert Accounted(l, g); }
    forall i' | 0 <= i' < NFREELISTS ensures NoRepeat(t.lists[i']) { assert NoRepeat(l.lists[i']); }
  }

  predicate Within(p: nat, bytes: nat, g: nat) { p <= g < p + bytes }

  /** An empty arena may be moved to the null address. */
  lemma EmptiedSound(l: Ledger)
    requires Sound(l) && Aligned(l) && l.start == l.end
    ensures Sound(l.(start := 0, end := 0)) && Aligned(l.(start := 0, end := 0))
  {
    var t := l.(start := 0, end := 0);
    forall i: nat, j: nat ensures FreeOk(t, i, j) { assert FreeOk(l, i, j); }
    forall c: nat ensures LiveOk(t, c) { assert LiveOk(l, c); }
    forall g: nat ensures Accounted(t, g) { assert Accounted(l, g); }
    forall i | 0 <= i < NFREELISTS ensures NoRepeat(t.lists[i]) { assert NoRepeat(l.lists[i]); }
  }

  function Region(p: nat, bytes: nat): set<nat> {
    set g: nat | g < p + bytes && Within(p, bytes, g)
  }

  ghost function Grown(l: Ledger, p: nat, bytes: nat): Ledger {
    l.(owner := l.owner + map g | g in Region(p, bytes) :: Arena, start := p, end := p + bytes)
  }

  /** A new region becomes the arena. */
  lemma GrownSound(l: Ledger, p: nat, bytes: nat)
    requires Sound(l) && l.start == l.end && p > 0
    requires Region(p, bytes) !! l.owner.Keys
    ensures Sound(Grown(l, p, bytes))
  {
    var t := Grown(l, p, bytes);
    forall i: nat, j: nat ensures FreeOk(t, i, j) { assert FreeOk(l, i, j); }
    forall c: nat ensures LiveOk(t, c) { assert LiveOk(l, c); }
    forall g: nat ensures Accounted(t, g) { assert Accounted(l, g); }
    forall i' | 0 <= i' < NFREELISTS ensures NoRepeat(t.lists[i']) { assert NoRepeat(l.lists[i']); }
  }

  ghost function Carved(l: Ledger, bytes: nat): Ledger {
    l.(owner := Repaint(l.owner, l.start, (l.start + bytes), Loose),
       loose := l.start, looseEnd := l.start + bytes, start := l.start + bytes)
  }

  /** The front of the arena is cut off. */
  lemma CarvedSound(l: Ledger, bytes: nat)
    requires Sound(l) && l.loose == l.looseEnd && l.start + bytes <= l.end
    ensures Sound(Carved(l, bytes))
  {
    var t := Carved(l, bytes);
    forall i: nat, j: nat ensures FreeOk(t, i, j) { assert FreeOk(l, i, j); }
    forall c: nat ensures LiveOk(t, c) { assert LiveOk(l, c); }
    forall g: nat ensures Accounted(t, g) { assert Accounted(l, g); }
    forall i' | 0 <= i' < NFREELISTS ensures NoRepeat(t.lists[i']) { assert NoRepeat(l.lists[i']); }
  }

  ghost function HandedOut(l: Ledger, i: nat): Ledger {
    var next := l.loose + BlockSize(i);
    l.(live := l.live[l.loose := i], owner := Repaint(l.owner, l.loose, next, Live(l.loose)), loose := next)
  }

  /** The first block of the carved memory goes to the client. */
  lemma HandedOutSound(l: Ledger, i: nat)
    requires Sound(l) && i < NFREELISTS && l.loose + BlockSize(i) <= l.looseEnd
    ensures Sound(HandedOut(l, i)) && l.loose !in l.live && l.loose > 0
  {
    var t := HandedOut(l, i);
    assert LiveOk(l, l.loose) && l.loose in l.owner;
    forall i': nat, j: nat ensures FreeOk(t, i', j) { assert FreeOk(l, i', j); }
    forall c: nat ensures LiveOk(t, c) { assert LiveOk(l, c); }
    forall g: nat ensures Accounted(t, g) { assert Accounted(l, g); }
    forall i' | 0 <= i' < NFREELISTS ensures NoRepeat(t.lists[i']) { assert NoRepeat(l.lists[i']); }
  }

  ghost function Listed(l: Ledger, i: nat): Ledger
    requires i < |l.lists|
  {
    var next := l.loose + BlockSize(i);
    l.(lists := l.lists[i := l.lists[i] + [l.loose]],
       owner := Repaint(l.owner, l.loose, next, Free(i, l.loose)), loose := next)
  }

  /** The first block of the carved memory goes to the end of list i. */
  lemma ListedSound(l: Ledger, i: nat)
    requires Sound(l) && i < NFREELISTS && l.loose + BlockSize(i) <= l.looseEnd
    ensures Sound(Listed(l, i))
  {
    var t := Listed(l, i);
    var b := l.loose;
    assert b in l.owner;
    assert NoRepeat(l.lists[i]);
    NotListed(l, i, b);
    forall i': nat, j: nat ensures FreeOk(t, i', j) {
      assert FreeOk(l, i', j);
      if i' == i && j == |l.lists[i]| {
        forall g | Covers(i, b, g) ensures g in t.owner && t.owner[g] == Free(i, b) { assert g in l.owner; }
      }
    }
    forall c: nat ensures LiveOk(t, c) { assert LiveOk(l, c); }
    forall g: nat ensures Accounted(t, g) {
      assert Accounted(l, g);
      assert t.lists[i][|l.lists[i]|] == b && forall c :: c in l.lists[i] ==> c in t.lists[i];
    }
    forall i' | 0 <= i' < NFREELISTS ensures NoRepeat(t.lists[i']) { assert NoRepeat(l.lists[i']); }
  }

  lemma SumAligned(a: nat, b: nat)
    requires a % ALIGN == 0 && b % ALIGN == 0
    ensures (a + b) % ALIGN == 0
  {
  }

  lemma ArenaAligned(l: Ledger)
    requires Sound(l) && Aligned(l)
    ensures l.start <= l.end && (l.end - l.start) % ALIGN == 0
  {
  }

  lemma TakenAligned(l: Ledger, i: nat)
    requires Aligned(l) && i < |l.lists| && l.lists[i] != []
    ensures Aligned(Popped(l, i)) && Aligned(Taken(l, i))
  {
    SumAligned(l.lists[i][0], BlockSize(i));
  }

  lemma PushedAligned(l: Ledger, i: nat, b: nat)
    requires Aligned(l) && i < |l.lists|
    ensures b in l.live ==> Aligned(Pushed(l, i, b))
    ensures Aligned(Stashed(l, i))
  {
  }

  lemma GrownAligned(l: Ledger, p: nat, bytes: nat)
    requires Aligned(l) && p % ALIGN == 0 && bytes % ALIGN == 0
    ensures Aligned(Grown(l, p, bytes)) && Aligned(Carved(l, bytes))
  {
    SumAligned(p, bytes);
    SumAligned(l.start, bytes);
  }

  lemma ListedAligned(l: Ledger, i: nat)
    requires Aligned(l) && i < |l.lists|
    ensures Aligned(HandedOut(l, i)) && Aligned(Listed(l, i))
  {
    SumAligned(l.loose, BlockSize(i));
  }

  // ---------- what soundness says about bytes ----------

  /** A block of list index i at address b: on that free list, or held by a client. */
  ghost predicate IsBlock(l: Ledger, i: nat, b: nat)
    requires |l.lists| == NFREELISTS
  {
    i < NFREELISTS && (b in l.lists[i] || (b in l.live && l.live[b] == i))
  }

  lemma BlockOwned(l: Ledger, i: nat, b: nat)
    requires Sound(l) && IsBlock(l, i, b)
    ensures b > 0 && (Aligned(l) ==> b % ALIGN == 0)
    ensures b in l.live && l.live[b] == i ==> Owned(l.owner, i, b, Live(b))
    ensures b in l.lists[i] ==> Owned(l.owner, i, b, Free(i, b))
  {
    assert LiveOk(l, b);
    if b in l.lists[i] {
      var j: nat :| j < |l.lists[i]| && l.lists[i][j] == b;
      assert FreeOk(l, i, j);
    }
  }

  /** Two blocks share a byte only if they are the same block. */
  lemma BlocksDisjoint(l: Ledger, i: nat, b: nat, j: nat, c: nat, byte: nat)
    requires Sound(l) && IsBlock(l, i, b) && IsBlock(l, j, c)
    requires b <= byte < b + BlockSize(i) && c <= byte < c + BlockSize(j)
    ensures i == j && b == c
  {
    BlockOwned(l, i, b);
    BlockOwned(l, j, c);
    assert Covers(i, b, byte) && Covers(j, c, byte);
    assert byte in l.owner;
  }

  /** A block is never both free and in use, nor part of the arena. */
  lemma BlocksApart(l: Ledger, i: nat, b: nat, byte: nat)
    requires Sound(l) && IsBlock(l, i, b) && b <= byte < b + BlockSize(i)
    ensures !(b in l.lists[i] && b in l.live)
    ensures !(l.start <= byte < l.end) && byte in l.owner
  {
    BlockOwned(l, i, b);
    assert LiveOk(l, b);
    assert Covers(i, b, byte) && Covers(i, b, b);
    if b in l.live { assert Covers(l.live[b], b, b); }
    assert byte in l.owner && b in l.owner;
  }

  /** No byte is lost: what was obtained is in a block or in the arena. */
  lemma NoByteLost(l: Ledger, byte: nat)
    requires Sound(l) && l.loose == l.looseEnd && byte in l.owner
    ensures l.start <= byte < l.end || exists i: nat, b: nat :: IsBlock(l, i, b) && b <= byte < b + BlockSize(i)
  {
    assert Accounted(l, byte);
    match l.owner[byte]
    case Free(i, b) =>
      assert IsBlock(l, i, b);
      BlockOwned(l, i, b);
    case Live(b) =>
      assert LiveOk(l, b);
      assert IsBlock(l, l.live[b], b);
      BlockOwned(l, l.live[b], b);
    case _ =>
  }

  // ---------- counting the obtained bytes ----------

  lemma {:induction false} RegionSize(p: nat, bytes: nat)
    ensures |Region(p, bytes)| == bytes
  {
    if bytes == 0 {
      assert Region(p, bytes) == {};
    } else {
      RegionSize(p, bytes - 1);
      assert Region(p, bytes) == Region(p, bytes - 1) + {p + bytes - 1};
    }
  }

  lemma GrownSize(l: Ledger, p: nat, bytes: nat)
    requires Region(p, bytes) !! l.owner.Keys
    ensures |Grown(l, p, bytes).owner| == |l.owner| + bytes
    ensures Grown(l, p, bytes).owner.Keys == l.owner.Keys + Region(p, bytes)
    ensures Grown(l, p, bytes) == l.(owner := Grown(l, p, bytes).owner, start := p, end := p + bytes)
  {
    RegionSize(p, bytes);
    var o := Grown(l, p, bytes).owner;
    assert o.Keys == l.owner.Keys + Region(p, bytes);
    assert |o| == |o.Keys| && |l.owner| == |l.owner.Keys|;
  }

  lemma SameSize(m: map<nat, Owner>, r: map<nat, Owner>)
    requires r.Keys == m.Keys
    ensures |r| == |m|
  {
    assert |r| == |r.Keys| && |m| == |m.Keys|;
  }

  // ---------- 32-bit sizes do not wrap ----------

  lemma {:induction false} Bounded(s: set<nat>, n: nat)
    requires forall g :: g in s ==> g < n
    ensures |s| <= n
  {
    if n > 0 { Bounded(s - {n - 1}, n - 1); }
    else { assert s == {}; }
  }

  /** With all regions in a 32-bit address space, the size chunk_alloc asks for fits a 32-bit word. */
  lemma RequestFits(l: Ledger, heapSize: nat, size: nat, nobjs: nat)
    requires heapSize == |l.owner| && (forall g :: g in l.owner ==> g < 0x1_0000_0000)
    requires size <= MAX_BYTES && nobjs <= 20
    ensures 2 * (size * nobjs) + RoundUp(heapSize / 16) < 0x1_0000_0000
  {
    Bounded(l.owner.Keys, 0x1_0000_0000);
    assert |l.owner| == |l.owner.Keys|;
    assert size * nobjs <= MAX_BYTES * 20;
  }
}
