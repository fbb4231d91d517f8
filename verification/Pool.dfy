/** The pooled small-object allocator over the ledger of PoolLedger. */
module Pool {
  import opened Arithmetic
  import opened PoolLedger

  /** The kernel heap: it fails, or hands out bytes that are in nobody's hands. */
  class Kernel {
    var used: set<nat>
    /** The sizes of the requests that it has refused, in order. */
    ghost var refused: seq<nat>

    constructor ()
      ensures used == {} && refused == []
    {
      used, refused := {}, [];
    }

    method Kmalloc(bytes: nat) returns (p: nat)
      modifies this
      ensures p == 0 ==> used == old(used) && refused == old(refused) + [bytes]
      ensures p != 0 ==> refused == old(refused)
      ensures p != 0 ==>
        p % ALIGN == 0 && Region(p, bytes) !! old(used) && used == old(used) + Region(p, bytes)
    {
      p :| p == 0 || (p % ALIGN == 0 && Region(p, bytes) !! used);
      if p != 0 {
        used := used + Region(p, bytes);
      } else {
        refused := refused + [bytes];
      }
    }

    method Kfree(p: nat, bytes: nat)
      requires Region(p, bytes) <= used
      modifies this`used
      ensures used == old(used) - Region(p, bytes)
    {
      used := used - Region(p, bytes);
    }
  }

  /** Every free list is chained from its head. */
  ghost predicate AllChained(link: map<nat, nat>, heads: seq<nat>, lists: seq<seq<nat>>) {
    && |heads| == |lists| == NFREELISTS
    && forall i {:trigger lists[i]} {:trigger heads[i]} :: 0 <= i < NFREELISTS ==> Chained(link, lists[i], heads[i], 0)
  }

  lemma ChainedHeads(link: map<nat, nat>, heads: seq<nat>, lists: seq<seq<nat>>)
    requires AllChained(link, heads, lists)
    ensures |heads| == NFREELISTS
  {
  }

  lemma ChainExtend(link: map<nat, nat>, s: seq<nat>, head: nat, cur: nat, to: nat)
    requires Chained(link, s, head, cur) && cur !in s
    ensures Chained(link[cur := to], s + [cur], head, to)
  {
    var t := s + [cur];
    forall j | 0 <= j < |t|
      ensures t[j] in link[cur := to] && link[cur := to][t[j]] == if j + 1 < |t| then t[j + 1] else to
    {
      if j < |s| { assert t[j] == s[j] && s[j] != cur; }
    }
  }

  lemma ChainKeep(link: map<nat, nat>, heads: seq<nat>, lists: seq<seq<nat>>, cur: nat, to: nat)
    requires AllChained(link, heads, lists) && forall k {:trigger lists[k]} :: 0 <= k < |lists| ==> cur !in lists[k]
    ensures AllChained(link[cur := to], heads, lists)
  {
    forall k | 0 <= k < NFREELISTS ensures Chained(link[cur := to], lists[k], heads[k], 0) {
      forall j | 0 <= j < |lists[k]| ensures lists[k][j] != cur {}
    }
  }

  lemma Rejoined(link: map<nat, nat>, heads: seq<nat>, lists: seq<seq<nat>>, i: nat)
    requires i < NFREELISTS == |heads| == |lists|
    requires AllChained(link, heads[i := 0], lists[i := []]) && Chained(link, lists[i], heads[i], 0)
    ensures AllChained(link, heads, lists)
  {
    forall k | 0 <= k < NFREELISTS ensures Chained(link, lists[k], heads[k], 0) {
      assert Chained(link, lists[i := []][k], heads[i := 0][k], 0);
    }
  }

  lemma Remaining(n: nat, c: int)
    requires c >= 1
    ensures n * c == n + n * (c - 1) && n * (c - 1) >= 0
  {
  }

  lemma Multiples(i: nat, size: nat, n: nat)
    requires size == BlockSize(i)
    ensures size * n % ALIGN == 0 && (n >= 1 ==> size * n >= size)
  {
    assert size * n == ((i + 1) * n) * 8;
  }

  lemma WholeObjects(bytes: nat, size: nat, n: nat)
    requires 0 < size <= bytes < size * n
    ensures 1 <= bytes / size < n && size * (bytes / size) <= bytes
  {
    var q := bytes / size;
    assert size * q <= bytes < size * (q + 1);
    if n <= q { MulMonotone(n, q, size); }
  }

  /** Blocks of n bytes one behind the other. */
  ghost function Stretch(p: nat, n: nat, count: nat): (s: seq<nat>)
    ensures |s| == count
  {
    seq<nat>(count, k requires 0 <= k < count => p + k * n)
  }

  lemma StretchMore(p: nat, n: nat, count: nat)
    ensures Stretch(p, n, count + 1) == Stretch(p, n, count) + [p + count * n] && (count + 1) * n == count * n + n
  {
  }

  lemma NoStretch(p: nat, n: nat)
    ensures Stretch(p, n, 0) == []
  {
  }

  lemma RestBelow(bytes: nat, size: nat)
    requires size > 0
    ensures bytes - size * (bytes / size) < size
  {
    DivFacts(bytes, size);
  }

  /** The bytes to get for objects of that many bytes, when the heap has a size. */
  function Wanted(total: nat, heap: nat): (w: nat)
    ensures 2 * total <= w && heap - 16 < 16 * (w - 2 * total) <= heap + 16 * ALIGN
  {
    2 * total + RoundUp(heap / 16)
  }

  /** The free lists from i on are empty. */
  ghost predicate AllEmpty(heads: seq<nat>, i: nat) {
    |heads| == NFREELISTS && forall k {:trigger heads[k]} :: i <= k < NFREELISTS ==> heads[k] == 0
  }

  /** The kernel has refused nothing meanwhile, or one request of that size. */
  ghost predicate OnceAtMost(before: seq<nat>, after: seq<nat>, bytes: nat) { after == before || after == before + [bytes] }

  lemma RequestAligned(total: nat, heap: nat)
    requires total % ALIGN == 0
    ensures Wanted(total, heap) % ALIGN == 0 && Wanted(total, heap) >= total
  {
    SumAligned(total, total);
    SumAligned(2 * total, RoundUp(heap / 16));
  }

  lemma IndexOfBlock(i: nat)
    ensures FreeListIndex(BlockSize(i)) == i && RoundUp(BlockSize(i)) == BlockSize(i)
  {
  }

  /** The word that byte g belongs to. */
  function WordOf(g: nat): nat { g - g % ALIGN }

  lemma WordInside(p: nat, g: nat)
    requires p % ALIGN == 0 && p <= g
    ensures p <= WordOf(g) <= g
    ensures forall i :: Covers(i, p, g) ==> Covers(i, p, WordOf(g))
  {
  }

  /** No free list has a block at a word of the client's. */
  lemma OtherWord(l: Ledger, p: nat, g: nat, k: nat)
    requires Sound(l) && p % ALIGN == 0 && p <= g && k < NFREELISTS
    requires (p in l.live && Covers(l.live[p], p, g)) || Region(p, g - p + 1) !! l.owner.Keys
    ensures WordOf(g) !in l.lists[k]
  {
    var w := WordOf(g);
    WordInside(p, g);
    if p in l.live && Covers(l.live[p], p, g) {
      assert LiveOk(l, p);
      assert Covers(l.live[p], p, w);
      NotListed(l, k, w);
    } else {
      assert w in Region(p, g - p + 1);
      if w in l.lists[k] {
        var j: nat :| j < |l.lists[k]| && l.lists[k][j] == w;
        assert FreeOk(l, k, j) && Covers(k, w, w);
      }
    }
  }

  /** The in-block links of a free list. */
  ghost predicate Chained(link: map<nat, nat>, s: seq<nat>, head: nat, last: nat) {
    && head == (if s == [] then last else s[0])
    && forall j {:trigger s[j]} :: 0 <= j < |s| ==>
         s[j] in link && link[s[j]] == if j + 1 < |s| then s[j + 1] else last
  }

  class Allocator {
    const kernel: Kernel
    var freeList: seq<nat>
    var link: map<nat, nat>
    var startFree: nat
    var endFree: nat
    var heapSize: nat

    ghost var lists: seq<seq<nat>>
    ghost var live: map<nat, nat>
    ghost var owner: map<nat, Owner>
    ghost var start: nat
    ghost var end: nat
    ghost var loose: nat
    ghost var looseEnd: nat

    ghost function L(): Ledger reads this {
      Ledger(lists, live, owner, start, end, loose, looseEnd)
    }

    /** The books balance: every obtained byte has its owner, and is counted in heapSize. */
    ghost predicate Books() reads this, kernel {
      && Sound(L()) && Aligned(L()) && AllChained(link, freeList, lists)
      && heapSize == |owner| && owner.Keys <= kernel.used
    }

    ghost predicate Carving() reads this, kernel {
      Books() && startFree == start && endFree == end
    }

    ghost predicate Valid() reads this, kernel {
      Carving() && loose == looseEnd
    }

    constructor (kernel: Kernel)
      ensures Valid() && this.kernel == kernel && live == map[]
    {
      this.kernel := kernel;
      freeList := seq(16, _ => 0);
      link, startFree, endFree, heapSize := map[], 0, 0, 0;
      lists, live, owner, start, end, loose, looseEnd := seq(16, _ => []), map[], map[], 0, 0, 0, 0;
      new;
      forall i: nat, j: nat ensures FreeOk(L(), i, j) {}
      forall g: nat ensures Accounted(L(), g) {}
    }

    ghost method Enter(l: Ledger)
      modifies this`lists, this`live, this`owner, this`start, this`end, this`loose, this`looseEnd
      ensures L() == l
    {
      lists, live, owner, start, end, loose, looseEnd := l.lists, l.live, l.owner, l.start, l.end, l.loose, l.looseEnd;
    }

    /** The first block of list i leaves the list. */
    method Unlist(i: nat) returns (p: nat)
      requires Books() && i < NFREELISTS && freeList[i] != 0
      modifies this`freeList
      ensures p == old(freeList[i]) && lists[i] != [] && p == lists[i][0]
      ensures AllChained(link, freeList, lists[i := lists[i][1..]])
      ensures p in link && freeList == old(freeList)[i := link[p]]
    {
      p := freeList[i];
      assert Chained(link, lists[i], freeList[i], 0);
      freeList := freeList[i := link[p]];
      forall k | 0 <= k < NFREELISTS
        ensures Chained(link, if k == i then lists[k][1..] else lists[k], freeList[k], 0)
      {
        assert Chained(link, lists[k], old(freeList)[k], 0);
        if k == i {
          forall j | 0 <= j < |lists[k][1..]|
            ensures lists[k][1..][j] in link
          { assert lists[k][1..][j] == lists[k][j + 1]; }
        }
      }
    }

    /** Block p is linked in front of list i. */
    method Enlist(i: nat, p: nat)
      requires Books() && i < NFREELISTS && (forall k {:trigger lists[k]} :: 0 <= k < NFREELISTS ==> p !in lists[k])
      modifies this`freeList, this`link
      ensures AllChained(link, freeList, lists[i := [p] + lists[i]]) && freeList == old(freeList)[i := p]
      ensures link == old(link)[p := old(freeList[i])]
    {
      link := link[p := freeList[i]];
      freeList := freeList[i := p];
      forall k | 0 <= k < NFREELISTS
        ensures Chained(link, if k == i then [p] + lists[k] else lists[k], freeList[k], 0)
      {
        assert Chained(old(link), lists[k], old(freeList)[k], 0);
      }
    }

    /** The client's next block comes from its free list. */
    method Pop(i: nat) returns (p: nat)
      requires Valid() && i < NFREELISTS && freeList[i] != 0
      modifies this
      ensures Valid() && L() == Popped(old(L()), i) && p == old(lists[i][0]) == old(freeList[i]) && p !in old(live)
      ensures owner.Keys == old(owner.Keys) && p in old(link) && freeList == old(freeList[i := link[p]]) && link == old(link)
    {
      p := Unlist(i);
      PoppedSound(L(), i);
      TakenAligned(L(), i);
      SameSize(owner, Popped(L(), i).owner);
      Enter(Popped(L(), i));
    }

    /** The arena's remainder is put on the free list of its size. */
    method Stash()
      requires Valid() && 0 < endFree - startFree <= MAX_BYTES
      modifies this
      ensures Books() && heapSize == old(heapSize) && |freeList| == NFREELISTS && loose == looseEnd && start == end && live == old(live) && owner.Keys == old(owner.Keys)
      ensures forall k :: 0 <= k < NFREELISTS && BlockSize(k) != old(endFree - startFree) ==> lists[k] == old(lists[k]) && freeList[k] == old(freeList[k])
    {
      var i := FreeListIndex(endFree - startFree);
      assert BlockSize(i) == endFree - startFree;
      forall k: nat | k < NFREELISTS ensures startFree !in lists[k] { NotListed(L(), k, startFree); }
      Enlist(i, startFree);
      StashedSound(L(), i);
      PushedAligned(L(), i, startFree);
      SameSize(owner, Stashed(L(), i).owner);
      Enter(Stashed(L(), i));
    }

    /** The first block of list i becomes the arena. */
    method TakeForArena(i: nat)
      requires Books() && loose == looseEnd && start == end && i < NFREELISTS && freeList[i] != 0
      modifies this`freeList, this`startFree, this`endFree
      modifies this`lists, this`live, this`owner, this`start, this`end, this`loose, this`looseEnd
      ensures Valid() && live == old(live) && owner.Keys == old(owner.Keys)
      ensures endFree - startFree == BlockSize(i)
      ensures lists == old(lists)[i := old(lists[i])[1..]]
    {
      hide Sound, Aligned;
      var p := Unlist(i);
      TakenSound(L(), i);
      TakenAligned(L(), i);
      SameSize(owner, Taken(L(), i).owner);
      startFree := p;
      endFree := startFree + BlockSize(i);
      Enter(Taken(L(), i));
    }

    /** A region p from the kernel becomes the arena. */
    method GrowArena(p: nat, bytes: nat)
      requires Books() && loose == looseEnd && start == end
      requires p > 0 && p % ALIGN == 0 && bytes % ALIGN == 0
      requires Region(p, bytes) !! owner.Keys && Region(p, bytes) <= kernel.used
      modifies this`startFree, this`endFree, this`heapSize
      modifies this`lists, this`live, this`owner, this`start, this`end, this`loose, this`looseEnd
      ensures Valid() && live == old(live) && lists == old(lists)
      ensures owner.Keys == old(owner.Keys) + Region(p, bytes) && endFree - startFree == bytes
    {
      hide Sound, Aligned, AllChained, Grown;
      GrownSound(L(), p, bytes);
      GrownAligned(L(), p, bytes);
      GrownSize(L(), p, bytes);
      startFree := p;
      heapSize := heapSize + bytes;
      endFree := startFree + bytes;
      Enter(Grown(L(), p, bytes));
    }

    /** The first bytes of the arena are cut off. */
    method Carve(bytes: nat) returns (result: nat)
      requires Valid() && bytes % ALIGN == 0 && bytes <= endFree - startFree
      modifies this
      ensures Carving() && live == old(live) && lists == old(lists) && owner.Keys == old(owner.Keys)
      ensures endFree - startFree == old(endFree - startFree) - bytes
      ensures result == loose && looseEnd == loose + bytes && (bytes > 0 ==> result > 0)
    {
      CarvedSound(L(), bytes);
      GrownAligned(L(), 0, bytes);
      SameSize(owner, Carved(L(), bytes).owner);
      Enter(Carved(L(), bytes));
      result := startFree;
      startFree := startFree + bytes;
    }

    /** As many objects as the arena still holds, up to nobjs0. */
    method CarveObjects(size: nat, nobjs0: nat, ghost i: nat) returns (result: nat, nobjs: nat)
      requires Valid() && size == BlockSize(i) && 1 <= nobjs0 && size <= endFree - startFree
      modifies this
      ensures Carving() && live == old(live) && lists == old(lists) && owner.Keys == old(owner.Keys)
      ensures nobjs == nobjs0 || endFree - startFree < size
      ensures 1 <= nobjs <= nobjs0 && 0 < result == loose && looseEnd == loose + size * nobjs
    {
      nobjs := nobjs0;
      var totalBytes := size * nobjs;
      Multiples(i, size, nobjs);
      var bytesLeft := endFree - startFree;
      if bytesLeft < totalBytes {
        WholeObjects(bytesLeft, size, nobjs0);
        RestBelow(bytesLeft, size);
        nobjs := bytesLeft / size;
        totalBytes := size * nobjs;
        Multiples(i, size, nobjs);
      }
      result := Carve(totalBytes);
    }

    /** Gives the arena room for one object: a new region, or a larger free block. */
    method Refuel(size: nat, totalBytes: nat, ghost i: nat) returns (ok: bool)
      requires Valid() && i < NFREELISTS && size == BlockSize(i) <= totalBytes && totalBytes % ALIGN == 0
      requires endFree - startFree < size && lists[i] == []
      modifies this, kernel
      ensures Valid() && lists[i] == [] && live == old(live) && old(owner.Keys) <= owner.Keys
      ensures kernel.used - owner.Keys == old(kernel.used - owner.Keys)
      ensures var w := Wanted(totalBytes, old(heapSize));
        if ok then endFree - startFree >= size && OnceAtMost(old(kernel.refused), kernel.refused, w)
        else kernel.refused == old(kernel.refused) + [w, w] && AllEmpty(old(freeList), i)
    {
      hide Sound, Aligned, AllChained;
      ArenaAligned(L());
      ChainedHeads(link, freeList, lists);
      var bytesToGet := Wanted(totalBytes, heapSize);
      RequestAligned(totalBytes, heapSize);
      if endFree - startFree > 0 {
        Stash();
      }
      assert AllEmpty(freeList, i) ==> AllEmpty(old(freeList), i);
      ok := Restock(size, bytesToGet, i);
    }

    /** The arena is empty: a new region, or a larger free block. */
    method Restock(size: nat, bytesToGet: nat, ghost i: nat) returns (ok: bool)
      requires Books() && loose == looseEnd && start == end
      requires i < NFREELISTS && size == BlockSize(i) <= bytesToGet && bytesToGet % ALIGN == 0 && lists[i] == []
      modifies this, kernel
      ensures Valid() && lists[i] == [] && live == old(live) && old(owner.Keys) <= owner.Keys
      ensures kernel.used - owner.Keys == old(kernel.used - owner.Keys)
      ensures ok ==> endFree - startFree >= size && OnceAtMost(old(kernel.refused), kernel.refused, bytesToGet)
      ensures !ok ==> kernel.refused == old(kernel.refused) + [bytesToGet, bytesToGet] && AllEmpty(old(freeList), i)
    {
      hide Sound, Aligned, AllChained;
      ok := AskKernel(bytesToGet);
      if !ok {
        ok := MakeDo(size, bytesToGet, i);
      }
    }

    /** A new region becomes the arena, or the kernel fails and nothing but the start of the arena changes. */
    method AskKernel(bytes: nat) returns (ok: bool)
      requires Books() && loose == looseEnd && start == end && bytes % ALIGN == 0
      modifies this`startFree, this`endFree, this`heapSize, kernel
      modifies this`lists, this`live, this`owner, this`start, this`end, this`loose, this`looseEnd
      ensures lists == old(lists) && live == old(live) && old(owner.Keys) <= owner.Keys
      ensures kernel.used - owner.Keys == old(kernel.used - owner.Keys)
      ensures if ok then Valid() && endFree - startFree == bytes && kernel.refused == old(kernel.refused)
              else Books() && L() == old(L()) && startFree == 0 && endFree == old(endFree) && kernel.refused == old(kernel.refused) + [bytes]
    {
      hide Sound, Aligned, AllChained;
      startFree := kernel.Kmalloc(bytes);
      ok := startFree != 0;
      if ok {
        GrowArena(startFree, bytes);
      }
    }

    /** The kernel has failed once: a larger free block, or else a last request to the kernel. */
    method MakeDo(size: nat, bytesToGet: nat, ghost i: nat) returns (ok: bool)
      requires Books() && loose == looseEnd && start == end
      requires i < NFREELISTS && size == BlockSize(i) <= bytesToGet && bytesToGet % ALIGN == 0 && lists[i] == []
      modifies this, kernel
      ensures Valid() && lists[i] == [] && live == old(live) && old(owner.Keys) <= owner.Keys
      ensures kernel.used - owner.Keys == old(kernel.used - owner.Keys)
      ensures ok ==> endFree - startFree >= size && kernel.refused == old(kernel.refused)
      ensures !ok ==> kernel.refused == old(kernel.refused) + [bytesToGet] && AllEmpty(old(freeList), i)
    {
      hide Sound, Aligned;
      var k := FindBlock(size, i);
      if k < NFREELISTS {
        assert Chained(link, lists[i], freeList[i], 0);
        TakeForArena(k);
        return true;
      }
      endFree := 0;
      ok := AskKernel(bytesToGet);
      if !ok {
        EmptiedSound(L());
        start, end := 0, 0;
      }
    }

    /** A run of up to nobjs0 objects of list i's size; 0 when memory has run out for good.
        The measure shows that it calls itself at most once. */
    method ChunkAlloc(size: nat, nobjs0: nat, ghost i: nat) returns (result: nat, nobjs: nat)
      requires Valid() && i < NFREELISTS && size == BlockSize(i) && 1 <= nobjs0 <= 20 && lists[i] == []
      modifies this, kernel
      ensures Carving() && lists[i] == [] && live == old(live) && old(owner.Keys) <= owner.Keys
      ensures kernel.used - owner.Keys == old(kernel.used - owner.Keys)
      ensures result == 0 ==> Valid()
      ensures old(endFree - startFree) >= size ==> result != 0 && kernel.used == old(kernel.used) && kernel.refused == old(kernel.refused)
      ensures var w := Wanted(size * nobjs0, old(heapSize));
        if result != 0 then OnceAtMost(old(kernel.refused), kernel.refused, w)
        else kernel.refused == old(kernel.refused) + [w, w] && AllEmpty(old(freeList), i)
      ensures result != 0 ==> nobjs == nobjs0 || endFree - startFree < size
      ensures result != 0 ==> 1 <= nobjs <= nobjs0 && result == loose && looseEnd == loose + size * nobjs
      decreases if endFree - startFree >= size then 0 else 1
    {
      if endFree - startFree >= size {
        result, nobjs := CarveObjects(size, nobjs0, i);
      } else {
        Multiples(i, size, nobjs0);
        var ok := Refuel(size, size * nobjs0, i);
        if !ok { return 0, nobjs0; }
        result, nobjs := ChunkAlloc(size, nobjs0, i);
      }
    }

    /** The first non-empty list for blocks of at least the given size. */
    method FindBlock(size: nat, ghost i: nat) returns (k: nat)
      requires AllChained(link, freeList, lists) && i < NFREELISTS && size == BlockSize(i)
      ensures i <= k <= NFREELISTS
      ensures k < NFREELISTS ==> freeList[k] != 0
      ensures forall j :: i <= j < k ==> freeList[j] == 0
    {
      ghost var j := i;
      var bytes := size;
      while bytes <= MAX_BYTES
        invariant i <= j <= NFREELISTS && bytes == BlockSize(j)
        invariant forall m :: i <= m < j ==> freeList[m] == 0
      {
        IndexOfBlock(j);
        k := FreeListIndex(bytes);
        if freeList[k] != 0 { return; }
        bytes := bytes + ALIGN;
        j := j + 1;
      }
      k := NFREELISTS;
    }

    /** The carved memory goes to the client as one block of list i. */
    method HandOver(ghost i: nat)
      requires Carving() && i < NFREELISTS && BlockSize(i) + loose <= looseEnd
      modifies this`lists, this`live, this`owner, this`start, this`end, this`loose, this`looseEnd
      ensures Carving() && L() == HandedOut(old(L()), i) && old(loose) !in old(live) && owner.Keys == old(owner.Keys)
    {
      HandedOutSound(L(), i);
      ListedAligned(L(), i);
      SameSize(owner, HandedOut(L(), i).owner);
      Enter(HandedOut(L(), i));
    }

    /** List i is being built: its last block is linked to next, which is not listed yet. */
    ghost predicate Threading(i: nat, next: nat) reads this, kernel {
      && Sound(L()) && Aligned(L()) && i < NFREELISTS
      && heapSize == |owner| && owner.Keys <= kernel.used
      && startFree == start && endFree == end
      && |freeList| == NFREELISTS
      && Chained(link, lists[i], freeList[i], next)
      && AllChained(link, freeList[i := 0], lists[i := []])
    }

    /** The next carved block becomes the last of list i, linked to `to`. */
    method ThreadNext(i: nat, cur: nat, to: nat)
      requires Threading(i, cur) && cur == loose && loose + BlockSize(i) <= looseEnd
      modifies this`link, this`lists, this`live, this`owner, this`start, this`end, this`loose, this`looseEnd
      ensures |lists| == NFREELISTS && lists[i] == old(lists[i]) + [cur]
      ensures Threading(i, to) && L() == Listed(old(L()), i) && owner.Keys == old(owner.Keys)
    {
      ListedSound(L(), i);
      ListedAligned(L(), i);
      SameSize(owner, Listed(L(), i).owner);
      forall k: nat | k < NFREELISTS ensures cur !in lists[k] { NotListed(L(), k, cur); }
      link := link[cur := to];
      ChainExtend(old(link), lists[i], freeList[i], cur, to);
      ChainKeep(old(link), freeList[i := 0], lists[i := []], cur, to);
      Enter(Listed(L(), i));
    }

    /** Of the count blocks to be listed, j are; the next one is at cur. */
    ghost predicate Building(i: nat, n: nat, first: nat, count: nat, j: nat, cur: nat)
      reads this, kernel
    {
      && Threading(i, cur) && j <= count && loose == first + j * n && looseEnd == loose + n * (count - j)
      && lists[i] == Stretch(first, n, j) && (j < count ==> cur == loose)
    }

    method StartList(i: nat, n: nat, first: nat, count: nat)
      requires Carving() && i < NFREELISTS && n == BlockSize(i) && lists[i] == []
      requires count >= 1 && first == loose && looseEnd == loose + n * count
      modifies this`freeList
      ensures Building(i, n, first, count, 0, first)
    {
      freeList := freeList[i := first];
    }

    /** One block more, linked to the next one or to nothing. */
    method ListOne(i: nat, n: nat, ghost first: nat, ghost count: nat, ghost j: nat, cur: nat, to: nat)
      requires Building(i, n, first, count, j, cur) && j < count && n == BlockSize(i) && (j + 1 < count ==> to == cur + n)
      modifies this`link, this`lists, this`live, this`owner, this`start, this`end, this`loose, this`looseEnd
      ensures Building(i, n, first, count, j + 1, to) && live == old(live) && owner.Keys == old(owner.Keys)
      ensures startFree == start && endFree == end
    {
      hide Sound, Aligned, AllChained, Chained, Stretch;
      ghost var c: nat := count - (j + 1);
      assert looseEnd == loose + n * (c + 1);
      Remaining(n, c + 1);
      assert c + 1 - 1 == c;
      StretchMore(first, n, j);
      ThreadNext(i, cur, to);
      assert looseEnd == loose + n * c;
      assert lists[i] == Stretch(first, n, j + 1);
      assert loose == first + (j + 1) * n;
    }

    method ThreadList(i: nat, n: nat, first: nat, count: nat)
      requires Carving() && i < NFREELISTS && n == BlockSize(i) && lists[i] == []
      requires count >= 1 && first == loose && looseEnd == loose + n * count
      modifies this
      ensures Valid() && live == old(live) && owner.Keys == old(owner.Keys)
      ensures lists[i] == Stretch(first, n, count) && endFree - startFree == old(endFree - startFree)
    {
      StartList(i, n, first, count);
      ListAll(i, n, first, count);
      hide Sound, Aligned, AllChained, Stretch;
      Rejoined(link, freeList, lists, i);
    }

    method ListAll(i: nat, n: nat, first: nat, count: nat)
      requires Building(i, n, first, count, 0, first) && n == BlockSize(i) && count >= 1
      modifies this`link, this`lists, this`live, this`owner, this`start, this`end, this`loose, this`looseEnd
      ensures Building(i, n, first, count, count, 0) && live == old(live) && owner.Keys == old(owner.Keys)
    {
      hide Building;
      var next: nat := first;
      var j := 1;
      while true
        invariant 1 <= j <= count && Building(i, n, first, count, j - 1, next)
        invariant live == old(live) && owner.Keys == old(owner.Keys)
        decreases count - j
      {
        var cur := next;
        next := next + n;
        if count == j {
          ListOne(i, n, first, count, j - 1, cur, 0);
          break;
        } else {
          ListOne(i, n, first, count, j - 1, cur, next);
        }
        j := j + 1;
      }
    }

    /** A block for the client when its list is empty; the rest of the run is listed. */
    method Refill(n: nat, i: nat) returns (p: nat, ghost more: nat)
      requires Valid() && i < NFREELISTS && n == BlockSize(i) && lists[i] == []
      modifies this, kernel
      ensures Valid() && old(owner.Keys) <= owner.Keys && kernel.used - owner.Keys == old(kernel.used - owner.Keys)
      ensures old(endFree - startFree) >= n ==> p != 0 && kernel.used == old(kernel.used) && kernel.refused == old(kernel.refused)
      ensures var w := Wanted(n * 20, old(heapSize));
        if p != 0 then OnceAtMost(old(kernel.refused), kernel.refused, w)
        else kernel.refused == old(kernel.refused) + [w, w] && AllEmpty(old(freeList), i)
      ensures p != 0 ==> lists[i] == Stretch(p + n, n, more) && more <= 19 && (more == 19 || endFree - startFree < n)
      ensures p == 0 ==> live == old(live)
      ensures p != 0 ==> p !in old(live) && live == old(live)[p := i]
    {
      hide Sound, Aligned, AllChained;
      hide Stretch;
      more := 0;
      var nobjs;
      p, nobjs := ChunkAlloc(n, 20, i);
      if p == 0 { return; }
      Multiples(i, n, nobjs);
      HandOver(i);
      Remaining(n, nobjs);
      more := nobjs - 1;
      NoStretch(p + n, n);
      if nobjs == 1 { return; }
      ThreadList(i, n, p + n, nobjs - 1);
    }

    /** A block of at least n bytes, n > 0: the first of its list, or one cut from new memory. It is null only after the
        kernel has refused, up to 128 bytes twice and with no block of the size or a larger one free. Every byte that
        the kernel hands out on the way is the client's or enters the account. */
    method Allocate(n: nat) returns (p: nat)
      requires Valid() && n > 0
      modifies this, kernel
      ensures Valid()
      ensures n > MAX_BYTES ==> L() == old(L()) && (p == 0 ==> kernel.used == old(kernel.used))
      ensures n > MAX_BYTES ==> kernel.refused == if p == 0 then old(kernel.refused) + [n] else old(kernel.refused)
      ensures n > MAX_BYTES && p != 0 ==>
        p % ALIGN == 0 && Region(p, n) !! old(kernel.used) && kernel.used == old(kernel.used) + Region(p, n)
      ensures n <= MAX_BYTES ==> old(owner.Keys) <= owner.Keys && kernel.used - owner.Keys == old(kernel.used - owner.Keys)
      ensures n <= MAX_BYTES && old(freeList[FreeListIndex(n)]) != 0 ==>
        && p == old(freeList[FreeListIndex(n)]) && p in old(link) && freeList == old(freeList[FreeListIndex(n) := link[p]])
        && kernel.used == old(kernel.used) && kernel.refused == old(kernel.refused)
      ensures n <= MAX_BYTES && old(endFree - startFree) >= RoundUp(n) ==>
        p != 0 && kernel.used == old(kernel.used) && kernel.refused == old(kernel.refused)
      ensures n <= MAX_BYTES ==> var w := Wanted(RoundUp(n) * 20, old(heapSize));
        if p != 0 then OnceAtMost(old(kernel.refused), kernel.refused, w)
        else kernel.refused == old(kernel.refused) + [w, w] && AllEmpty(old(freeList), FreeListIndex(n))
      ensures n <= MAX_BYTES ==> if p == 0 then live == old(live) else p !in old(live) && live == old(live)[p := FreeListIndex(n)]
    {
      if n > MAX_BYTES {
        p := kernel.Kmalloc(n);
        return;
      }
      var i := FreeListIndex(n);
      assert Chained(link, lists[i], freeList[i], 0);
      if freeList[i] == 0 {
        if lists[i] != [] { PoppedSound(L(), i); }
        ghost var more;
        p, more := Refill(RoundUp(n), i);
      } else {
        p := Pop(i);
      }
    }

    /** Gives back a block that was allocated with the same size. */
    method Deallocate(p: nat, n: nat)
      requires Valid() && n > 0
      requires if n <= MAX_BYTES then p in live && live[p] == FreeListIndex(n) else Region(p, n) <= kernel.used - owner.Keys
      modifies this, kernel`used
      ensures Valid() && owner.Keys == old(owner.Keys)
      ensures n <= MAX_BYTES ==> kernel.used == old(kernel.used) && L() == Pushed(old(L()), FreeListIndex(n), p)
      ensures n <= MAX_BYTES ==>
        freeList == old(freeList)[FreeListIndex(n) := p] && link == old(link)[p := old(freeList[FreeListIndex(n)])]
      ensures n > MAX_BYTES ==> kernel.used == old(kernel.used) - Region(p, n) && L() == old(L())
    {
      if n > MAX_BYTES {
        kernel.Kfree(p, n);
        return;
      }
      var i := FreeListIndex(n);
      BlockOwned(L(), i, p);
      forall k: nat | k < NFREELISTS ensures p !in lists[k] {
        assert Covers(i, p, p);
        NotListed(L(), k, p);
      }
      Enlist(i, p);
      PushedSound(L(), i, p);
      PushedAligned(L(), i, p);
      SameSize(owner, Pushed(L(), i, p).owner);
      Enter(Pushed(L(), i, p));
    }

    /** A client writes at byte g of a block it holds, whereby the word of that byte gets any value. */
    method Scribble(p: nat, g: nat, word: nat)
      requires Valid() && p % ALIGN == 0 && p <= g
      requires (p in live && Covers(live[p], p, g)) || Region(p, g - p + 1) <= kernel.used - owner.Keys
      modifies this`link
      ensures Valid() && L() == old(L()) && link == old(link)[WordOf(g) := word]
    {
      WordInside(p, g);
      if p in live && Covers(live[p], p, g) {
        assert LiveOk(L(), p);
        assert Covers(live[p], p, WordOf(g));
      }
      forall k: nat | k < NFREELISTS ensures WordOf(g) !in lists[k] { OtherWord(L(), p, g, k); }
      link := link[WordOf(g) := word];
      ChainKeep(old(link), freeList, lists, WordOf(g), word);
    }
  }

  // ---------- whole runs ----------

  /** Ask for n + 1 bytes, give back the k-th block still held, or write at an offset into it. */
  datatype Request = Get(n: nat) | Put(k: nat) | Write(k: nat, offset: nat, word: nat)

  datatype Held = Held(address: nat, size: nat) {
    predicate Small() { 0 < size <= MAX_BYTES }

    /** The bytes set aside for the block. */
    function Extent(): nat { if Small() then BlockSize(FreeListIndex(size)) else size }
  }

  ghost predicate HeldOk(live: map<nat, nat>, large: set<nat>, h: Held) {
    if h.Small() then h.address in live && live[h.address] == FreeListIndex(h.size)
    else h.size > MAX_BYTES && h.address > 0 && h.address % ALIGN == 0 && Region(h.address, h.size) <= large
  }

  ghost predicate Distinct(g: Held, h: Held) {
    g.address != h.address && (g.Small() || h.Small() || Region(g.address, g.size) !! Region(h.address, h.size))
  }

  ghost predicate LiveHeld(held: seq<Held>, b: nat) { exists h :: h in held && h.Small() && h.address == b }

  ghost predicate LargeHeld(held: seq<Held>, g: nat) { exists h :: h in held && !h.Small() && g in Region(h.address, h.size) }

  /** The blocks that the client holds, with the sizes it asked for, are the live ones of the pool
      and, byte for byte, the memory that the kernel has handed out to others than the pool. */
  ghost predicate Holds(live: map<nat, nat>, large: set<nat>, held: seq<Held>) {
    && (forall h {:trigger h in held} :: h in held ==> HeldOk(live, large, h))
    && (forall j, k {:trigger held[j], held[k]} :: 0 <= j < k < |held| ==> Distinct(held[j], held[k]))
    && (forall b {:trigger LiveHeld(held, b)} :: b in live ==> LiveHeld(held, b))
    && (forall g {:trigger LargeHeld(held, g)} :: g in large ==> LargeHeld(held, g))
  }

  lemma OneMore(live: map<nat, nat>, large: set<nat>, held: seq<Held>, h: Held)
    requires Holds(live, large, held) && forall g :: g in held ==> Distinct(g, h)
    ensures h.Small() ==> Holds(live[h.address := FreeListIndex(h.size)], large, held + [h])
    ensures h.size > MAX_BYTES && h.address > 0 && h.address % ALIGN == 0 ==> Holds(live, large + Region(h.address, h.size), held + [h])
  {
    var t := held + [h];
    assert t[|held|] == h && forall g :: g in held ==> g in t;
    forall b ensures (b in live ==> LiveHeld(t, b)) && (h.Small() && b == h.address ==> LiveHeld(t, b)) {
      if b in live { assert LiveHeld(held, b); }
    }
    forall g ensures (g in large ==> LargeHeld(t, g)) && (!h.Small() && g in Region(h.address, h.size) ==> LargeHeld(t, g)) {
      if g in large { assert LargeHeld(held, g); }
    }
  }

  lemma WithoutOne(held: seq<Held>, k: nat)
    requires k < |held|
    requires forall i, j {:trigger held[i], held[j]} :: 0 <= i < j < |held| ==> Distinct(held[i], held[j])
    ensures var t := held[..k] + held[k + 1..];
      && (forall h {:trigger h in t} :: h in t ==> h in held && Distinct(h, held[k]))
      && (forall h {:trigger h in held} :: h in held ==> h in t || h == held[k])
      && (forall i, j {:trigger t[i], t[j]} :: 0 <= i < j < |t| ==> Distinct(t[i], t[j]))
  {
    var t := held[..k] + held[k + 1..];
    forall i | 0 <= i < |t| ensures t[i] == held[if i < k then i else i + 1] {}
    forall h | h in t ensures h in held && Distinct(h, held[k]) {
      var i :| 0 <= i < |t| && t[i] == h;
      assert h == held[if i < k then i else i + 1];
    }
    forall h | h in held ensures h in t || h == held[k] {
      var i :| 0 <= i < |held| && held[i] == h;
      if i != k { assert t[if i < k then i else i - 1] == h; }
    }
  }

  lemma OneLess(live: map<nat, nat>, large: set<nat>, held: seq<Held>, k: nat)
    requires Holds(live, large, held) && k < |held|
    ensures var h, t := held[k], held[..k] + held[k + 1..];
      if h.Small() then Holds(live - {h.address}, large, t) else Holds(live, large - Region(h.address, h.size), t)
  {
    var h, t := held[k], held[..k] + held[k + 1..];
    WithoutOne(held, k);
    assert h in held;
    forall b | b in live && (h.Small() ==> b != h.address) ensures LiveHeld(t, b) { assert LiveHeld(held, b); }
    forall g | g in large && (!h.Small() ==> g !in Region(h.address, h.size)) ensures LargeHeld(t, g) { assert LargeHeld(held, g); }
  }

  /** A block of the kernel's or the pool's that was not in the client's hands. */
  lemma NewBlock(l: Ledger, used: set<nat>, held: seq<Held>, h: Held)
    requires Sound(l) && l.owner.Keys <= used && Holds(l.live, used - l.owner.Keys, held)
    requires if h.Small() then h.address !in l.live && h.address !in used - l.owner.Keys
             else h.size > MAX_BYTES && Region(h.address, h.size) !! used
    ensures forall g :: g in held ==> Distinct(g, h)
  {
    forall g | g in held ensures Distinct(g, h) {
      if g.Small() {
        assert LiveOk(l, g.address) && Covers(l.live[g.address], g.address, g.address);
        assert g.address in used;
      } else {
        assert g.address in Region(g.address, g.size);
      }
      assert !h.Small() ==> h.address in Region(h.address, h.size);
    }
  }

  ghost function SizesOf(held: seq<Held>): (r: seq<nat>)
    ensures |r| == |held| && forall i {:trigger r[i]} :: 0 <= i < |r| ==> r[i] == held[i].size
  {
    seq<nat>(|held|, i requires 0 <= i < |held| => held[i].size)
  }

  /** The sizes of the blocks held after a request that is met. */
  ghost function SizesAfter(sizes: seq<nat>, r: Request): seq<nat> {
    match r
    case Get(n) => sizes + [n + 1]
    case Put(k) => if k < |sizes| then sizes[..k] + sizes[k + 1..] else sizes
    case Write(_, _, _) => sizes
  }

  /** The sizes of the blocks held after requests that are all met. */
  ghost function SizesMet(requests: seq<Request>): seq<nat> {
    if requests == [] then [] else SizesAfter(SizesMet(requests[..|requests| - 1]), requests[|requests| - 1])
  }

  method Serve(a: Allocator, held0: seq<Held>, r: Request) returns (held: seq<Held>)
    requires a.Valid() && Holds(a.live, a.kernel.used - a.owner.Keys, held0)
    modifies a, a.kernel
    ensures a.Valid() && Holds(a.live, a.kernel.used - a.owner.Keys, held)
    ensures old(a.kernel.refused) <= a.kernel.refused
    ensures a.kernel.refused == old(a.kernel.refused) ==> SizesOf(held) == SizesAfter(SizesOf(held0), r)
  {
    hide Holds, Sound, Aligned;
    held := held0;
    match r {
      case Get(n) =>
        held := Grant(a, held, n + 1);
      case Put(k) =>
        if k < |held| {
          HeldIsOk(a.live, a.kernel.used - a.owner.Keys, held, k);
          OneLess(a.live, a.kernel.used - a.owner.Keys, held, k);
          a.Deallocate(held[k].address, held[k].size);
          assert !held[k].Small() ==> a.kernel.used - a.owner.Keys == old(a.kernel.used - a.owner.Keys) - Region(held[k].address, held[k].size);
          held := held[..k] + held[k + 1..];
        }
      case Write(k, offset, word) =>
        if k < |held| && offset < held[k].Extent() {
          HeldIsOk(a.live, a.kernel.used - a.owner.Keys, held, k);
          HeldAligned(a.L(), a.kernel.used - a.owner.Keys, held[k]);
          var p := held[k].address;
          assert !held[k].Small() ==> Region(p, offset + 1) <= Region(p, held[k].size);
          a.Scribble(p, p + offset, word);
        }
    }
  }

  lemma HeldIsOk(live: map<nat, nat>, large: set<nat>, held: seq<Held>, k: nat)
    requires Holds(live, large, held) && k < |held|
    ensures HeldOk(live, large, held[k])
  {
    assert held[k] in held;
  }

  lemma HeldAligned(l: Ledger, large: set<nat>, h: Held)
    requires Sound(l) && Aligned(l) && HeldOk(l.live, large, h)
    ensures h.address > 0 && h.address % ALIGN == 0
    ensures h.Small() ==> IsBlock(l, FreeListIndex(h.size), h.address) && h.size <= h.Extent()
  {
    if h.Small() {
      assert LiveOk(l, h.address);
      BlockOwned(l, FreeListIndex(h.size), h.address);
    }
  }

  method Grant(a: Allocator, held0: seq<Held>, n: nat) returns (held: seq<Held>)
    requires a.Valid() && Holds(a.live, a.kernel.used - a.owner.Keys, held0) && n > 0
    modifies a, a.kernel
    ensures a.Valid() && Holds(a.live, a.kernel.used - a.owner.Keys, held)
    ensures old(a.kernel.refused) <= a.kernel.refused
    ensures if a.kernel.refused == old(a.kernel.refused) then exists p :: held == held0 + [Held(p, n)] else held == held0 || exists p :: held == held0 + [Held(p, n)]
  {
    hide Holds, Sound, Aligned;
    held := held0;
    ghost var l, used := a.L(), a.kernel.used;
    var p := a.Allocate(n);
    if p != 0 {
      if n <= MAX_BYTES { LiveInside(a.L(), p); }
      NewBlock(l, used, held, Held(p, n));
      OneMore(l.live, used - l.owner.Keys, held, Held(p, n));
      assert n > MAX_BYTES ==> a.kernel.used - a.owner.Keys == used - l.owner.Keys + Region(p, n);
      held := held + [Held(p, n)];
    }
  }

  lemma LiveInside(l: Ledger, b: nat)
    requires Sound(l) && b in l.live
    ensures b in l.owner
  {
    assert LiveOk(l, b) && Covers(l.live[b], b, b);
  }

  ghost predicate ClientByte(held: seq<Held>, g: nat) { exists h :: h in held && Within(h.address, h.Extent(), g) }

  ghost predicate FreeByte(lists: seq<seq<nat>>, g: nat) { exists i: nat, b: nat :: i < |lists| && b in lists[i] && Covers(i, b, g) }

  /** After any run, with any answers from the kernel: the blocks held are aligned, no two of them share a byte,
      every request was met unless the kernel has refused one, and every byte that the kernel has handed out and not got back is the client's, on a free list, or in the arena. */
  method Run(requests: seq<Request>) returns (a: Allocator, held: seq<Held>)
    ensures a.Valid() && Holds(a.live, a.kernel.used - a.owner.Keys, held)
    ensures forall h :: h in held ==> h.address > 0 && h.address % ALIGN == 0 && h.size <= h.Extent()
    ensures forall j, k :: 0 <= j < k < |held| ==>
      held[j].address + held[j].Extent() <= held[k].address || held[k].address + held[k].Extent() <= held[j].address
    ensures a.kernel.refused == [] ==> SizesOf(held) == SizesMet(requests)
    ensures forall g :: g in a.kernel.used ==> ClientByte(held, g) || FreeByte(a.lists, g) || a.startFree <= g < a.endFree
  {
    hide Holds, Sound, Aligned;
    var kernel := new Kernel();
    a := new Allocator(kernel);
    held := [];
    HoldsNone();
    assert a.kernel.used - a.owner.Keys == {};
    for n := 0 to |requests|
      invariant fresh(a) && fresh(a.kernel) && a.Valid() && Holds(a.live, a.kernel.used - a.owner.Keys, held)
      invariant a.kernel.refused == [] ==> SizesOf(held) == SizesMet(requests[..n])
    {
      assert requests[..n + 1][..n] == requests[..n];
      held := Serve(a, held, requests[n]);
    }
    assert requests[..|requests|] == requests;
    HeldBlocks(a.L(), a.kernel.used, held);
    forall g | g in a.kernel.used ensures ClientByte(held, g) || FreeByte(a.lists, g) || a.start <= g < a.end {
      NothingLost(a.L(), a.kernel.used, held, g);
    }
  }

  lemma HoldsNone()
    ensures Holds(map[], {}, [])
  {
  }

  lemma HeldBlocks(l: Ledger, used: set<nat>, held: seq<Held>)
    requires Sound(l) && Aligned(l) && Holds(l.live, used - l.owner.Keys, held)
    ensures forall h :: h in held ==> h.address > 0 && h.address % ALIGN == 0 && h.size <= h.Extent()
    ensures forall j, k :: 0 <= j < k < |held| ==>
      held[j].address + held[j].Extent() <= held[k].address || held[k].address + held[k].Extent() <= held[j].address
  {
    hide Sound, Aligned;
    forall h | h in held ensures h.address > 0 && h.address % ALIGN == 0 && h.size <= h.Extent() { HeldAligned(l, used - l.owner.Keys, h); }
    forall j, k | 0 <= j < k < |held|
      ensures held[j].address + held[j].Extent() <= held[k].address || held[k].address + held[k].Extent() <= held[j].address
    {
      assert held[j] in held && held[k] in held;
      TwoApart(l, used, held[j], held[k]);
    }
  }

  lemma TwoApart(l: Ledger, used: set<nat>, g: Held, h: Held)
    requires Sound(l) && Aligned(l) && HeldOk(l.live, used - l.owner.Keys, g) && HeldOk(l.live, used - l.owner.Keys, h) && Distinct(g, h)
    ensures g.address + g.Extent() <= h.address || h.address + h.Extent() <= g.address
  {
    hide Sound, Aligned;
    HeldAligned(l, used - l.owner.Keys, g);
    HeldAligned(l, used - l.owner.Keys, h);
    if g.Small() && h.Small() {
      Apart(l, FreeListIndex(g.size), g.address, FreeListIndex(h.size), h.address);
    } else {
      var x := if g.address <= h.address then h.address else g.address;
      if g.Small() { ExtentOwned(l, g, x); } else { assert Within(g.address, g.size, x) ==> x in Region(g.address, g.size); }
      if h.Small() { ExtentOwned(l, h, x); } else { assert Within(h.address, h.size, x) ==> x in Region(h.address, h.size); }
    }
  }

  lemma ExtentOwned(l: Ledger, h: Held, x: nat)
    requires Sound(l) && h.Small() && IsBlock(l, FreeListIndex(h.size), h.address)
    ensures Within(h.address, h.Extent(), x) ==> x in l.owner
  {
    BlockOwned(l, FreeListIndex(h.size), h.address);
    assert Within(h.address, h.Extent(), x) ==> Covers(FreeListIndex(h.size), h.address, x);
  }

  lemma Apart(l: Ledger, i: nat, b: nat, j: nat, c: nat)
    requires Sound(l) && IsBlock(l, i, b) && IsBlock(l, j, c) && b != c
    ensures b + BlockSize(i) <= c || c + BlockSize(j) <= b
  {
    if b <= c < b + BlockSize(i) { BlocksDisjoint(l, i, b, j, c, c); }
    if c <= b < c + BlockSize(j) { BlocksDisjoint(l, i, b, j, c, b); }
  }

  lemma NothingLost(l: Ledger, used: set<nat>, held: seq<Held>, g: nat)
    requires Sound(l) && l.loose == l.looseEnd && g in used && Holds(l.live, used - l.owner.Keys, held)
    ensures ClientByte(held, g) || FreeByte(l.lists, g) || l.start <= g < l.end
  {
    if g !in l.owner {
      assert LargeHeld(held, g);
      var h :| h in held && !h.Small() && g in Region(h.address, h.size);
    } else {
      NoByteLost(l, g);
      if !(l.start <= g < l.end) {
        var i: nat, b: nat :| IsBlock(l, i, b) && b <= g < b + BlockSize(i);
        if b !in l.lists[i] { assert LiveHeld(held, b); } else { assert Covers(i, b, g); }
      }
    }
  }
}
