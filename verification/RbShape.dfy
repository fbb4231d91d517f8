/** The pointer structure of the red-black tree: an arena of nodes linked by
    left, right and parent indices, with index HEADER for the header cell.

    Every node carries a ghost span [lo, hi) of the in-order sequence `ord` and
    its own position `at` in it.  All structural invariants are then local: they
    relate a node to its parent and its children only. */
module RbShape {
  const NULL := -1
  const HEADER := 0

  datatype Shape = Shape(left: seq<int>, right: seq<int>, parent: seq<int>,
                         ord: seq<int>, lo: seq<int>, at: seq<int>, hi: seq<int>)
  {
    ghost predicate Sized() {
      1 <= |left| == |right| == |parent| == |lo| == |at| == |hi|
    }

    ghost predicate IsNode(p: int) requires Sized() {
      0 < p < |left| && 0 <= at[p] < |ord| && ord[at[p]] == p
    }

    ghost predicate Span(p: int) requires Sized() && IsNode(p) {
      0 <= lo[p] <= at[p] < hi[p] <= |ord|
    }

    ghost predicate LeftOk(p: int) requires Sized() && IsNode(p) {
      var c := left[p];
      if c == NULL then lo[p] == at[p]
      else IsNode(c) && parent[c] == p && lo[c] == lo[p] && hi[c] == at[p]
    }

    ghost predicate RightOk(p: int) requires Sized() && IsNode(p) {
      var c := right[p];
      if c == NULL then hi[p] == at[p] + 1
      else IsNode(c) && parent[c] == p && lo[c] == at[p] + 1 && hi[c] == hi[p]
    }

    ghost predicate Up(p: int) requires Sized() && IsNode(p) {
      && (parent[p] == HEADER ==> p == parent[HEADER])
      && (parent[p] != HEADER ==> IsNode(parent[p]) && (p == left[parent[p]] || p == right[parent[p]]))
    }

    ghost predicate Ok(p: int) requires Sized() {
      IsNode(p) ==> Span(p) && LeftOk(p) && RightOk(p) && Up(p)
    }

    ghost predicate Listed() requires Sized() {
      forall i {:trigger ord[i]} :: 0 <= i < |ord| ==> 0 < ord[i] < |left| && at[ord[i]] == i
    }

    ghost predicate Root() requires Sized() {
      var r := parent[HEADER];
      if r == NULL then ord == []
      else IsNode(r) && parent[r] == HEADER && lo[r] == 0 && hi[r] == |ord|
    }

    ghost predicate Links() {
      Sized() && Listed() && Root() && (forall p {:trigger Ok(p)} :: Ok(p))
    }

    /** The header caches the first and the last node. */
    ghost predicate Ends() requires Sized() {
      && left[HEADER] == (if ord == [] then HEADER else ord[0])
      && right[HEADER] == (if ord == [] then HEADER else ord[|ord| - 1])
    }

    ghost function Mirror(): (m: Shape)
      requires Sized()
      ensures m.Sized() && |m.left| == |left| && |m.ord| == |ord|
    {
      var n := |ord|;
      Shape(right, left, parent,
            seq(n, i requires 0 <= i < n => ord[n - 1 - i]),
            seq(|hi|, p requires 0 <= p < |hi| => n - hi[p]),
            seq(|at|, p requires 0 <= p < |at| => n - 1 - at[p]),
            seq(|lo|, p requires 0 <= p < |lo| => n - lo[p]))
    }
  }

  lemma MirrorOk(s: Shape, p: int)
    requires s.Sized()
    ensures s.Mirror().IsNode(p) <==> s.IsNode(p)
    ensures s.Mirror().Ok(p) <==> s.Ok(p)
  {
    var m := s.Mirror();
    assert forall q :: m.IsNode(q) <==> s.IsNode(q);
    if s.IsNode(p) {
      assert m.Span(p) <==> s.Span(p);
      assert m.Up(p) <==> s.Up(p);
    }
  }

  lemma MirrorLinks(s: Shape)
    requires s.Links()
    ensures s.Mirror().Links()
  {
    forall p ensures s.Mirror().Ok(p) { assert s.Ok(p); MirrorOk(s, p); }
    if s.parent[HEADER] != NULL { MirrorOk(s, s.parent[HEADER]); }
  }

  lemma SpanOf(s: Shape, p: int)
    requires s.Links() && s.IsNode(p)
    ensures 0 <= s.lo[p] <= s.hi[p] <= |s.ord| && 0 <= s.parent[p] < |s.left|
  {
    assert s.Ok(p);
  }

  /** The number of nodes in the subtree of p; everything for the header. */
  ghost function Width(s: Shape, p: int): int
    requires s.Sized()
  {
    if p == HEADER then |s.ord| + 1 else if 0 < p < |s.left| then s.hi[p] - s.lo[p] else 0
  }

  lemma WidthBound(s: Shape, p: int)
    requires s.Links() && (s.IsNode(p) || p == HEADER)
    ensures 0 <= Width(s, p) <= |s.ord| + 1
  {
    assert s.Ok(p);
  }

  lemma SpanGrows(s: Shape, p: int)
    requires s.Links() && s.IsNode(p)
    ensures Width(s, s.parent[p]) > Width(s, p)
  {
    assert s.Ok(p);
    assert s.Ok(s.parent[p]);
  }

  // ---------- rotation ----------

  lemma AroundRight(s: Shape, x: int)
    requires s.Links() && s.IsNode(x) && s.right[x] != NULL
    ensures var y := s.right[x];
      0 < y < |s.left| && y != x && s.parent[y] == x && s.left[y] != y
    ensures var c := s.left[s.right[x]]; c != x && (c != NULL ==> 0 < c < |s.left|)
    ensures s.Sized() && Hangs(s, x) && s.parent[x] != x && s.parent[x] != s.right[x]
  {
    assert s.Ok(x);
    assert s.Ok(s.right[x]);
    assert s.Ok(s.left[s.right[x]]);
    assert s.Ok(s.parent[x]);
  }

  /** Exactly one link points down to z: the header's, or one of its parent's. */
  ghost predicate Hangs(s: Shape, z: int)
    requires s.Sized() && 0 < z < |s.left|
  {
    && 0 <= s.parent[z] < |s.left|
    && (s.parent[HEADER] == z <==> s.parent[z] == HEADER)
    && (s.parent[z] != HEADER ==> (s.left[s.parent[z]] == z) != (s.right[s.parent[z]] == z))
  }

  ghost predicate RotatedLeft(s: Shape, t: Shape, x: int, y: int)
  {
    var N := |s.left|;
    && s.Sized() && t.Sized() && |t.left| == N && 0 < x < N && 0 < y < N
    && t.ord == s.ord && t.at == s.at
    && t.left[HEADER] == s.left[HEADER] && t.right[HEADER] == s.right[HEADER]
    && (forall p {:trigger t.lo[p]} :: 0 <= p < N ==> t.lo[p] == if p == y then s.lo[x] else s.lo[p])
    && (forall p {:trigger t.hi[p]} :: 0 <= p < N ==>
          t.hi[p] == if p == y then s.hi[x] else if p == x then s.at[y] else s.hi[p])
    && (forall p {:trigger t.parent[p]} :: 0 <= p < N ==>
          t.parent[p] == if p == x then y else if p == y then s.parent[x]
                         else if p == s.left[y] then x
                         else if p == HEADER && s.parent[p] == x then y else s.parent[p])
    && (forall p {:trigger t.left[p]} :: 0 < p < N ==>
          t.left[p] == if p == y then x else if p == s.parent[x] && s.left[p] == x then y else s.left[p])
    && (forall p {:trigger t.right[p]} :: 0 < p < N ==>
          t.right[p] == if p == x then s.left[y] else if p == s.parent[x] && s.right[p] == x then y else s.right[p])
  }

  lemma RotatedLeftOfLeft(s: Shape, t: Shape, x: int, y: int, p: int)
    requires s.Links() && s.IsNode(x) && y == s.right[x] && y != NULL
    requires RotatedLeft(s, t, x, y) && s.IsNode(p)
    ensures t.Span(p) && t.LeftOk(p)
  {
    assert s.Ok(x);
    assert s.Ok(y);
    assert s.Ok(p);
    assert s.left[p] != NULL ==> s.Ok(s.left[p]);
  }

  lemma RotatedLeftOfRight(s: Shape, t: Shape, x: int, y: int, p: int)
    requires s.Links() && s.IsNode(x) && y == s.right[x] && y != NULL
    requires RotatedLeft(s, t, x, y) && s.IsNode(p)
    ensures t.RightOk(p)
  {
    assert s.Ok(x);
    assert s.Ok(y);
    assert s.Ok(p);
    assert s.right[p] != NULL ==> s.Ok(s.right[p]);
  }

  lemma RotatedLeftUp(s: Shape, t: Shape, x: int, y: int, p: int)
    requires s.Links() && s.IsNode(x) && y == s.right[x] && y != NULL
    requires RotatedLeft(s, t, x, y) && s.IsNode(p)
    ensures t.Up(p)
  {
    assert s.Ok(x);
    assert s.Ok(y);
    assert s.Ok(p);
    assert s.parent[p] != HEADER ==> s.Ok(s.parent[p]);
  }

  lemma RotatedLeftLinks(s: Shape, t: Shape, x: int, y: int)
    requires s.Links() && s.IsNode(x) && y == s.right[x] && y != NULL
    requires RotatedLeft(s, t, x, y)
    ensures t.Links()
  {
    assert s.Ok(x);
    assert s.Ok(y);
    forall p ensures t.Ok(p) {
      if s.IsNode(p) {
        RotatedLeftOfLeft(s, t, x, y, p);
        RotatedLeftOfRight(s, t, x, y, p);
        RotatedLeftUp(s, t, x, y, p);
      }
    }
    assert s.Ok(s.parent[HEADER]);
  }

  lemma MirrorBack(t: Shape)
    requires t.Sized() && t.Mirror().Links()
    ensures t.Links()
  {
    forall p ensures t.Ok(p) {
      assert t.Mirror().Ok(p);
      MirrorOk(t, p);
    }
    assert t.Root() by {
      if t.parent[HEADER] != NULL { MirrorOk(t, t.parent[HEADER]); }
    }
    forall i | 0 <= i < |t.ord| ensures 0 < t.ord[i] < |t.left| && t.at[t.ord[i]] == i {
      var j := |t.ord| - 1 - i;
      assert t.Mirror().ord[j] == t.ord[i];
    }
  }

  ghost predicate RotatedRight(s: Shape, t: Shape, x: int, y: int)
  {
    var N := |s.left|;
    && s.Sized() && t.Sized() && |t.left| == N && 0 < x < N && 0 < y < N
    && t.ord == s.ord && t.at == s.at
    && t.left[HEADER] == s.left[HEADER] && t.right[HEADER] == s.right[HEADER]
    && (forall p {:trigger t.lo[p]} :: 0 <= p < N ==>
          t.lo[p] == if p == y then s.lo[x] else if p == x then s.at[y] + 1 else s.lo[p])
    && (forall p {:trigger t.hi[p]} :: 0 <= p < N ==> t.hi[p] == if p == y then s.hi[x] else s.hi[p])
    && (forall p {:trigger t.parent[p]} :: 0 <= p < N ==>
          t.parent[p] == if p == x then y else if p == y then s.parent[x]
                         else if p == s.right[y] then x
                         else if p == HEADER && s.parent[p] == x then y else s.parent[p])
    && (forall p {:trigger t.right[p]} :: 0 < p < N ==>
          t.right[p] == if p == y then x else if p == s.parent[x] && s.right[p] == x then y else s.right[p])
    && (forall p {:trigger t.left[p]} :: 0 < p < N ==>
          t.left[p] == if p == x then s.right[y] else if p == s.parent[x] && s.left[p] == x then y else s.left[p])
  }

  lemma RotatedRightMirror(s: Shape, t: Shape, x: int, y: int)
    requires RotatedRight(s, t, x, y)
    ensures RotatedLeft(s.Mirror(), t.Mirror(), x, y)
  {
  }

  lemma AroundLeft(s: Shape, x: int)
    requires s.Links() && s.IsNode(x) && s.left[x] != NULL
    ensures var y := s.left[x];
      0 < y < |s.left| && y != x && s.parent[y] == x && s.right[y] != y
    ensures var c := s.right[s.left[x]]; c != x && (c != NULL ==> 0 < c < |s.left|)
    ensures s.Sized() && Hangs(s, x) && s.parent[x] != x && s.parent[x] != s.left[x]
  {
    assert s.Ok(x);
    assert s.Ok(s.left[x]);
    assert s.Ok(s.right[s.left[x]]);
    assert s.Ok(s.parent[x]);
  }

  // ---------- unlinking a node with at most one child ----------

  function Close(k: int, i: int): int { if i > k then i - 1 else i }

  ghost function CloseAll(k: int, s: seq<int>): (r: seq<int>)
    ensures |r| == |s|
    ensures forall p {:trigger r[p]} :: 0 <= p < |s| ==> r[p] == Close(k, s[p])
  {
    seq(|s|, p requires 0 <= p < |s| => Close(k, s[p]))
  }

  ghost predicate Removed(s: Shape, t: Shape, z: int)
  {
    && s.Sized() && t.Sized() && |t.left| == |s.left| && s.IsNode(z)
    && t.ord == s.ord[..s.at[z]] + s.ord[s.at[z] + 1..]
    && (forall p {:trigger t.at[p]} :: 0 <= p < |s.left| ==>
          t.at[p] == if p == z then -1 else Close(s.at[z], s.at[p]))
  }

  lemma RemovedNodes(s: Shape, t: Shape, z: int, p: int)
    requires Removed(s, t, z) && s.Listed()
    ensures t.IsNode(p) <==> s.IsNode(p) && p != z
  {
    var k := s.at[z];
    if 0 < p < |t.left| {
      if t.IsNode(p) && p != z {
        var i := t.at[p];
        assert t.ord[i] == if i < k then s.ord[i] else s.ord[i + 1];
      }
    }
  }

  lemma RemovedListed(s: Shape, t: Shape, z: int)
    requires Removed(s, t, z) && s.Listed()
    ensures t.Listed()
  {
    var k := s.at[z];
    forall i | 0 <= i < |t.ord| ensures 0 < t.ord[i] < |t.left| && t.at[t.ord[i]] == i {
      assert t.ord[i] == if i < k then s.ord[i] else s.ord[i + 1];
    }
  }

  /** t is s with node z replaced by its only child x (or by nothing). */
  ghost predicate Unlinked(s: Shape, t: Shape, z: int, x: int)
  {
    var N := |s.left|;
    && Removed(s, t, z)
    && (forall p {:trigger t.lo[p]} :: 0 <= p < N ==> t.lo[p] == Close(s.at[z], s.lo[p]))
    && (forall p {:trigger t.hi[p]} :: 0 <= p < N ==> t.hi[p] == Close(s.at[z], s.hi[p]))
    && (forall p {:trigger t.parent[p]} :: 0 <= p < N ==>
          t.parent[p] == if p == x then s.parent[z]
                         else if p == HEADER && s.parent[p] == z then x else s.parent[p])
    && (forall p {:trigger t.left[p]} :: 0 < p < N ==>
          t.left[p] == if p == s.parent[z] && s.left[p] == z then x else s.left[p])
    && (forall p {:trigger t.right[p]} :: 0 < p < N ==>
          t.right[p] == if p == s.parent[z] && s.right[p] == z then x else s.right[p])
  }

  ghost predicate OnlyChild(s: Shape, z: int, x: int)
    requires s.Sized() && s.IsNode(z)
  {
    (s.left[z] == NULL && s.right[z] == x) || (s.right[z] == NULL && s.left[z] == x)
  }

  lemma UnlinkedLeft(s: Shape, t: Shape, z: int, x: int, p: int)
    requires s.Links() && s.IsNode(z) && OnlyChild(s, z, x) && Unlinked(s, t, z, x)
    requires s.IsNode(p) && p != z
    ensures t.IsNode(p) && t.Span(p) && t.LeftOk(p)
  {
    assert s.Ok(z);
    assert s.Ok(p);
    assert s.left[p] != NULL ==> s.Ok(s.left[p]);
    RemovedNodes(s, t, z, p);
    RemovedNodes(s, t, z, x);
    RemovedNodes(s, t, z, s.left[p]);
    assert x != NULL ==> s.Ok(x);
  }

  lemma UnlinkedRight(s: Shape, t: Shape, z: int, x: int, p: int)
    requires s.Links() && s.IsNode(z) && OnlyChild(s, z, x) && Unlinked(s, t, z, x)
    requires s.IsNode(p) && p != z
    ensures t.IsNode(p) && t.RightOk(p)
  {
    assert s.Ok(z);
    assert s.Ok(p);
    assert s.right[p] != NULL ==> s.Ok(s.right[p]);
    RemovedNodes(s, t, z, p);
    RemovedNodes(s, t, z, x);
    RemovedNodes(s, t, z, s.right[p]);
    assert x != NULL ==> s.Ok(x);
  }

  lemma UnlinkedUp(s: Shape, t: Shape, z: int, x: int, p: int)
    requires s.Links() && s.IsNode(z) && OnlyChild(s, z, x) && Unlinked(s, t, z, x)
    requires s.IsNode(p) && p != z
    ensures t.IsNode(p) && t.Up(p)
  {
    assert s.Ok(z);
    assert s.Ok(p);
    RemovedNodes(s, t, z, p);
    RemovedNodes(s, t, z, s.parent[p]);
    RemovedNodes(s, t, z, s.parent[z]);
    assert x != NULL ==> s.Ok(x);
  }

  lemma UnlinkedLinks(s: Shape, t: Shape, z: int, x: int)
    requires s.Links() && s.IsNode(z) && OnlyChild(s, z, x) && Unlinked(s, t, z, x)
    ensures t.Links()
  {
    RemovedListed(s, t, z);
    forall p ensures t.Ok(p) {
      RemovedNodes(s, t, z, p);
      if t.IsNode(p) {
        UnlinkedLeft(s, t, z, x, p);
        UnlinkedRight(s, t, z, x, p);
        UnlinkedUp(s, t, z, x, p);
      }
    }
    assert t.Root() by {
      assert s.Ok(z);
      RemovedNodes(s, t, z, s.parent[HEADER]);
      RemovedNodes(s, t, z, x);
    }
  }

  /** Taking out the first node when it is a leaf makes its parent the first node. */
  lemma FirstAfterUnlink(s: Shape, t: Shape, z: int, x: int)
    requires s.Links() && s.IsNode(z) && OnlyChild(s, z, x) && Unlinked(s, t, z, x) && s.at[z] == 0
    ensures s.right[z] == x
    ensures x == NULL ==> s.parent[z] == (if t.ord == [] then HEADER else t.ord[0])
    ensures x != NULL ==> t.IsNode(x) && t.lo[x] == 0
  {
    assert s.Ok(z);
    assert s.Ok(s.left[z]);
    assert s.Ok(s.right[z]);
    assert s.Ok(s.parent[z]);
    if x != NULL { RemovedNodes(s, t, z, x); }
  }

  lemma LastAfterUnlink(s: Shape, t: Shape, z: int, x: int)
    requires s.Links() && s.IsNode(z) && OnlyChild(s, z, x) && Unlinked(s, t, z, x) && s.at[z] == |s.ord| - 1
    ensures s.left[z] == x
    ensures x == NULL ==> s.parent[z] == (if t.ord == [] then HEADER else t.ord[|t.ord| - 1])
    ensures x != NULL ==> t.IsNode(x) && t.hi[x] == |t.ord|
  {
    assert s.Ok(z);
    assert s.Ok(s.left[z]);
    assert s.Ok(s.right[z]);
    assert s.Ok(s.parent[z]);
    if x != NULL { RemovedNodes(s, t, z, x); }
  }

  lemma SuccessorExists(s: Shape, z: int, y: int)
    requires s.Links() && s.IsNode(z) && s.left[z] != NULL && s.right[z] != NULL
    requires s.IsNode(y) && s.IsNode(s.right[z]) && s.lo[y] == s.lo[s.right[z]] == s.at[y] && s.left[y] == NULL
    requires y != s.right[z] ==> s.IsNode(s.parent[y]) && s.left[s.parent[y]] == y && s.lo[s.parent[y]] == s.lo[s.right[z]]
    ensures IsSuccessor(s, z, y) && 0 < s.at[z] < |s.ord| - 1
  {
    assert s.Ok(z);
    assert s.Ok(s.left[z]);
    assert s.Ok(s.right[z]);
  }

  lemma ChildRange(s: Shape, p: int)
    requires s.Links() && s.IsNode(p)
    ensures s.left[p] != NULL ==> 0 <= s.left[p] < |s.left|
    ensures s.right[p] != NULL ==> 0 <= s.right[p] < |s.left|
  {
    assert s.Ok(p);
  }

  lemma AroundNode(s: Shape, z: int)
    requires s.Links() && s.IsNode(z)
    ensures Hangs(s, z)
    ensures s.parent[z] != z && s.left[z] != z && s.right[z] != z
    ensures s.left[z] != NULL ==> 0 < s.left[z] < |s.left|
    ensures s.right[z] != NULL ==> 0 < s.right[z] < |s.left|
    ensures s.left[z] != NULL && s.right[z] != NULL ==> s.left[z] != s.right[z]
    ensures s.left[z] != s.parent[z] && s.right[z] != s.parent[z]
  {
    assert s.Ok(z);
    assert s.Ok(s.left[z]);
    assert s.Ok(s.right[z]);
    assert s.Ok(s.parent[z]);
  }

  // ---------- relinking the successor y in place of z ----------

  ghost predicate IsSuccessor(s: Shape, z: int, y: int)
    requires s.Sized() && s.IsNode(z)
  {
    && s.left[z] != NULL && s.right[z] != NULL
    && s.IsNode(y) && s.at[y] == s.at[z] + 1 && s.left[y] == NULL
    && (y != s.right[z] ==> 0 < s.parent[y] < |s.left| && s.parent[y] != z && s.left[s.parent[y]] == y)
  }

  /** t is s with z taken out, its successor y put in its place, and y's right
      child x put in the place of y. */
  ghost predicate Relinked(s: Shape, t: Shape, z: int, y: int)
  {
    && Removed(s, t, z) && IsSuccessor(s, z, y)
    && RelinkedPointers(s, t, z, y)
    && (forall p {:trigger t.lo[p]} :: 0 <= p < |s.left| ==>
          t.lo[p] == if p == y then s.lo[z] else Close(s.at[z] + 1, s.lo[p]))
    && (forall p {:trigger t.hi[p]} :: 0 <= p < |s.left| ==>
          t.hi[p] == if p == y then s.hi[z] - 1 else Close(s.at[z], s.hi[p]))
  }

  ghost predicate RelinkedPointers(s: Shape, t: Shape, z: int, y: int)
  {
    var N := |s.left|;
    && s.Sized() && t.Sized() && |t.left| == N && 0 < z < N && 0 < y < N
    && t.left[HEADER] == s.left[HEADER] && t.right[HEADER] == s.right[HEADER]
    && (forall p {:trigger t.parent[p]} :: 0 <= p < N ==>
          t.parent[p] == if p == y then s.parent[z]
                         else if p == s.left[z] || p == s.right[z] then y
                         else if p == s.right[y] && y != s.right[z] then s.parent[y]
                         else if p == HEADER && s.parent[p] == z then y else s.parent[p])
    && (forall p {:trigger t.left[p]} :: 0 < p < N ==>
          t.left[p] == if p == y then s.left[z]
                       else if p == s.parent[z] && s.left[p] == z then y
                       else if p == s.parent[y] && s.left[p] == y then s.right[y] else s.left[p])
    && (forall p {:trigger t.right[p]} :: 0 < p < N ==>
          t.right[p] == if p == y then if y == s.right[z] then s.right[y] else s.right[z]
                        else if p == s.parent[z] && s.right[p] == z then y else s.right[p])
  }

  lemma AroundSuccessor(s: Shape, z: int, y: int)
    requires s.Links() && s.IsNode(z) && IsSuccessor(s, z, y)
    ensures Hangs(s, z) && z != y && y != s.left[z] && y != s.parent[z]
    ensures 0 < s.left[z] < |s.left| && 0 < s.right[z] < |s.left| && s.left[z] != s.right[z]
    ensures s.left[z] != s.parent[z] && s.right[z] != s.parent[z] && s.parent[z] != z
    ensures s.left[z] != z && s.right[z] != z
    ensures s.right[y] != NULL ==> 0 < s.right[y] < |s.left|
    ensures s.right[y] !in {z, y, s.left[z], s.right[z]}
    ensures 0 < s.parent[y] < |s.left| && s.parent[y] != s.parent[z] && s.parent[y] != y
    ensures y != s.right[z] ==> s.parent[y] != z && s.right[s.parent[y]] != y
    ensures y == s.right[z] ==> s.parent[y] == z
    ensures s.parent[z] != HEADER ==> s.left[s.parent[z]] != y && s.right[s.parent[z]] != y
  {
    AroundNode(s, z);
    AroundNode(s, y);
    assert s.Ok(z);
    assert s.Ok(y);
    assert s.Ok(s.parent[y]);
    assert s.Ok(s.right[y]);
    assert s.Ok(s.parent[z]);
  }

  lemma RelinkedSpan(s: Shape, t: Shape, z: int, y: int, p: int)
    requires s.Links() && Relinked(s, t, z, y) && s.IsNode(p) && p != z
    ensures t.IsNode(p) && t.Span(p)
  {
    assert s.Ok(z);
    assert s.Ok(p);
    assert s.Ok(s.right[z]);
    RemovedNodes(s, t, z, p);
  }

  lemma RelinkedLeft(s: Shape, t: Shape, z: int, y: int, p: int)
    requires s.Links() && Relinked(s, t, z, y) && s.IsNode(p) && p != z
    ensures t.IsNode(p) && t.LeftOk(p)
  {
    assert s.Ok(z);
    assert s.Ok(y);
    assert s.Ok(p);
    assert s.Ok(s.left[p]);
    assert s.Ok(s.right[y]);
    RemovedNodes(s, t, z, p);
    RemovedNodes(s, t, z, y);
    RemovedNodes(s, t, z, s.left[z]);
    RemovedNodes(s, t, z, s.right[y]);
    RemovedNodes(s, t, z, s.left[p]);
  }

  lemma RelinkedRight(s: Shape, t: Shape, z: int, y: int, p: int)
    requires s.Links() && Relinked(s, t, z, y) && s.IsNode(p) && p != z
    ensures t.IsNode(p) && t.RightOk(p)
  {
    hide Shape.Listed, Shape.Root;
    assert s.Ok(z);
    assert s.Ok(y);
    assert s.Ok(p);
    assert s.Ok(s.right[p]);
    assert s.Ok(s.right[z]);
    assert s.Ok(s.right[y]);
    RemovedNodes(s, t, z, p);
    RemovedNodes(s, t, z, y);
    RemovedNodes(s, t, z, s.right[z]);
    RemovedNodes(s, t, z, s.right[y]);
    RemovedNodes(s, t, z, s.right[p]);
  }

  lemma RelinkedUp(s: Shape, t: Shape, z: int, y: int, p: int)
    requires s.Links() && Relinked(s, t, z, y) && s.IsNode(p) && p != z
    ensures t.IsNode(p) && t.Up(p)
  {
    assert s.Ok(z);
    assert s.Ok(y);
    assert s.Ok(p);
    RemovedNodes(s, t, z, p);
    RemovedNodes(s, t, z, y);
    RemovedNodes(s, t, z, s.parent[p]);
    RemovedNodes(s, t, z, s.parent[z]);
    RemovedNodes(s, t, z, s.parent[y]);
  }

  lemma RelinkedLinks(s: Shape, t: Shape, z: int, y: int)
    requires s.Links() && Relinked(s, t, z, y)
    ensures t.Links()
  {
    RemovedListed(s, t, z);
    forall p ensures t.Ok(p) {
      RemovedNodes(s, t, z, p);
      if t.IsNode(p) {
        RelinkedSpan(s, t, z, y, p);
        RelinkedLeft(s, t, z, y, p);
        RelinkedRight(s, t, z, y, p);
        RelinkedUp(s, t, z, y, p);
      }
    }
    assert t.Root() by {
      assert s.Ok(z);
      assert s.Ok(y);
      assert s.Ok(s.parent[HEADER]);
      RemovedNodes(s, t, z, s.parent[HEADER]);
      RemovedNodes(s, t, z, y);
    }
  }

  // ---------- linking a new leaf ----------

  function Open(k: int, i: int): int { if i >= k then i + 1 else i }

  ghost function OpenAll(k: int, s: seq<int>): (r: seq<int>)
    ensures |r| == |s|
    ensures forall p {:trigger r[p]} :: 0 <= p < |s| ==> r[p] == Open(k, s[p])
  {
    seq(|s|, p requires 0 <= p < |s| => Open(k, s[p]))
  }

  /** t is s with the new node z, at in-order position k, as the left or the
      right child of y; y is HEADER exactly when s is empty. */
  ghost predicate Inserted(s: Shape, t: Shape, z: int, y: int, asLeft: bool, k: int)
  {
    && Vacant(s, y, asLeft, k) && LeafLinked(s, t, z, y, asLeft)
    && t.ord == s.ord[..k] + [z] + s.ord[k..]
    && t.lo[z] == k && t.at[z] == k && t.hi[z] == k + 1
    && (forall p {:trigger t.at[p]} :: 0 <= p < z ==> t.at[p] == Open(k, s.at[p]))
    && (forall p {:trigger t.lo[p]} :: 0 <= p < z ==> t.lo[p] == Open(if asLeft then k + 1 else k, s.lo[p]))
    && (forall p {:trigger t.hi[p]} :: 0 <= p < z ==> t.hi[p] == Open(if asLeft then k + 1 else k, s.hi[p]))
  }

  ghost predicate LeafLinked(s: Shape, t: Shape, z: int, y: int, asLeft: bool)
  {
    var N := |s.left|;
    && s.Sized() && t.Sized() && z == N && |t.left| == N + 1
    && t.left[z] == NULL && t.right[z] == NULL && t.parent[z] == y
    && (forall p {:trigger t.parent[p]} :: 0 <= p < N ==>
          t.parent[p] == if p == HEADER && y == HEADER then z else s.parent[p])
    && (forall p {:trigger t.left[p]} :: 0 < p < N ==> t.left[p] == if p == y && asLeft then z else s.left[p])
    && (forall p {:trigger t.right[p]} :: 0 < p < N ==> t.right[p] == if p == y && !asLeft then z else s.right[p])
  }

  /** Where a new leaf may be linked: below y, on the given side, at position k. */
  ghost predicate Vacant(s: Shape, y: int, asLeft: bool, k: int) {
    && s.Sized() && 0 <= k <= |s.ord|
    && (y == HEADER <==> s.ord == []) && (y != HEADER ==> s.IsNode(y))
    && (y != HEADER && asLeft ==> s.left[y] == NULL && k == s.at[y])
    && (y != HEADER && !asLeft ==> s.right[y] == NULL && k == s.at[y] + 1)
    && (y == HEADER ==> asLeft)
  }

  lemma InsertedNodes(s: Shape, t: Shape, z: int, y: int, asLeft: bool, k: int, p: int)
    requires s.Sized() && s.Listed() && Inserted(s, t, z, y, asLeft, k)
    ensures t.IsNode(p) <==> s.IsNode(p) || p == z
  {
    if 0 < p < |s.left| {
      if t.IsNode(p) {
        var i := t.at[p];
        assert t.ord[i] == if i < k then s.ord[i] else if i == k then z else s.ord[i - 1];
      }
    }
  }

  lemma InsertedListed(s: Shape, t: Shape, z: int, y: int, asLeft: bool, k: int)
    requires s.Sized() && s.Listed() && Inserted(s, t, z, y, asLeft, k)
    ensures t.Listed()
  {
    forall i | 0 <= i < |t.ord| ensures 0 < t.ord[i] < |t.left| && t.at[t.ord[i]] == i {
      assert t.ord[i] == if i < k then s.ord[i] else if i == k then z else s.ord[i - 1];
    }
  }

  lemma InsertedOk(s: Shape, t: Shape, z: int, y: int, asLeft: bool, k: int, p: int)
    requires s.Links() && Inserted(s, t, z, y, asLeft, k) && s.IsNode(p)
    ensures t.IsNode(p) && t.Span(p) && t.LeftOk(p) && t.RightOk(p) && t.Up(p)
  {
    assert s.Ok(p);
    assert s.Ok(y);
    InsertedNodes(s, t, z, y, asLeft, k, p);
    InsertedNodes(s, t, z, y, asLeft, k, z);
    InsertedNodes(s, t, z, y, asLeft, k, s.left[p]);
    InsertedNodes(s, t, z, y, asLeft, k, s.right[p]);
    InsertedNodes(s, t, z, y, asLeft, k, s.parent[p]);
  }

  lemma InsertedLinks(s: Shape, t: Shape, z: int, y: int, asLeft: bool, k: int)
    requires s.Links() && Inserted(s, t, z, y, asLeft, k)
    ensures t.Links()
  {
    InsertedListed(s, t, z, y, asLeft, k);
    forall p ensures t.Ok(p) {
      InsertedNodes(s, t, z, y, asLeft, k, p);
      InsertedNodes(s, t, z, y, asLeft, k, y);
      if s.IsNode(p) { InsertedOk(s, t, z, y, asLeft, k, p); }
    }
    InsertedNodes(s, t, z, y, asLeft, k, z);
    InsertedNodes(s, t, z, y, asLeft, k, s.parent[HEADER]);
    assert s.Ok(s.parent[HEADER]);
  }

  lemma EndsAfterInsert(s: Shape, t: Shape, z: int, y: int, asLeft: bool, k: int)
    requires s.Links() && s.Ends() && Inserted(s, t, z, y, asLeft, k)
    requires t.left[HEADER] == if asLeft && (y == HEADER || y == s.left[HEADER]) then z else s.left[HEADER]
    requires t.right[HEADER] == if y == HEADER || (!asLeft && y == s.right[HEADER]) then z else s.right[HEADER]
    ensures t.Ends()
  {
    if y != HEADER { assert s.Ok(y); }
    assert s.ord != [] ==> s.IsNode(s.ord[0]) && s.IsNode(s.ord[|s.ord| - 1]);
  }

  // ---------- spans nest ----------

  /** A node positioned inside the span of a has its whole span inside it. */
  lemma {:induction false} SpansNest(s: Shape, a: int, b: int)
    requires s.Links() && s.IsNode(a) && s.IsNode(b) && s.lo[a] <= s.at[b] < s.hi[a]
    ensures s.lo[a] <= s.lo[b] && s.hi[b] <= s.hi[a]
    decreases s.hi[a] - s.lo[a]
  {
    assert s.Ok(a);
    assert s.Ok(b);
    if s.at[b] < s.at[a] {
      assert s.Ok(s.left[a]);
      SpansNest(s, s.left[a], b);
    } else if s.at[b] > s.at[a] {
      assert s.Ok(s.right[a]);
      SpansNest(s, s.right[a], b);
    }
  }

  /** Between two neighbours in the order, one of the two facing sides is free. */
  lemma BetweenNeighbours(s: Shape, b: int, p: int)
    requires s.Links() && s.IsNode(b) && s.IsNode(p) && s.at[b] + 1 == s.at[p]
    ensures s.right[b] == NULL || s.left[p] == NULL
  {
    assert s.Ok(b);
    assert s.Ok(p);
    assert s.Ok(s.right[b]);
    assert s.Ok(s.left[p]);
    if s.right[b] != NULL { SpansNest(s, s.right[b], p); }
  }
}
