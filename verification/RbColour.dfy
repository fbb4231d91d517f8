/** Colours and black heights over a linked shape: what each recolouring and
    rotation of the insert and erase fix-ups does to the red-black conditions. */
module RbColour {
  import opened RbShape
  import opened Powers

  ghost function H(bh: seq<int>, p: int): int { if 0 <= p < |bh| then bh[p] else 0 }

  ghost predicate Red(red: seq<bool>, p: int) { 0 <= p < |red| && red[p] }

  ghost function Blacken(red: seq<bool>, x: int): (r: seq<bool>)
    ensures |r| == |red|
    ensures forall q {:trigger Red(r, q)} :: Red(r, q) == (q != x && Red(red, q))
  {
    if 0 <= x < |red| then red[x := false] else red
  }

  ghost function Weight(red: seq<bool>, p: int): int { if Red(red, p) then 0 else 1 }

  /** Both subtrees of p have the same black height, and bh[p] counts it. */
  ghost predicate Bal(s: Shape, red: seq<bool>, bh: seq<int>, p: int)
    requires s.Sized()
  {
    s.IsNode(p) ==>
      && 0 <= H(bh, s.left[p]) == H(bh, s.right[p])
      && H(bh, p) == H(bh, s.left[p]) + Weight(red, p)
  }

  ghost predicate NoRedRed(s: Shape, red: seq<bool>, p: int)
    requires s.Sized()
  {
    s.IsNode(p) && Red(red, p) ==> !Red(red, s.left[p]) && !Red(red, s.right[p])
  }

  /** No red node has a red child, and the root is black. */
  ghost predicate NoReds(s: Shape, red: seq<bool>)
    requires s.Sized()
  {
    && !Red(red, s.parent[HEADER])
    && forall p {:trigger NoRedRed(s, red, p)} :: NoRedRed(s, red, p)
  }

  ghost predicate AllBal(s: Shape, red: seq<bool>, bh: seq<int>)
    requires s.Sized()
  {
    forall p {:trigger Bal(s, red, bh, p)} :: Bal(s, red, bh, p)
  }

  ghost predicate Fits(s: Shape, red: seq<bool>, bh: seq<int>) {
    s.Links() && |red| == |bh| == |s.left|
  }

  ghost predicate RedBlack(s: Shape, red: seq<bool>, bh: seq<int>) {
    Fits(s, red, bh) && AllBal(s, red, bh) && NoReds(s, red)
  }

  lemma MirrorColour(s: Shape, red: seq<bool>, bh: seq<int>, p: int)
    requires s.Sized()
    ensures Bal(s.Mirror(), red, bh, p) <==> Bal(s, red, bh, p)
    ensures NoRedRed(s.Mirror(), red, p) <==> NoRedRed(s, red, p)
  {
    MirrorOk(s, p);
  }

  // ---------- insert ----------

  /** Everything holds except that the red node x may have a red parent or be the root. */
  ghost predicate Inserting(s: Shape, red: seq<bool>, bh: seq<int>, x: int) {
    && Fits(s, red, bh) && s.IsNode(x) && red[x]
    && AllBal(s, red, bh) && NoReds(s, Blacken(red, x)) && NoRedRed(s, red, x)
  }

  lemma InsertingParent(s: Shape, red: seq<bool>, bh: seq<int>, x: int)
    requires Inserting(s, red, bh, x) && x != s.parent[HEADER]
    ensures s.IsNode(s.parent[x]) && s.parent[x] != x
    ensures red[s.parent[x]] ==>
      var g := s.parent[s.parent[x]];
      s.parent[x] != s.parent[HEADER] && s.IsNode(g) && g != x && !red[g]
  {
    var p := s.parent[x];
    assert s.Ok(x);
    assert s.Ok(p);
    if red[p] {
      assert s.Ok(s.parent[p]);
      assert NoRedRed(s, Blacken(red, x), s.parent[p]);
    }
  }

  lemma InsertingGrandparent(s: Shape, red: seq<bool>, bh: seq<int>, x: int)
    requires Inserting(s, red, bh, x) && x != s.parent[HEADER] && Red(red, s.parent[x])
    ensures s.IsNode(s.parent[x]) && red[s.parent[x]] && s.IsNode(s.parent[s.parent[x]])
    ensures var p := s.parent[x]; var g := s.parent[p]; p == s.left[g] || p == s.right[g]
    ensures var g := s.parent[s.parent[x]]; s.hi[g] - s.lo[g] > s.hi[x] - s.lo[x]
  {
    InsertingParent(s, red, bh, x);
    assert s.Ok(x) && s.Ok(s.parent[x]) && s.Ok(s.parent[s.parent[x]]);
  }

  lemma MirrorInserting(s: Shape, red: seq<bool>, bh: seq<int>, x: int)
    requires Inserting(s, red, bh, x)
    ensures Inserting(s.Mirror(), red, bh, x)
  {
    MirrorLinks(s);
    MirrorOk(s, x);
    forall p ensures Bal(s.Mirror(), red, bh, p) {
      assert Bal(s, red, bh, p);
      MirrorColour(s, red, bh, p);
    }
    MirrorColour(s, red, bh, x);
    forall p ensures NoRedRed(s.Mirror(), Blacken(red, x), p) {
      assert NoRedRed(s, Blacken(red, x), p);
      MirrorColour(s, Blacken(red, x), bh, p);
    }
  }

  lemma UnmirrorInserting(s: Shape, red: seq<bool>, bh: seq<int>, x: int)
    requires s.Sized() && Inserting(s.Mirror(), red, bh, x)
    ensures Inserting(s, red, bh, x)
  {
    MirrorBack(s);
    MirrorOk(s, x);
    MirrorColour(s, red, bh, x);
    forall p ensures Bal(s, red, bh, p) {
      assert Bal(s.Mirror(), red, bh, p);
      MirrorColour(s, red, bh, p);
    }
    forall p ensures NoRedRed(s, Blacken(red, x), p) {
      assert NoRedRed(s.Mirror(), Blacken(red, x), p);
      MirrorColour(s, Blacken(red, x), bh, p);
    }
  }

  /** The colours after painting r red and b1, b2 black. */
  ghost predicate Painted(red: seq<bool>, red': seq<bool>, b1: int, b2: int, r: int) {
    && |red'| == |red|
    && forall q {:trigger Red(red', q)} ::
         Red(red', q) == (if q == r then true else if q == b1 || q == b2 then false else Red(red, q))
  }

  ghost predicate Raised(bh: seq<int>, bh': seq<int>, a: int, da: int, b: int, db: int) {
    && |bh'| == |bh|
    && forall q {:trigger H(bh', q)} ::
         H(bh', q) == (if q == a then H(bh, q) + da else if q == b then H(bh, q) + db else H(bh, q))
  }

  ghost predicate RedUncle(s: Shape, red: seq<bool>, bh: seq<int>, x: int, p: int, g: int, u: int) {
    && Inserting(s, red, bh, x) && x != s.parent[HEADER]
    && p == s.parent[x] && s.IsNode(p) && red[p]
    && g == s.parent[p] && s.IsNode(g) && s.IsNode(u) && red[u]
    && ((s.left[g] == p && s.right[g] == u) || (s.left[g] == u && s.right[g] == p))
  }

  lemma RecolourBal(s: Shape, red: seq<bool>, bh: seq<int>, x: int, p: int, g: int, u: int,
                    red': seq<bool>, bh': seq<int>, q: int)
    requires RedUncle(s, red, bh, x, p, g, u)
    requires Painted(red, red', p, u, g) && Raised(bh, bh', p, 1, u, 1)
    ensures Bal(s, red', bh', q)
  {
    assert s.Ok(p);
    assert s.Ok(g);
    assert s.Ok(u);
    assert Bal(s, red, bh, q);
    if s.IsNode(q) { assert s.Ok(q); }
    InsertingParent(s, red, bh, x);
  }

  lemma RecolourNoRedRed(s: Shape, red: seq<bool>, bh: seq<int>, x: int, p: int, g: int, u: int,
                         red': seq<bool>, q: int)
    requires RedUncle(s, red, bh, x, p, g, u)
    requires Painted(red, red', p, u, g)
    ensures NoRedRed(s, Blacken(red', g), q)
  {
    assert s.Ok(x);
    assert NoRedRed(s, Blacken(red, x), q);
    if s.IsNode(q) { assert s.Ok(q); }
    assert Red(red', q) ==> Red(red, q) || q == g;
  }

  lemma Recolour(s: Shape, red: seq<bool>, bh: seq<int>, x: int, p: int, g: int, u: int,
                 red': seq<bool>, bh': seq<int>)
    requires RedUncle(s, red, bh, x, p, g, u)
    requires Painted(red, red', p, u, g) && Raised(bh, bh', p, 1, u, 1)
    ensures Inserting(s, red', bh', g)
  {
    forall q ensures Bal(s, red', bh', q) { RecolourBal(s, red, bh, x, p, g, u, red', bh', q); }
    forall q ensures NoRedRed(s, Blacken(red', g), q) { RecolourNoRedRed(s, red, bh, x, p, g, u, red', q); }
    assert Red(red', g);
    assert s.Ok(g);
    assert s.Ok(s.parent[HEADER]);
  }

  /** A red right child x of the red node p is rotated above it. */
  lemma InnerRotation(s: Shape, t: Shape, red: seq<bool>, bh: seq<int>, x: int, p: int)
    requires Inserting(s, red, bh, x) && p == s.parent[x] && s.IsNode(p) && red[p] && x == s.right[p]
    requires RotatedLeft(s, t, p, x)
    ensures Inserting(t, red, bh, p)
  {
    RotatedLeftLinks(s, t, p, x);
    assert s.Ok(x);
    assert s.Ok(p);
    assert Bal(s, red, bh, p);
    assert Bal(s, red, bh, x);
    assert NoRedRed(s, Blacken(red, x), p);
    forall q ensures Bal(t, red, bh, q) && NoRedRed(t, Blacken(red, p), q) {
      assert Bal(s, red, bh, q);
      assert NoRedRed(s, Blacken(red, x), q);
      if s.IsNode(q) { assert s.Ok(q); }
    }
    assert s.Ok(s.parent[HEADER]);
  }

  /** x and its red parent p hang on the same side, `outer`, of p and g; the uncle is black. */
  ghost predicate BlackUncle(s: Shape, red: seq<bool>, bh: seq<int>, x: int, p: int, g: int,
                             inner: seq<int>, outer: seq<int>) {
    && Inserting(s, red, bh, x) && x != s.parent[HEADER] && |inner| == |outer| == |s.left|
    && p == s.parent[x] && s.IsNode(p) && red[p] && x == outer[p]
    && g == s.parent[p] && s.IsNode(g) && p == outer[g] && !Red(red, inner[g])
  }

  lemma OuterRotationBal(s: Shape, t: Shape, red: seq<bool>, bh: seq<int>, x: int, p: int, g: int,
                         red': seq<bool>, bh': seq<int>, q: int)
    requires BlackUncle(s, red, bh, x, p, g, s.left, s.right) && RotatedLeft(s, t, g, p)
    requires Painted(red, red', p, p, g) && Raised(bh, bh', p, 1, g, -1)
    ensures Bal(t, red', bh', q)
  {
    assert s.Ok(p);
    assert s.Ok(g);
    InsertingParent(s, red, bh, x);
    assert Bal(s, red, bh, p);
    assert Bal(s, red, bh, g);
    assert Bal(s, red, bh, q);
    if s.IsNode(q) { assert s.Ok(q); }
  }

  lemma OuterRotationNoRedRed(s: Shape, t: Shape, red: seq<bool>, bh: seq<int>, x: int, p: int, g: int,
                              red': seq<bool>, q: int)
    requires BlackUncle(s, red, bh, x, p, g, s.left, s.right) && RotatedLeft(s, t, g, p)
    requires Painted(red, red', p, p, g)
    ensures NoRedRed(t, red', q)
  {
    assert s.Ok(x);
    assert s.Ok(p);
    assert s.Ok(g);
    InsertingParent(s, red, bh, x);
    assert NoRedRed(s, Blacken(red, x), p);
    assert NoRedRed(s, Blacken(red, x), q);
    if s.IsNode(q) { assert s.Ok(q); }
  }

  lemma OuterRotation(s: Shape, t: Shape, red: seq<bool>, bh: seq<int>, x: int, p: int, g: int,
                      red': seq<bool>, bh': seq<int>)
    requires BlackUncle(s, red, bh, x, p, g, s.left, s.right) && RotatedLeft(s, t, g, p)
    requires Painted(red, red', p, p, g) && Raised(bh, bh', p, 1, g, -1)
    ensures RedBlack(t, red', bh')
    ensures t.IsNode(x) && Red(red', x) && t.parent[x] == p && !Red(red', p)
  {
    RotatedLeftLinks(s, t, g, p);
    assert s.Ok(p);
    assert s.Ok(x);
    forall q ensures Bal(t, red', bh', q) && NoRedRed(t, red', q) {
      OuterRotationBal(s, t, red, bh, x, p, g, red', bh', q);
      OuterRotationNoRedRed(s, t, red, bh, x, p, g, red', q);
    }
    assert !Red(red', t.parent[HEADER]) by {
      assert s.Ok(g);
      InsertingParent(s, red, bh, x);
    }
  }

  lemma RedBlackInserting(s: Shape, red: seq<bool>, bh: seq<int>, x: int)
    requires RedBlack(s, red, bh) && s.IsNode(x) && red[x]
    ensures Inserting(s, red, bh, x)
  {
    forall q ensures NoRedRed(s, Blacken(red, x), q) { assert NoRedRed(s, red, q); }
    assert NoRedRed(s, red, x);
  }

  /** Painting the root black ends the fix-up once x is the root or has a black parent. */
  lemma InsertDone(s: Shape, red: seq<bool>, bh: seq<int>, x: int, red': seq<bool>, bh': seq<int>)
    requires Inserting(s, red, bh, x) && (x == s.parent[HEADER] || !Red(red, s.parent[x]))
    requires red' == Blacken(red, s.parent[HEADER])
    requires Raised(bh, bh', x, if x == s.parent[HEADER] then 1 else 0, NULL, 0)
    ensures RedBlack(s, red', bh')
  {
    forall q ensures Bal(s, red', bh', q) && NoRedRed(s, red', q) {
      assert Bal(s, red, bh, q);
      assert NoRedRed(s, red, x);
      assert NoRedRed(s, Blacken(red, x), q);
      if s.IsNode(q) { assert s.Ok(q); }
      assert s.Ok(x);
    }
    assert s.Ok(s.parent[HEADER]);
  }

  lemma InnerRotationRight(s: Shape, t: Shape, red: seq<bool>, bh: seq<int>, x: int, p: int)
    requires Inserting(s, red, bh, x) && p == s.parent[x] && s.IsNode(p) && red[p] && x == s.left[p]
    requires RotatedRight(s, t, p, x)
    ensures Inserting(t, red, bh, p)
  {
    MirrorInserting(s, red, bh, x);
    MirrorOk(s, p);
    RotatedRightMirror(s, t, p, x);
    InnerRotation(s.Mirror(), t.Mirror(), red, bh, x, p);
    UnmirrorInserting(t, red, bh, p);
  }

  lemma OuterRotationRight(s: Shape, t: Shape, red: seq<bool>, bh: seq<int>, x: int, p: int, g: int,
                           red': seq<bool>, bh': seq<int>)
    requires BlackUncle(s, red, bh, x, p, g, s.right, s.left) && RotatedRight(s, t, g, p)
    requires Painted(red, red', p, p, g) && Raised(bh, bh', p, 1, g, -1)
    ensures RedBlack(t, red', bh')
    ensures t.IsNode(x) && Red(red', x) && t.parent[x] == p && !Red(red', p)
  {
    MirrorInserting(s, red, bh, x);
    MirrorOk(s, p);
    MirrorOk(s, g);
    RotatedRightMirror(s, t, g, p);
    OuterRotation(s.Mirror(), t.Mirror(), red, bh, x, p, g, red', bh');
    UnmirrorRedBlack(t, red', bh');
    MirrorOk(t, x);
  }

  lemma InsertedColour(s: Shape, t: Shape, red: seq<bool>, bh: seq<int>, z: int, y: int, asLeft: bool, k: int)
    requires RedBlack(s, red, bh) && Inserted(s, t, z, y, asLeft, k)
    ensures Inserting(t, red + [true], bh + [0], z)
  {
    var red', bh' := red + [true], bh + [0];
    InsertedLinks(s, t, z, y, asLeft, k);
    InsertedNodes(s, t, z, y, asLeft, k, z);
    forall q ensures Bal(t, red', bh', q) && NoRedRed(t, Blacken(red', z), q) {
      InsertedNodes(s, t, z, y, asLeft, k, q);
      assert Bal(s, red, bh, q);
      assert NoRedRed(s, red, q);
      if s.IsNode(q) { assert s.Ok(q); }
    }
    assert s.Ok(s.parent[HEADER]);
  }

  lemma UnmirrorRedBlack(s: Shape, red: seq<bool>, bh: seq<int>)
    requires s.Sized() && RedBlack(s.Mirror(), red, bh)
    ensures RedBlack(s, red, bh)
  {
    MirrorBack(s);
    forall p ensures Bal(s, red, bh, p) {
      assert Bal(s.Mirror(), red, bh, p);
      MirrorColour(s, red, bh, p);
    }
    forall p ensures NoRedRed(s, red, p) {
      assert NoRedRed(s.Mirror(), red, p);
      MirrorColour(s, red, bh, p);
    }
  }

  // ---------- erase ----------

  /** The subtree x below xp has one black node too few: the paths through it
      fall short by one.  Apart from that, and from x itself possibly being red
      next to another red node, the conditions hold. */
  ghost predicate Erasing(s: Shape, red: seq<bool>, bh: seq<int>, x: int, xp: int) {
    && Fits(s, red, bh)
    && NoReds(s, Blacken(red, x))
    && (forall p {:trigger Bal(s, red, bh, p)} :: p != xp ==> Bal(s, red, bh, p))
    && (xp == HEADER ==> x == s.parent[HEADER])
    && (xp != HEADER ==> s.IsNode(xp))
    && (xp != HEADER ==> Lack(red, bh, s.left, s.right, x, xp) || Lack(red, bh, s.right, s.left, x, xp))
  }

  ghost predicate Lack(red: seq<bool>, bh: seq<int>, near: seq<int>, far: seq<int>, x: int, xp: int) {
    && 0 <= xp < |near| == |far|
    && near[xp] == x && 0 <= H(bh, x) && H(bh, far[xp]) == H(bh, x) + 1
    && H(bh, xp) == H(bh, far[xp]) + Weight(red, xp)
  }

  lemma LackLeft(s: Shape, red: seq<bool>, bh: seq<int>, x: int, xp: int)
    requires Erasing(s, red, bh, x, xp) && xp != HEADER && s.left[xp] == x
    ensures Lack(red, bh, s.left, s.right, x, xp) && s.IsNode(s.right[xp])
  {
    assert s.Ok(xp);
    assert s.Ok(s.left[xp]);
  }

  lemma LackRight(s: Shape, red: seq<bool>, bh: seq<int>, x: int, xp: int)
    requires Erasing(s, red, bh, x, xp) && xp != HEADER && s.left[xp] != x
    ensures Lack(red, bh, s.right, s.left, x, xp) && s.IsNode(s.left[xp])
  {
    assert s.Ok(xp);
    assert s.Ok(s.right[xp]);
  }

  lemma NodeOrNull(s: Shape, red: seq<bool>, bh: seq<int>, x: int, xp: int)
    requires Erasing(s, red, bh, x, xp)
    ensures x == NULL || s.IsNode(x)
  {
    if xp != HEADER { assert s.Ok(xp); }
  }

  lemma MirrorErasing(s: Shape, red: seq<bool>, bh: seq<int>, x: int, xp: int)
    requires Erasing(s, red, bh, x, xp)
    ensures Erasing(s.Mirror(), red, bh, x, xp)
  {
    MirrorLinks(s);
    MirrorOk(s, xp);
    forall p ensures p != xp ==> Bal(s.Mirror(), red, bh, p) {
      assert p != xp ==> Bal(s, red, bh, p);
      MirrorColour(s, red, bh, p);
    }
    forall p ensures NoRedRed(s.Mirror(), Blacken(red, x), p) {
      assert NoRedRed(s, Blacken(red, x), p);
      MirrorColour(s, Blacken(red, x), bh, p);
    }
  }

  lemma UnmirrorErasing(s: Shape, red: seq<bool>, bh: seq<int>, x: int, xp: int)
    requires s.Sized() && Erasing(s.Mirror(), red, bh, x, xp)
    ensures Erasing(s, red, bh, x, xp)
  {
    MirrorBack(s);
    MirrorOk(s, xp);
    forall p ensures p != xp ==> Bal(s, red, bh, p) {
      assert p != xp ==> Bal(s.Mirror(), red, bh, p);
      MirrorColour(s, red, bh, p);
    }
    forall p ensures NoRedRed(s, Blacken(red, x), p) {
      assert NoRedRed(s.Mirror(), Blacken(red, x), p);
      MirrorColour(s, Blacken(red, x), bh, p);
    }
  }

  /** The situation at the top of the loop: x is black and its sibling is w. */
  ghost predicate BlackChild(s: Shape, red: seq<bool>, bh: seq<int>, x: int, xp: int, w: int,
                             near: seq<int>, far: seq<int>) {
    && Erasing(s, red, bh, x, xp) && xp != HEADER && !Red(red, x) && |near| == |s.left|
    && Lack(red, bh, near, far, x, xp) && w == far[xp] && s.IsNode(w)
  }

  /** Case 1: the sibling is red. */
  lemma RedSiblingAt(s: Shape, t: Shape, red: seq<bool>, bh: seq<int>, x: int, xp: int, w: int,
                     red': seq<bool>, bh': seq<int>, q: int)
    requires BlackChild(s, red, bh, x, xp, w, s.left, s.right) && red[w]
    requires RotatedLeft(s, t, xp, w) && Painted(red, red', w, w, xp) && Raised(bh, bh', w, 1, xp, -1)
    ensures q != xp ==> Bal(t, red', bh', q)
    ensures NoRedRed(t, Blacken(red', x), q)
  {
    assert s.Ok(xp);
    assert s.Ok(w);
    assert Bal(s, red, bh, w);
    assert NoRedRed(s, Blacken(red, x), xp);
    assert NoRedRed(s, Blacken(red, x), w);
    assert q != xp ==> Bal(s, red, bh, q);
    assert NoRedRed(s, Blacken(red, x), q);
    if s.IsNode(q) { assert s.Ok(q); }
  }

  lemma RedSiblingLack(s: Shape, t: Shape, red: seq<bool>, bh: seq<int>, x: int, xp: int, w: int,
                       red': seq<bool>, bh': seq<int>)
    requires BlackChild(s, red, bh, x, xp, w, s.left, s.right) && red[w]
    requires RotatedLeft(s, t, xp, w) && Painted(red, red', w, w, xp) && Raised(bh, bh', w, 1, xp, -1)
    ensures t.IsNode(xp) && t.right[xp] == s.left[w] && t.IsNode(s.left[w]) && Lack(red', bh', t.left, t.right, x, xp)
    ensures !Red(red', x) && !Red(red', s.left[w]) && Red(red', xp)
  {
    assert s.Ok(xp);
    assert s.Ok(w);
    assert s.Ok(x);
    assert Bal(s, red, bh, w);
    assert NoRedRed(s, Blacken(red, x), xp);
    assert NoRedRed(s, Blacken(red, x), w);
  }

  lemma RedSibling(s: Shape, t: Shape, red: seq<bool>, bh: seq<int>, x: int, xp: int, w: int,
                   red': seq<bool>, bh': seq<int>)
    requires BlackChild(s, red, bh, x, xp, w, s.left, s.right) && red[w]
    requires RotatedLeft(s, t, xp, w) && Painted(red, red', w, w, xp) && Raised(bh, bh', w, 1, xp, -1)
    ensures BlackChild(t, red', bh', x, xp, t.right[xp], t.left, t.right) && !red'[t.right[xp]] && red'[xp]
  {
    RotatedLeftLinks(s, t, xp, w);
    forall q ensures q != xp ==> Bal(t, red', bh', q) { RedSiblingAt(s, t, red, bh, x, xp, w, red', bh', q); }
    forall q ensures NoRedRed(t, Blacken(red', x), q) { RedSiblingAt(s, t, red, bh, x, xp, w, red', bh', q); }
    RedSiblingLack(s, t, red, bh, x, xp, w, red', bh');
    assert !Red(Blacken(red', x), t.parent[HEADER]) by { assert s.Ok(s.parent[HEADER]); assert s.Ok(xp); }
  }

  /** Case 2: the sibling and its children are black. */
  lemma BlackNephewsAt(s: Shape, red: seq<bool>, bh: seq<int>, x: int, xp: int, w: int,
                       red': seq<bool>, bh': seq<int>, q: int)
    requires BlackChild(s, red, bh, x, xp, w, s.left, s.right) && !red[w] && !Red(red, s.left[w]) && !Red(red, s.right[w])
    requires Painted(red, red', NULL, NULL, w) && Raised(bh, bh', w, -1, xp, -1)
    ensures q != s.parent[xp] ==> Bal(s, red', bh', q)
    ensures NoRedRed(s, Blacken(red', xp), q)
  {
    assert s.Ok(xp);
    assert s.Ok(w);
    assert Bal(s, red, bh, w);
    assert q != xp ==> Bal(s, red, bh, q);
    assert NoRedRed(s, Blacken(red, x), q);
    if s.IsNode(q) { assert s.Ok(q); }
  }

  lemma BlackNephews(s: Shape, red: seq<bool>, bh: seq<int>, x: int, xp: int, w: int,
                     red': seq<bool>, bh': seq<int>)
    requires BlackChild(s, red, bh, x, xp, w, s.left, s.right) && !red[w] && !Red(red, s.left[w]) && !Red(red, s.right[w])
    requires Painted(red, red', NULL, NULL, w) && Raised(bh, bh', w, -1, xp, -1)
    ensures Erasing(s, red', bh', xp, s.parent[xp])
  {
    var pp := s.parent[xp];
    forall q ensures q != pp ==> Bal(s, red', bh', q) { BlackNephewsAt(s, red, bh, x, xp, w, red', bh', q); }
    forall q ensures NoRedRed(s, Blacken(red', xp), q) { BlackNephewsAt(s, red, bh, x, xp, w, red', bh', q); }
    assert s.Ok(xp);
    assert s.Ok(w);
    if pp != HEADER { assert s.Ok(pp); assert Bal(s, red, bh, pp); }
    assert s.Ok(s.parent[HEADER]);
  }

  /** Case 3: the far nephew is black and the near one, c, is red.  Stated for x
      on the right, so that the rotation is a left rotation. */
  ghost predicate NearNephew(s: Shape, red: seq<bool>, bh: seq<int>, x: int, xp: int, w: int, c: int,
                             near: seq<int>, far: seq<int>) {
    && BlackChild(s, red, bh, x, xp, w, near, far)
    && !red[w] && c == near[w] && s.IsNode(c) && red[c] && !Red(red, far[w])
  }

  lemma RedNearNephewBal(s: Shape, t: Shape, red: seq<bool>, bh: seq<int>, x: int, xp: int, w: int, c: int,
                         red': seq<bool>, bh': seq<int>, q: int)
    requires NearNephew(s, red, bh, x, xp, w, c, s.right, s.left)
    requires RotatedLeft(s, t, w, c) && Painted(red, red', c, c, w) && Raised(bh, bh', c, 1, w, -1)
    ensures q != xp ==> Bal(t, red', bh', q)
  {
    assert s.Ok(w);
    assert s.Ok(c);
    assert Bal(s, red, bh, w);
    assert Bal(s, red, bh, c);
    assert q != xp ==> Bal(s, red, bh, q);
    if s.IsNode(q) { assert s.Ok(q); }
    assert s.Ok(xp);
  }

  lemma RedNearNephewNoRedRed(s: Shape, t: Shape, red: seq<bool>, bh: seq<int>, x: int, xp: int, w: int, c: int,
                              red': seq<bool>, q: int)
    requires NearNephew(s, red, bh, x, xp, w, c, s.right, s.left)
    requires RotatedLeft(s, t, w, c) && Painted(red, red', c, c, w)
    ensures NoRedRed(t, Blacken(red', x), q)
  {
    assert s.Ok(w);
    assert s.Ok(c);
    assert NoRedRed(s, Blacken(red, x), c);
    assert NoRedRed(s, Blacken(red, x), q);
    if s.IsNode(q) { assert s.Ok(q); }
    assert s.Ok(xp);
    assert s.Ok(x);
  }

  lemma RedNearNephewLack(s: Shape, t: Shape, red: seq<bool>, bh: seq<int>, x: int, xp: int, w: int, c: int,
                          red': seq<bool>, bh': seq<int>)
    requires NearNephew(s, red, bh, x, xp, w, c, s.right, s.left)
    requires RotatedLeft(s, t, w, c) && Painted(red, red', c, c, w) && Raised(bh, bh', c, 1, w, -1)
    ensures t.IsNode(xp) && t.left[xp] == c && t.right[xp] == x && t.IsNode(c) && t.left[c] == w
    ensures Lack(red', bh', t.right, t.left, x, xp)
    ensures !Red(red', x) && Red(red', w) && !Red(red', c)
  {
    assert s.Ok(xp);
    assert s.Ok(w);
    assert s.Ok(c);
    assert s.Ok(x);
    assert Bal(s, red, bh, w);
  }

  lemma RedNearNephew(s: Shape, t: Shape, red: seq<bool>, bh: seq<int>, x: int, xp: int, w: int, c: int,
                      red': seq<bool>, bh': seq<int>)
    requires NearNephew(s, red, bh, x, xp, w, c, s.right, s.left)
    requires RotatedLeft(s, t, w, c) && Painted(red, red', c, c, w) && Raised(bh, bh', c, 1, w, -1)
    ensures BlackChild(t, red', bh', x, xp, c, t.right, t.left)
    ensures !red'[c] && t.left[c] == w && t.IsNode(w) && red'[w]
  {
    RotatedLeftLinks(s, t, w, c);
    forall q ensures q != xp ==> Bal(t, red', bh', q) { RedNearNephewBal(s, t, red, bh, x, xp, w, c, red', bh', q); }
    forall q ensures NoRedRed(t, Blacken(red', x), q) { RedNearNephewNoRedRed(s, t, red, bh, x, xp, w, c, red', q); }
    RedNearNephewLack(s, t, red, bh, x, xp, w, c, red', bh');
    assert !Red(Blacken(red', x), t.parent[HEADER]) by { assert s.Ok(s.parent[HEADER]); assert s.Ok(w); }
  }

  /** Case 4: the far nephew n is red. */
  lemma RedFarNephewAt(s: Shape, t: Shape, red: seq<bool>, bh: seq<int>, x: int, xp: int, w: int, n: int,
                       red': seq<bool>, bh': seq<int>, q: int)
    requires BlackChild(s, red, bh, x, xp, w, s.left, s.right) && !red[w] && n == s.right[w] && s.IsNode(n) && red[n]
    requires RotatedLeft(s, t, xp, w) && HandedDown(red, red', bh, bh', xp, w, n)
    ensures Bal(t, red', bh', q) && NoRedRed(t, red', q)
  {
    assert s.Ok(xp);
    assert s.Ok(w);
    assert s.Ok(n);
    assert s.Ok(x);
    assert Bal(s, red, bh, w);
    assert Bal(s, red, bh, n);
    assert NoRedRed(s, Blacken(red, x), xp);
    assert q != xp ==> Bal(s, red, bh, q);
    assert NoRedRed(s, Blacken(red, x), q);
    if s.IsNode(q) { assert s.Ok(q); }
  }

  ghost predicate HandedDown(red: seq<bool>, red': seq<bool>, bh: seq<int>, bh': seq<int>, xp: int, w: int, n: int) {
    && |red'| == |red| && |bh'| == |bh|
    && (forall q {:trigger Red(red', q)} ::
          Red(red', q) == (if q == w then Red(red, xp) else if q == xp || q == n then false else Red(red, q)))
    && (forall q {:trigger H(bh', q)} ::
          H(bh', q) == (if q == w then H(bh, xp) else if q == xp then H(bh, w) else if q == n then H(bh, w) else H(bh, q)))
  }

  lemma HandDown(red: seq<bool>, bh: seq<int>, xp: int, w: int, n: int, red': seq<bool>, bh': seq<int>)
    requires 0 <= xp < |red| == |bh| && 0 <= w < |red| && 0 <= n < |red| && xp != w && n != w && n != xp
    requires red' == red[w := red[xp]][xp := false][n := false]
    requires bh' == bh[w := bh[xp]][xp := bh[w]][n := bh[w]]
    ensures HandedDown(red, red', bh, bh', xp, w, n)
  {
  }

  lemma RedFarNephew(s: Shape, t: Shape, red: seq<bool>, bh: seq<int>, x: int, xp: int, w: int, n: int,
                     red': seq<bool>, bh': seq<int>)
    requires BlackChild(s, red, bh, x, xp, w, s.left, s.right) && !red[w] && n == s.right[w] && s.IsNode(n) && red[n]
    requires RotatedLeft(s, t, xp, w) && HandedDown(red, red', bh, bh', xp, w, n)
    ensures RedBlack(t, red', bh')
  {
    RotatedLeftLinks(s, t, xp, w);
    forall q ensures Bal(t, red', bh', q) && NoRedRed(t, red', q) {
      RedFarNephewAt(s, t, red, bh, x, xp, w, n, red', bh', q);
    }
    assert s.Ok(s.parent[HEADER]);
    assert s.Ok(n);
    assert s.Ok(w);
    assert s.Ok(xp);
  }

  // The mirror images of the four cases, for x on the right.

  lemma RedSiblingRight(s: Shape, t: Shape, red: seq<bool>, bh: seq<int>, x: int, xp: int, w: int,
                        red': seq<bool>, bh': seq<int>)
    requires BlackChild(s, red, bh, x, xp, w, s.right, s.left) && red[w]
    requires RotatedRight(s, t, xp, w) && Painted(red, red', w, w, xp) && Raised(bh, bh', w, 1, xp, -1)
    ensures BlackChild(t, red', bh', x, xp, t.left[xp], t.right, t.left) && !red'[t.left[xp]] && red'[xp]
  {
    MirrorErasing(s, red, bh, x, xp);
    MirrorOk(s, w);
    RotatedRightMirror(s, t, xp, w);
    RedSibling(s.Mirror(), t.Mirror(), red, bh, x, xp, w, red', bh');
    UnmirrorErasing(t, red', bh', x, xp);
    MirrorOk(t, t.left[xp]);
  }

  lemma BlackNephewsRight(s: Shape, red: seq<bool>, bh: seq<int>, x: int, xp: int, w: int,
                          red': seq<bool>, bh': seq<int>)
    requires BlackChild(s, red, bh, x, xp, w, s.right, s.left) && !red[w]
    requires !Red(red, s.left[w]) && !Red(red, s.right[w])
    requires Painted(red, red', NULL, NULL, w) && Raised(bh, bh', w, -1, xp, -1)
    ensures Erasing(s, red', bh', xp, s.parent[xp])
  {
    MirrorErasing(s, red, bh, x, xp);
    MirrorOk(s, w);
    BlackNephews(s.Mirror(), red, bh, x, xp, w, red', bh');
    UnmirrorErasing(s, red', bh', xp, s.parent[xp]);
  }

  lemma RedNearNephewLeft(s: Shape, t: Shape, red: seq<bool>, bh: seq<int>, x: int, xp: int, w: int, c: int,
                          red': seq<bool>, bh': seq<int>)
    requires NearNephew(s, red, bh, x, xp, w, c, s.left, s.right)
    requires RotatedRight(s, t, w, c) && Painted(red, red', c, c, w) && Raised(bh, bh', c, 1, w, -1)
    ensures BlackChild(t, red', bh', x, xp, c, t.left, t.right)
    ensures !red'[c] && t.right[c] == w && t.IsNode(w) && red'[w]
  {
    MirrorErasing(s, red, bh, x, xp);
    MirrorOk(s, w);
    MirrorOk(s, c);
    RotatedRightMirror(s, t, w, c);
    RedNearNephew(s.Mirror(), t.Mirror(), red, bh, x, xp, w, c, red', bh');
    UnmirrorErasing(t, red', bh', x, xp);
    MirrorOk(t, c);
    MirrorOk(t, w);
  }

  lemma RedFarNephewRight(s: Shape, t: Shape, red: seq<bool>, bh: seq<int>, x: int, xp: int, w: int, n: int,
                          red': seq<bool>, bh': seq<int>)
    requires BlackChild(s, red, bh, x, xp, w, s.right, s.left) && !red[w] && n == s.left[w] && s.IsNode(n) && red[n]
    requires RotatedRight(s, t, xp, w) && HandedDown(red, red', bh, bh', xp, w, n)
    ensures RedBlack(t, red', bh')
  {
    MirrorErasing(s, red, bh, x, xp);
    MirrorOk(s, w);
    MirrorOk(s, n);
    RotatedRightMirror(s, t, xp, w);
    RedFarNephew(s.Mirror(), t.Mirror(), red, bh, x, xp, w, n, red', bh');
    UnmirrorRedBlack(t, red', bh');
  }

  /** Painting x black ends the fix-up once x is red or the root. */
  lemma EraseDone(s: Shape, red: seq<bool>, bh: seq<int>, x: int, xp: int, bh': seq<int>)
    requires Erasing(s, red, bh, x, xp) && (x == s.parent[HEADER] || Red(red, x))
    requires Raised(bh, bh', x, if Red(red, x) then 1 else 0, NULL, 0)
    ensures RedBlack(s, Blacken(red, x), bh')
  {
    forall q ensures Bal(s, Blacken(red, x), bh', q) {
      assert q != xp ==> Bal(s, red, bh, q);
      if s.IsNode(q) { assert s.Ok(q); }
      if xp != HEADER { assert s.Ok(xp); }
      assert s.Ok(x);
      assert s.Ok(s.parent[HEADER]);
    }
  }

  lemma UnlinkedColourAt(s: Shape, t: Shape, red: seq<bool>, bh: seq<int>, z: int, x: int, q: int)
    requires RedBlack(s, red, bh) && s.IsNode(z) && OnlyChild(s, z, x) && Unlinked(s, t, z, x)
    ensures (q != s.parent[z] || red[z]) ==> Bal(t, red, bh, q)
    ensures NoRedRed(t, Blacken(red, x), q) && (red[z] ==> NoRedRed(t, red, q))
  {
    assert s.Ok(z);
    assert Bal(s, red, bh, z);
    assert NoRedRed(s, red, z);
    RemovedNodes(s, t, z, q);
    assert Bal(s, red, bh, q);
    assert NoRedRed(s, red, q);
    if s.IsNode(q) { assert s.Ok(q); }
  }

  lemma UnlinkedColour(s: Shape, t: Shape, red: seq<bool>, bh: seq<int>, z: int, x: int)
    requires RedBlack(s, red, bh) && s.IsNode(z) && OnlyChild(s, z, x) && Unlinked(s, t, z, x)
    ensures red[z] ==> RedBlack(t, red, bh)
    ensures !red[z] ==> Erasing(t, red, bh, x, s.parent[z])
  {
    UnlinkedLinks(s, t, z, x);
    forall q ensures (q != s.parent[z] || red[z]) ==> Bal(t, red, bh, q) { UnlinkedColourAt(s, t, red, bh, z, x, q); }
    forall q ensures NoRedRed(t, Blacken(red, x), q) { UnlinkedColourAt(s, t, red, bh, z, x, q); }
    if red[z] {
      forall q ensures NoRedRed(t, red, q) { UnlinkedColourAt(s, t, red, bh, z, x, q); }
    }
    assert s.Ok(z);
    assert s.Ok(s.parent[z]);
    assert Bal(s, red, bh, z);
    assert Bal(s, red, bh, s.parent[z]);
    RemovedNodes(s, t, z, s.parent[z]);
    assert s.Ok(s.parent[HEADER]);
  }

  /** The successor y takes the colour and the height of z, and z takes y's colour. */
  ghost predicate Traded(red: seq<bool>, red': seq<bool>, bh: seq<int>, bh': seq<int>, z: int, y: int) {
    && |red'| == |red| && |bh'| == |bh|
    && (forall q {:trigger Red(red', q)} ::
          Red(red', q) == if q == y then Red(red, z) else if q == z then Red(red, y) else Red(red, q))
    && (forall q {:trigger H(bh', q)} :: H(bh', q) == if q == y then H(bh, z) else H(bh, q))
  }

  ghost function GapParent(s: Shape, z: int, y: int): int
    requires s.Sized() && s.IsNode(z) && s.IsNode(y)
  {
    if y == s.right[z] then y else s.parent[y]
  }

  lemma RelinkedBal(s: Shape, t: Shape, red: seq<bool>, bh: seq<int>, z: int, y: int,
                    red': seq<bool>, bh': seq<int>, q: int)
    requires RedBlack(s, red, bh) && Relinked(s, t, z, y) && Traded(red, red', bh, bh', z, y)
    requires q != GapParent(s, z, y) || red[y]
    ensures Bal(t, red', bh', q)
  {
    assert s.Ok(z);
    assert s.Ok(y);
    assert Bal(s, red, bh, z);
    assert Bal(s, red, bh, y);
    RemovedNodes(s, t, z, q);
    assert Bal(s, red, bh, q);
    if s.IsNode(q) { assert s.Ok(q); }
  }

  lemma RelinkedNoRedRed(s: Shape, t: Shape, red: seq<bool>, bh: seq<int>, z: int, y: int,
                         red': seq<bool>, bh': seq<int>, q: int)
    requires RedBlack(s, red, bh) && Relinked(s, t, z, y) && Traded(red, red', bh, bh', z, y)
    ensures NoRedRed(t, Blacken(red', s.right[y]), q) && (red[y] ==> NoRedRed(t, red', q))
  {
    assert s.Ok(z);
    assert s.Ok(y);
    RemovedNodes(s, t, z, q);
    assert NoRedRed(s, red, q);
    assert NoRedRed(s, red, z);
    assert NoRedRed(s, red, y);
    if s.IsNode(q) { assert s.Ok(q); }
  }

  lemma RelinkedLack(s: Shape, t: Shape, red: seq<bool>, bh: seq<int>, z: int, y: int,
                     red': seq<bool>, bh': seq<int>)
    requires RedBlack(s, red, bh) && Relinked(s, t, z, y) && Traded(red, red', bh, bh', z, y) && !red[y]
    ensures var xp, x := GapParent(s, z, y), s.right[y];
      t.IsNode(xp) && (Lack(red', bh', t.left, t.right, x, xp) || Lack(red', bh', t.right, t.left, x, xp))
  {
    var xp := GapParent(s, z, y);
    assert s.Ok(z);
    assert s.Ok(y);
    assert s.Ok(xp);
    assert Bal(s, red, bh, z);
    assert Bal(s, red, bh, y);
    assert Bal(s, red, bh, xp);
    RemovedNodes(s, t, z, xp);
  }

  lemma RelinkedColour(s: Shape, t: Shape, red: seq<bool>, bh: seq<int>, z: int, y: int,
                       red': seq<bool>, bh': seq<int>)
    requires RedBlack(s, red, bh) && Relinked(s, t, z, y) && Traded(red, red', bh, bh', z, y)
    ensures if red[y] then RedBlack(t, red', bh') else Erasing(t, red', bh', s.right[y], GapParent(s, z, y))
  {
    RelinkedLinks(s, t, z, y);
    var xp := GapParent(s, z, y);
    forall q ensures (q != xp || red[y]) ==> Bal(t, red', bh', q) {
      if q != xp || red[y] { RelinkedBal(s, t, red, bh, z, y, red', bh', q); }
    }
    forall q ensures NoRedRed(t, Blacken(red', s.right[y]), q) { RelinkedNoRedRed(s, t, red, bh, z, y, red', bh', q); }
    if red[y] {
      forall q ensures NoRedRed(t, red', q) { RelinkedNoRedRed(s, t, red, bh, z, y, red', bh', q); }
    }
    if !red[y] { RelinkedLack(s, t, red, bh, z, y, red', bh'); }
    assert !Red(red', t.parent[HEADER]) by { assert s.Ok(s.parent[HEADER]); assert s.Ok(y); assert s.Ok(z); }
  }

  // ---------- the conditions read recursively ----------

  /** The nodes of the subtree of p, left to right, read off the links alone. */
  ghost function InOrder(s: Shape, p: int): (r: seq<int>)
    requires s.Links() && (p == NULL || s.IsNode(p))
    decreases if p == NULL then 0 else s.hi[p] - s.lo[p]
  {
    if p == NULL then []
    else
      assert s.Ok(p) && s.Ok(s.left[p]) && s.Ok(s.right[p]);
      InOrder(s, s.left[p]) + [p] + InOrder(s, s.right[p])
  }

  lemma JoinSlices(s: seq<int>, i: int, m: int, j: int)
    requires 0 <= i <= m < j <= |s|
    ensures s[i..j] == s[i..m] + [s[m]] + s[m + 1..j]
  {
  }

  lemma {:induction false} InOrderIsSpan(s: Shape, p: int)
    requires s.Links() && s.IsNode(p)
    ensures 0 <= s.lo[p] <= s.hi[p] <= |s.ord| && InOrder(s, p) == s.ord[s.lo[p]..s.hi[p]]
    decreases s.hi[p] - s.lo[p]
  {
    assert s.Ok(p) && s.Ok(s.left[p]) && s.Ok(s.right[p]);
    if s.left[p] != NULL { InOrderIsSpan(s, s.left[p]); }
    if s.right[p] != NULL { InOrderIsSpan(s, s.right[p]); }
    JoinSlices(s.ord, s.lo[p], s.at[p], s.hi[p]);
  }

  /** The ghost sequence is the in-order walk from the root. */
  lemma InOrderIsOrd(s: Shape)
    requires s.Links()
    ensures InOrder(s, s.parent[HEADER]) == s.ord
  {
    if s.parent[HEADER] != NULL { InOrderIsSpan(s, s.parent[HEADER]); }
  }

  /** Every path from p down to a missing child meets exactly h black nodes and
      no two red nodes in a row. */
  ghost predicate Uniform(s: Shape, red: seq<bool>, p: int, h: int)
    requires s.Links() && (p == NULL || s.IsNode(p))
    decreases if p == NULL then 0 else s.hi[p] - s.lo[p]
  {
    if p == NULL then h == 0
    else
      assert s.Ok(p) && s.Ok(s.left[p]) && s.Ok(s.right[p]);
      && (Red(red, p) ==> !Red(red, s.left[p]) && !Red(red, s.right[p]))
      && Uniform(s, red, s.left[p], h - Weight(red, p))
      && Uniform(s, red, s.right[p], h - Weight(red, p))
  }

  lemma {:induction false} RedBlackUniform(s: Shape, red: seq<bool>, bh: seq<int>, p: int)
    requires RedBlack(s, red, bh) && (p == NULL || s.IsNode(p))
    ensures Uniform(s, red, p, H(bh, p))
    decreases if p == NULL then 0 else s.hi[p] - s.lo[p]
  {
    if p != NULL {
      assert s.Ok(p) && s.Ok(s.left[p]) && s.Ok(s.right[p]);
      assert Bal(s, red, bh, p) && NoRedRed(s, red, p);
      RedBlackUniform(s, red, bh, s.left[p]);
      RedBlackUniform(s, red, bh, s.right[p]);
    }
  }

  ghost function Depth(s: Shape, p: int): nat
    requires s.Links() && (p == NULL || s.IsNode(p))
    decreases if p == NULL then 0 else s.hi[p] - s.lo[p]
  {
    if p == NULL then 0
    else
      assert s.Ok(p) && s.Ok(s.left[p]) && s.Ok(s.right[p]);
      var l, r := Depth(s, s.left[p]), Depth(s, s.right[p]);
      1 + if l < r then r else l
  }

  lemma {:induction false} BlackHeightBounds(s: Shape, red: seq<bool>, bh: seq<int>, p: int)
    requires RedBlack(s, red, bh) && s.IsNode(p)
    ensures 0 <= bh[p] && Pow2(bh[p]) <= s.hi[p] - s.lo[p] + 1
    ensures Depth(s, p) <= 2 * bh[p] + 1 - Weight(red, p)
    decreases s.hi[p] - s.lo[p]
  {
    assert s.Ok(p) && s.Ok(s.left[p]) && s.Ok(s.right[p]);
    assert Bal(s, red, bh, p) && NoRedRed(s, red, p);
    if s.left[p] != NULL { BlackHeightBounds(s, red, bh, s.left[p]); }
    if s.right[p] != NULL { BlackHeightBounds(s, red, bh, s.right[p]); }
  }

  /** No path is longer than twice the logarithm of the number of nodes plus one. */
  lemma DepthIsLogarithmic(s: Shape, red: seq<bool>, bh: seq<int>)
    requires RedBlack(s, red, bh)
    ensures exists h: nat :: Depth(s, s.parent[HEADER]) <= 2 * h && Pow2(h) <= |s.ord| + 1
  {
    var r := s.parent[HEADER];
    if r == NULL {
      assert Depth(s, r) <= 2 * 0 && Pow2(0) <= |s.ord| + 1;
    } else {
      BlackHeightBounds(s, red, bh, r);
      var h: nat := bh[r];
      assert Depth(s, r) <= 2 * h && Pow2(h) <= |s.ord| + 1;
    }
  }

  // ---------- the library's own check ----------

  /** The black nodes on the way from p up to the root. */
  function BlackCount(ghost s: Shape, parent: seq<int>, red: seq<bool>, p: int): int
    requires s.Links() && parent == s.parent && |red| == |s.left| && (p == NULL || s.IsNode(p))
    decreases if p == NULL then 0 else |s.ord| + 1 - Width(s, p)
  {
    if p == NULL then 0
    else
      var bc := if red[p] then 0 else 1;
      if p == parent[HEADER] then bc
      else
        assert s.Ok(p) && s.Ok(s.parent[p]);
        bc + BlackCount(s, parent, red, parent[p])
  }

  lemma {:induction false} BlackCountIs(s: Shape, red: seq<bool>, bh: seq<int>, p: int)
    requires RedBlack(s, red, bh) && s.IsNode(p)
    ensures BlackCount(s, s.parent, red, p) == bh[s.parent[HEADER]] - bh[p] + Weight(red, p)
    decreases |s.ord| + 1 - Width(s, p)
  {
    if p != s.parent[HEADER] {
      assert s.Ok(p) && s.Ok(s.parent[p]);
      assert Bal(s, red, bh, s.parent[p]);
      BlackCountIs(s, red, bh, s.parent[p]);
    }
  }

  /** Nodes with a free side all count the same number of black ancestors. */
  lemma BlackCountOfLeaf(s: Shape, red: seq<bool>, bh: seq<int>, p: int)
    requires RedBlack(s, red, bh) && s.IsNode(p) && (s.left[p] == NULL || s.right[p] == NULL)
    ensures BlackCount(s, s.parent, red, p) == H(bh, s.parent[HEADER])
  {
    assert Bal(s, red, bh, p);
    assert s.Ok(p);
    BlackCountIs(s, red, bh, p);
  }
}
