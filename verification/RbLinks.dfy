module RbLinks {
  import opened RbShape
  import opened RbColour

  class Links {
    var left: seq<int>
    var right: seq<int>
    var parent: seq<int>
    var red: seq<bool>

    ghost var ord: seq<int>
    ghost var lo: seq<int>
    ghost var at: seq<int>
    ghost var hi: seq<int>
    ghost var bh: seq<int>

    /** The header alone: no root, and both ends are the header itself. */
    constructor ()
      ensures Valid() && ord == [] && |left| == 1
    {
      left, right, parent, red := [HEADER], [HEADER], [NULL], [true];
      ord, lo, at, hi, bh := [], [0], [-1], [0], [0];
      new;
      forall p ensures Sh().Ok(p) && Bal(Sh(), red, bh, p) && NoRedRed(Sh(), red, p) {}
    }

    ghost predicate Valid() reads this {
      RedBlack(Sh(), red, bh) && Sh().Ends() && red[HEADER]
    }

    /** The links and the cached ends are right, whatever the colours. */
    ghost predicate Shaped() reads this { Sh().Links() && Sh().Ends() }

    ghost function Sh(): (s: Shape) reads this {
      Shape(left, right, parent, ord, lo, at, hi)
    }

    /** Whatever pointed down to z, the header's root link or its parent's left
        or right link, now points to x. */
    method Replace(z: int, x: int)
      requires Sh().Sized() && 0 < z < |left| && Hangs(Sh(), z)
      modifies this`left, this`right, this`parent
      ensures |left| == |right| == |parent| == old(|left|)
      ensures forall p {:trigger parent[p]} :: 0 <= p < |parent| ==>
        parent[p] == if p == HEADER && old(parent[p]) == z then x else old(parent[p])
      ensures forall p {:trigger left[p]} :: 0 <= p < |left| ==>
        left[p] == if p == old(parent[z]) && p != HEADER && old(left[p]) == z then x else old(left[p])
      ensures forall p {:trigger right[p]} :: 0 <= p < |right| ==>
        right[p] == if p == old(parent[z]) && p != HEADER && old(right[p]) == z then x else old(right[p])
    {
      if z == parent[HEADER] {
        parent := parent[HEADER := x];
      } else if z == left[parent[z]] {
        left := left[parent[z] := x];
      } else {
        right := right[parent[z] := x];
      }
    }

    /** What a fix-up leaves alone: the nodes and their order, and the cached
        ends and the colour of the header. */
    static ghost predicate KeptBy(s: Shape, red: seq<bool>, t: Shape, red': seq<bool>) {
      && 0 < |s.left| == |s.right| == |t.left| == |t.right| == |red| == |red'|
      && t.ord == s.ord && t.at == s.at
      && t.left[HEADER] == s.left[HEADER] && t.right[HEADER] == s.right[HEADER]
      && red'[HEADER] == red[HEADER]
    }

    method RotateLeft(x: int)
      requires Sh().Links() && Sh().IsNode(x) && right[x] != NULL
      modifies this`left, this`right, this`parent, this`lo, this`hi
      ensures RotatedLeft(old(Sh()), Sh(), x, old(right[x]))
    {
      hide Shape.Links, Hangs;
      ghost var s := Sh();
      AroundRight(s, x);
      var y := right[x];
      right := right[x := left[y]];
      if left[y] != NULL {
        parent := parent[left[y] := x];
      }
      parent := parent[y := parent[x]];
      Replace(x, y);
      left := left[y := x];
      parent := parent[x := y];
      lo := lo[y := lo[x]];
      hi := hi[y := hi[x]][x := at[y]];
    }

    method RotateRight(x: int)
      requires Sh().Links() && Sh().IsNode(x) && left[x] != NULL
      modifies this`left, this`right, this`parent, this`lo, this`hi
      ensures RotatedRight(old(Sh()), Sh(), x, old(left[x]))
    {
      hide Shape.Links, Hangs;
      ghost var s := Sh();
      AroundLeft(s, x);
      var y := left[x];
      left := left[x := right[y]];
      if right[y] != NULL {
        parent := parent[right[y] := x];
      }
      parent := parent[y := parent[x]];
      Replace(x, y);
      right := right[y := x];
      parent := parent[x := y];
      hi := hi[y := hi[x]];
      lo := lo[y := lo[x]][x := at[y] + 1];
    }

    // ---------- insert fix-up ----------

    method RecolourUncle(x: int, p: int, g: int, u: int)
      requires RedUncle(Sh(), red, bh, x, p, g, u)
      modifies this`red, this`bh
      ensures Inserting(Sh(), red, bh, g)
      ensures red[HEADER] == old(red[HEADER])
    {
      ghost var red0, bh0 := red, bh;
      red := red[p := false];
      red := red[u := false];
      red := red[g := true];
      bh := bh[p := bh[p] + 1][u := bh[u] + 1];
      Recolour(Sh(), red0, bh0, x, p, g, u, red, bh);
    }

    /** The inner grandchild x0 is rotated above its parent, which becomes the new x. */
    method RotateInnerLeft(x0: int, ghost g: int) returns (x: int)
      requires Inserting(Sh(), red, bh, x0) && x0 != parent[HEADER]
      requires Sh().IsNode(parent[x0]) && red[parent[x0]] && Sh().IsNode(g)
      requires g == parent[parent[x0]] && parent[x0] == left[g] && x0 == right[parent[x0]] && !Red(red, right[g])
      modifies this`left, this`right, this`parent, this`lo, this`hi
      ensures KeptBy(old(Sh()), red, Sh(), red)
      ensures BlackUncle(Sh(), red, bh, x, x0, g, right, left)
    {
      ghost var s := Sh();
      assert s.Ok(x0) && s.Ok(parent[x0]) && s.Ok(g);
      x := parent[x0];
      RotateLeft(x);
      InnerRotation(s, Sh(), red, bh, x0, x);
    }

    method RotateInnerRight(x0: int, ghost g: int) returns (x: int)
      requires Inserting(Sh(), red, bh, x0) && x0 != parent[HEADER]
      requires Sh().IsNode(parent[x0]) && red[parent[x0]] && Sh().IsNode(g)
      requires g == parent[parent[x0]] && parent[x0] == right[g] && x0 == left[parent[x0]] && !Red(red, left[g])
      modifies this`left, this`right, this`parent, this`lo, this`hi
      ensures KeptBy(old(Sh()), red, Sh(), red)
      ensures BlackUncle(Sh(), red, bh, x, x0, g, left, right)
    {
      ghost var s := Sh();
      assert s.Ok(x0) && s.Ok(parent[x0]) && s.Ok(g);
      x := parent[x0];
      RotateRight(x);
      InnerRotationRight(s, Sh(), red, bh, x0, x);
    }

    method RotateOuterRight(ghost x: int, p: int, g: int)
      requires BlackUncle(Sh(), red, bh, x, p, g, right, left)
      modifies this`left, this`right, this`parent, this`lo, this`hi, this`red, this`bh
      ensures Inserting(Sh(), red, bh, x) && parent[x] == p && !Red(red, p)
      ensures KeptBy(old(Sh()), old(red), Sh(), red)
    {
      ghost var s, red0, bh0 := Sh(), red, bh;
      red := red[p := false];
      red := red[g := true];
      bh := bh[p := bh[p] + 1][g := bh[g] - 1];
      assert Painted(red0, red, p, p, g) && Raised(bh0, bh, p, 1, g, -1) by { assert s.Ok(p); }
      RotateRight(g);
      OuterRotationRight(s, Sh(), red0, bh0, x, p, g, red, bh);
      RedBlackInserting(Sh(), red, bh, x);
    }

    method RotateOuterLeft(ghost x: int, p: int, g: int)
      requires BlackUncle(Sh(), red, bh, x, p, g, left, right)
      modifies this`left, this`right, this`parent, this`lo, this`hi, this`red, this`bh
      ensures Inserting(Sh(), red, bh, x) && parent[x] == p && !Red(red, p)
      ensures KeptBy(old(Sh()), old(red), Sh(), red)
    {
      ghost var s, red0, bh0 := Sh(), red, bh;
      red := red[p := false];
      red := red[g := true];
      bh := bh[p := bh[p] + 1][g := bh[g] - 1];
      assert Painted(red0, red, p, p, g) && Raised(bh0, bh, p, 1, g, -1) by { assert s.Ok(p); }
      RotateLeft(g);
      OuterRotation(s, Sh(), red0, bh0, x, p, g, red, bh);
      RedBlackInserting(Sh(), red, bh, x);
    }

    ghost predicate NeedsRebalance(x: int)
      requires Sh().Sized() && 0 <= x < |left|
      reads this
    {
      x != parent[HEADER] && Red(red, parent[x])
    }

    method RebalanceLeft(x0: int, p: int, g: int) returns (x: int)
      requires Inserting(Sh(), red, bh, x0) && x0 != parent[HEADER]
      requires p == parent[x0] && Sh().IsNode(p) && red[p] && Sh().IsNode(g) && g == parent[p] && p == left[g]
      modifies this`left, this`right, this`parent, this`lo, this`hi, this`red, this`bh
      ensures Inserting(Sh(), red, bh, x)
      ensures KeptBy(old(Sh()), old(red), Sh(), red)
      ensures Red(red, parent[x]) ==> x == g && Sh() == old(Sh())
    {
      x := x0;
      assert Sh().Ok(x) && Sh().Ok(p) && Sh().Ok(g);
      var y := right[g];
      if y != NULL && red[y] {
        RecolourUncle(x, p, g, y);
        x := g;
      } else {
        if x == right[p] {
          x := RotateInnerLeft(x, g);
        }
        RotateOuterRight(x, parent[x], g);
      }
    }

    method RebalanceRight(x0: int, p: int, g: int) returns (x: int)
      requires Inserting(Sh(), red, bh, x0) && x0 != parent[HEADER]
      requires p == parent[x0] && Sh().IsNode(p) && red[p] && Sh().IsNode(g) && g == parent[p] && p == right[g]
      modifies this`left, this`right, this`parent, this`lo, this`hi, this`red, this`bh
      ensures Inserting(Sh(), red, bh, x)
      ensures KeptBy(old(Sh()), old(red), Sh(), red)
      ensures Red(red, parent[x]) ==> x == g && Sh() == old(Sh())
    {
      x := x0;
      assert Sh().Ok(x) && Sh().Ok(p) && Sh().Ok(g);
      var y := left[g];
      if y != NULL && red[y] {
        RecolourUncle(x, p, g, y);
        x := g;
      } else {
        if x == left[p] {
          x := RotateInnerRight(x, g);
        }
        RotateOuterLeft(x, parent[x], g);
      }
    }

    method RebalanceStep(x0: int) returns (x: int)
      requires Inserting(Sh(), red, bh, x0) && NeedsRebalance(x0)
      modifies this`left, this`right, this`parent, this`lo, this`hi, this`red, this`bh
      ensures Inserting(Sh(), red, bh, x) && 0 <= parent[x] < |red|
      ensures KeptBy(old(Sh()), old(red), Sh(), red)
      ensures 0 <= lo[x] <= hi[x] <= |ord|
      ensures NeedsRebalance(x) ==> hi[x] - lo[x] > old(hi[x0] - lo[x0])
    {
      SpanOf(Sh(), x0);
      var p := parent[x0];
      var g := parent[p];
      InsertingGrandparent(Sh(), red, bh, x0);
      if p == left[g] {
        x := RebalanceLeft(x0, p, g);
      } else {
        x := RebalanceRight(x0, p, g);
      }
      SpanOf(Sh(), x);
    }

    method Rebalance(x0: int)
      requires 0 <= x0 < |red| && Inserting(Sh(), red[x0 := true], bh, x0)
      modifies this`left, this`right, this`parent, this`lo, this`hi, this`red, this`bh
      ensures RedBlack(Sh(), red, bh)
      ensures KeptBy(old(Sh()), old(red), Sh(), red)
    {
      var x := x0;
      red := red[x := true];
      SpanOf(Sh(), x);
      while x != parent[HEADER] && red[parent[x]]
        invariant Inserting(Sh(), red, bh, x) && 0 <= parent[x] < |red|
        invariant KeptBy(old(Sh()), old(red), Sh(), red)
        invariant 0 <= lo[x] <= hi[x] <= |ord|
        decreases if NeedsRebalance(x) then 1 + |ord| - (hi[x] - lo[x]) else 0
      {
        x := RebalanceStep(x);
      }
      PaintRoot(x);
    }

    method PaintRoot(ghost x: int)
      requires Inserting(Sh(), red, bh, x) && (x == parent[HEADER] || !Red(red, parent[x]))
      modifies this`red, this`bh
      ensures RedBlack(Sh(), red, bh) && red[HEADER] == old(red[HEADER])
    {
      ghost var red0, bh0 := red, bh;
      if x == parent[HEADER] { bh := bh[x := bh[x] + 1]; }
      assert Sh().Ok(x);
      assert parent[HEADER] != HEADER;
      red := red[parent[HEADER] := false];
      InsertDone(Sh(), red0, bh0, x, red, bh);
    }

    /** Case 1 of the erase fix-up, x on the left: a red sibling is rotated away. */
    method ReplaceSiblingLeft(x: int, xp: int, w0: int) returns (w: int)
      requires BlackChild(Sh(), red, bh, x, xp, w0, left, right) && red[w0]
      modifies this`left, this`right, this`parent, this`lo, this`hi, this`red, this`bh
      ensures BlackChild(Sh(), red, bh, x, xp, w, left, right) && !red[w] && red[xp]
      ensures KeptBy(old(Sh()), old(red), Sh(), red)
    {
      ghost var s, red0, bh0 := Sh(), red, bh;
      assert s.Ok(xp);
      red := red[w0 := false];
      red := red[xp := true];
      bh := bh[w0 := bh[w0] + 1][xp := bh[xp] - 1];
      RotateLeft(xp);
      RedSibling(s, Sh(), red0, bh0, x, xp, w0, red, bh);
      w := right[xp];
    }

    /** Case 3: the red near child of the sibling is rotated above it. */
    method RaiseNearNephewLeft(x: int, xp: int, w: int)
      requires BlackChild(Sh(), red, bh, x, xp, w, left, right) && !red[w] && !Red(red, right[w]) && Red(red, left[w])
      modifies this`left, this`right, this`parent, this`lo, this`hi, this`red, this`bh
      ensures Sh().Sized() && 0 <= xp < |left|
      ensures BlackChild(Sh(), red, bh, x, xp, right[xp], left, right) && !red[right[xp]] && Red(red, right[right[xp]])
      ensures KeptBy(old(Sh()), old(red), Sh(), red)
    {
      ghost var s, red0, bh0 := Sh(), red, bh;
      assert s.Ok(w);
      if left[w] != NULL { red := red[left[w] := false]; }
      red := red[w := true];
      ghost var c := left[w];
      bh := bh[c := bh[c] + 1][w := bh[w] - 1];
      RotateRight(w);
      RedNearNephewLeft(s, Sh(), red0, bh0, x, xp, w, c, red, bh);
    }

    /** Case 4: the sibling takes the place of the parent, and the heights agree again. */
    method RaiseSiblingLeft(ghost x: int, xp: int, w: int)
      requires BlackChild(Sh(), red, bh, x, xp, w, left, right) && !red[w] && Red(red, right[w])
      modifies this`left, this`right, this`parent, this`lo, this`hi, this`red, this`bh
      ensures RedBlack(Sh(), red, bh) && !Red(red, x)
      ensures KeptBy(old(Sh()), old(red), Sh(), red)
    {
      ghost var s, red0, bh0 := Sh(), red, bh;
      ghost var n := right[w];
      assert s.Ok(xp) && s.Ok(w) && s.Ok(x);
      red := red[w := red[xp]];
      red := red[xp := false];
      if right[w] != NULL { red := red[right[w] := false]; }
      bh := bh[w := bh[xp]][xp := bh[w]][n := bh[w]];
      HandDown(red0, bh0, xp, w, n, red, bh);
      RotateLeft(xp);
      RedFarNephew(s, Sh(), red0, bh0, x, xp, w, n, red, bh);
    }

    method DarkenSiblingLeft(ghost x: int, xp: int, w: int)
      requires BlackChild(Sh(), red, bh, x, xp, w, left, right) && !red[w]
      requires !Red(red, left[w]) && !Red(red, right[w])
      modifies this`red, this`bh
      ensures Erasing(Sh(), red, bh, xp, parent[xp])
      ensures red[xp] == old(red[xp]) && red[HEADER] == old(red[HEADER])
    {
      ghost var red0, bh0 := red, bh;
      assert Sh().Ok(xp);
      red := red[w := true];
      bh := bh[w := bh[w] - 1][xp := bh[xp] - 1];
      BlackNephews(Sh(), red0, bh0, x, xp, w, red, bh);
    }

    /** One turn of the erase fix-up loop, x on the left. */
    method RebalanceEraseLeft(x0: int, xp0: int) returns (x: int, xp: int, done: bool)
      requires Sh().Sized() && 0 <= xp0 < |left|
      requires BlackChild(Sh(), red, bh, x0, xp0, right[xp0], left, right)
      modifies this`left, this`right, this`parent, this`lo, this`hi, this`red, this`bh
      ensures KeptBy(old(Sh()), old(red), Sh(), red)
      ensures done ==> RedBlack(Sh(), red, bh) && !Red(red, x) && x == x0
      ensures !done ==> Erasing(Sh(), red, bh, x, xp)
      ensures !done && !Red(red, x) ==> x == xp0 && xp == old(parent[xp0]) && Sh() == old(Sh())
    {
      x, xp, done := x0, xp0, false;
      var w := right[xp];
      if red[w] {
        w := ReplaceSiblingLeft(x, xp, w);
      }
      ChildRange(Sh(), w);
      if (left[w] == NULL || !red[left[w]]) && (right[w] == NULL || !red[right[w]]) {
        DarkenSiblingLeft(x, xp, w);
        x := xp;
        xp := parent[xp];
      } else {
        if right[w] == NULL || !red[right[w]] {
          RaiseNearNephewLeft(x, xp, w);
          w := right[xp];
        }
        RaiseSiblingLeft(x, xp, w);
        done := true;
      }
    }

    /** Case 1 of the erase fix-up, x on the right: a red sibling is rotated away. */
    method ReplaceSiblingRight(x: int, xp: int, w0: int) returns (w: int)
      requires BlackChild(Sh(), red, bh, x, xp, w0, right, left) && red[w0]
      modifies this`left, this`right, this`parent, this`lo, this`hi, this`red, this`bh
      ensures BlackChild(Sh(), red, bh, x, xp, w, right, left) && !red[w] && red[xp]
      ensures KeptBy(old(Sh()), old(red), Sh(), red)
    {
      ghost var s, red0, bh0 := Sh(), red, bh;
      assert s.Ok(xp);
      red := red[w0 := false];
      red := red[xp := true];
      bh := bh[w0 := bh[w0] + 1][xp := bh[xp] - 1];
      RotateRight(xp);
      RedSiblingRight(s, Sh(), red0, bh0, x, xp, w0, red, bh);
      w := left[xp];
    }

    /** Case 3: the red near child of the sibling is rotated above it. */
    method RaiseNearNephewRight(x: int, xp: int, w: int)
      requires BlackChild(Sh(), red, bh, x, xp, w, right, left) && !red[w] && !Red(red, left[w]) && Red(red, right[w])
      modifies this`left, this`right, this`parent, this`lo, this`hi, this`red, this`bh
      ensures Sh().Sized() && 0 <= xp < |left|
      ensures BlackChild(Sh(), red, bh, x, xp, left[xp], right, left) && !red[left[xp]] && Red(red, left[left[xp]])
      ensures KeptBy(old(Sh()), old(red), Sh(), red)
    {
      ghost var s, red0, bh0 := Sh(), red, bh;
      assert s.Ok(w);
      if right[w] != NULL { red := red[right[w] := false]; }
      red := red[w := true];
      ghost var c := right[w];
      bh := bh[c := bh[c] + 1][w := bh[w] - 1];
      RotateLeft(w);
      RedNearNephew(s, Sh(), red0, bh0, x, xp, w, c, red, bh);
    }

    /** Case 4: the sibling takes the place of the parent, and the heights agree again. */
    method RaiseSiblingRight(ghost x: int, xp: int, w: int)
      requires BlackChild(Sh(), red, bh, x, xp, w, right, left) && !red[w] && Red(red, left[w])
      modifies this`left, this`right, this`parent, this`lo, this`hi, this`red, this`bh
      ensures RedBlack(Sh(), red, bh) && !Red(red, x)
      ensures KeptBy(old(Sh()), old(red), Sh(), red)
    {
      ghost var s, red0, bh0 := Sh(), red, bh;
      ghost var n := left[w];
      assert s.Ok(xp) && s.Ok(w) && s.Ok(x);
      red := red[w := red[xp]];
      red := red[xp := false];
      if left[w] != NULL { red := red[left[w] := false]; }
      bh := bh[w := bh[xp]][xp := bh[w]][n := bh[w]];
      HandDown(red0, bh0, xp, w, n, red, bh);
      RotateRight(xp);
      RedFarNephewRight(s, Sh(), red0, bh0, x, xp, w, n, red, bh);
    }

    method DarkenSiblingRight(ghost x: int, xp: int, w: int)
      requires BlackChild(Sh(), red, bh, x, xp, w, right, left) && !red[w]
      requires !Red(red, left[w]) && !Red(red, right[w])
      modifies this`red, this`bh
      ensures Erasing(Sh(), red, bh, xp, parent[xp])
      ensures red[xp] == old(red[xp]) && red[HEADER] == old(red[HEADER])
    {
      ghost var red0, bh0 := red, bh;
      assert Sh().Ok(xp);
      red := red[w := true];
      bh := bh[w := bh[w] - 1][xp := bh[xp] - 1];
      BlackNephewsRight(Sh(), red0, bh0, x, xp, w, red, bh);
    }

    /** One turn of the erase fix-up loop, x on the right. */
    method RebalanceEraseRight(x0: int, xp0: int) returns (x: int, xp: int, done: bool)
      requires Sh().Sized() && 0 <= xp0 < |left|
      requires BlackChild(Sh(), red, bh, x0, xp0, left[xp0], right, left)
      modifies this`left, this`right, this`parent, this`lo, this`hi, this`red, this`bh
      ensures KeptBy(old(Sh()), old(red), Sh(), red)
      ensures done ==> RedBlack(Sh(), red, bh) && !Red(red, x) && x == x0
      ensures !done ==> Erasing(Sh(), red, bh, x, xp)
      ensures !done && !Red(red, x) ==> x == xp0 && xp == old(parent[xp0]) && Sh() == old(Sh())
    {
      x, xp, done := x0, xp0, false;
      var w := left[xp];
      if red[w] {
        w := ReplaceSiblingRight(x, xp, w);
      }
      ChildRange(Sh(), w);
      if (right[w] == NULL || !red[right[w]]) && (left[w] == NULL || !red[left[w]]) {
        DarkenSiblingRight(x, xp, w);
        x := xp;
        xp := parent[xp];
      } else {
        if left[w] == NULL || !red[left[w]] {
          RaiseNearNephewRight(x, xp, w);
          w := left[xp];
        }
        RaiseSiblingRight(x, xp, w);
        done := true;
      }
    }

    ghost predicate Deficient(x: int, done: bool)
      requires Sh().Sized()
      reads this
    {
      !done && x != parent[HEADER] && !Red(red, x)
    }

    method RebalanceEraseStep(x0: int, xp0: int) returns (x: int, xp: int, done: bool)
      requires Erasing(Sh(), red, bh, x0, xp0) && Deficient(x0, false)
      modifies this`left, this`right, this`parent, this`lo, this`hi, this`red, this`bh
      ensures KeptBy(old(Sh()), old(red), Sh(), red)
      ensures done ==> RedBlack(Sh(), red, bh) && !Red(red, x)
      ensures !done ==> Erasing(Sh(), red, bh, x, xp)
      ensures NULL <= x < |red| && x != HEADER
      ensures Deficient(x, done) ==> Width(Sh(), xp) > old(Width(Sh(), xp0))
    {
      SpanGrows(Sh(), xp0);
      NodeOrNull(Sh(), red, bh, x0, xp0);
      if x0 == left[xp0] {
        LackLeft(Sh(), red, bh, x0, xp0);
        x, xp, done := RebalanceEraseLeft(x0, xp0);
      } else {
        LackRight(Sh(), red, bh, x0, xp0);
        x, xp, done := RebalanceEraseRight(x0, xp0);
      }
      if !done { NodeOrNull(Sh(), red, bh, x, xp); }
    }

    method RebalanceAfterErase(x0: int, xp0: int)
      requires Erasing(Sh(), red, bh, x0, xp0)
      modifies this`left, this`right, this`parent, this`lo, this`hi, this`red, this`bh
      ensures RedBlack(Sh(), red, bh)
      ensures KeptBy(old(Sh()), old(red), Sh(), red)
    {
      var x, xp, done := x0, xp0, false;
      NodeOrNull(Sh(), red, bh, x, xp);
      while !done && x != parent[HEADER] && (x == NULL || !red[x])
        invariant done ==> RedBlack(Sh(), red, bh) && !Red(red, x)
        invariant !done ==> Erasing(Sh(), red, bh, x, xp)
        invariant NULL <= x < |red| && x != HEADER
        invariant KeptBy(old(Sh()), old(red), Sh(), red)
        decreases Remaining(x, xp, done)
      {
        WidthBound(Sh(), xp);
        x, xp, done := RebalanceEraseStep(x, xp);
      }
      PaintLast(x, xp, done);
    }

    ghost function Remaining(x: int, xp: int, done: bool): int
      requires Sh().Sized()
      reads this
    {
      if Deficient(x, done) then 2 + |ord| - Width(Sh(), xp) else 0
    }

    method PaintLast(x: int, ghost xp: int, ghost done: bool)
      requires NULL <= x < |red| && x != HEADER
      requires if done then RedBlack(Sh(), red, bh) && !Red(red, x)
               else Erasing(Sh(), red, bh, x, xp) && (x == parent[HEADER] || Red(red, x))
      modifies this`red, this`bh
      ensures RedBlack(Sh(), red, bh) && red[HEADER] == old(red[HEADER])
    {
      ghost var red0, bh0 := red, bh;
      if x != NULL {
        if !done && red[x] { bh := bh[x := bh[x] + 1]; }
        red := red[x := false];
      }
      if !done {
        EraseDone(Sh(), red0, bh0, x, xp, bh);
        assert red == Blacken(red0, x);
      } else {
        assert red == red0;
      }
    }

    // ---------- taking a node out ----------

    method Minimum(x0: int) returns (x: int)
      requires Sh().Links() && Sh().IsNode(x0)
      ensures Sh().IsNode(x) && lo[x] == lo[x0] == at[x] && left[x] == NULL
      ensures x != x0 ==> Sh().IsNode(parent[x]) && left[parent[x]] == x && lo[parent[x]] == lo[x0]
    {
      x := x0;
      assert Sh().Ok(x);
      while left[x] != NULL
        invariant Sh().IsNode(x) && lo[x] == lo[x0] && Sh().Ok(x)
        invariant x != x0 ==> Sh().IsNode(parent[x]) && left[parent[x]] == x && lo[parent[x]] == lo[x0]
        decreases at[x] - lo[x]
      {
        assert Sh().Ok(left[x]);
        x := left[x];
      }
    }

    method Maximum(x0: int) returns (x: int)
      requires Sh().Links() && Sh().IsNode(x0)
      ensures Sh().IsNode(x) && hi[x] == hi[x0] == at[x] + 1 && right[x] == NULL
    {
      x := x0;
      assert Sh().Ok(x);
      while right[x] != NULL
        invariant Sh().IsNode(x) && hi[x] == hi[x0] && Sh().Ok(x)
        decreases hi[x] - at[x]
      {
        assert Sh().Ok(right[x]);
        x := right[x];
      }
    }

    /** z, which has at most the one child x, is cut out; x takes its place. */
    method Unlink(z: int, x: int)
      requires Sh().Links() && Sh().IsNode(z) && OnlyChild(Sh(), z, x)
      modifies this`left, this`right, this`parent, this`ord, this`lo, this`at, this`hi
      ensures Unlinked(old(Sh()), Sh(), z, x)
      ensures left[HEADER] == old(left[HEADER]) && right[HEADER] == old(right[HEADER])
    {
      ghost var s := Sh();
      ghost var k := at[z];
      AroundNode(s, z);
      if x != NULL {
        parent := parent[x := parent[z]];
      }
      Replace(z, x);
      ord := ord[..k] + ord[k + 1..];
      lo := CloseAll(k, lo);
      at := CloseAll(k, at)[z := -1];
      hi := CloseAll(k, hi);
    }

    /** The links below and around z are handed to its successor y, and y's child x
        moves up into the place of y. */
    method HandOver(z: int, y: int, x: int) returns (xp: int)
      requires Sh().Links() && Sh().IsNode(z) && IsSuccessor(Sh(), z, y) && x == right[y]
      modifies this`left, this`right, this`parent
      ensures xp == GapParent(old(Sh()), z, y)
      ensures |left| == |right| == |parent| == old(|left|)
      ensures forall p {:trigger left[p]} :: 0 <= p < |left| ==>
        left[p] == if p == y then old(left[z])
                   else if p == old(parent[y]) && old(left[p]) == y then x else old(left[p])
      ensures forall p {:trigger right[p]} :: 0 <= p < |left| ==>
        right[p] == if p == y && y != old(right[z]) then old(right[z]) else old(right[p])
      ensures forall p {:trigger parent[p]} :: 0 <= p < |left| ==>
        parent[p] == if p == old(left[z]) || (p == old(right[z]) && p != y) then y
                     else if p == x && y != old(right[z]) then old(parent[y]) else old(parent[p])
    {
      AroundSuccessor(Sh(), z, y);
      parent := parent[left[z] := y];
      left := left[y := left[z]];
      if y != right[z] {
        xp := parent[y];
        if x != NULL {
          parent := parent[x := parent[y]];
        }
        left := left[parent[y] := x];
        right := right[y := right[z]];
        parent := parent[right[z] := y];
      } else {
        xp := y;
      }
    }

    method RelinkPointers(z: int, y: int, x: int) returns (xp: int)
      requires Sh().Links() && Sh().IsNode(z) && IsSuccessor(Sh(), z, y) && x == right[y]
      modifies this`left, this`right, this`parent
      ensures RelinkedPointers(old(Sh()), Sh(), z, y) && xp == GapParent(old(Sh()), z, y)
    {
      AroundSuccessor(Sh(), z, y);
      xp := HandOver(z, y, x);
      Replace(z, y);
      parent := parent[y := parent[z]];
    }

    /** y, the successor of z, takes the place of z, and x, its child, the place of y. */
    method Relink(z: int, y: int, x: int) returns (xp: int)
      requires Sh().Links() && Sh().IsNode(z) && IsSuccessor(Sh(), z, y) && x == right[y]
      modifies this`left, this`right, this`parent, this`ord, this`lo, this`at, this`hi
      ensures Relinked(old(Sh()), Sh(), z, y) && xp == GapParent(old(Sh()), z, y)
    {
      ghost var s := Sh();
      ghost var k := at[z];
      xp := RelinkPointers(z, y, x);
      ord := ord[..k] + ord[k + 1..];
      lo := CloseAll(k + 1, lo)[y := s.lo[z]];
      at := CloseAll(k, at)[z := -1];
      hi := CloseAll(k, hi)[y := s.hi[z] - 1];
    }

    /** The cached first node after z was cut out. */
    method AdvanceFirst(z: int, x: int, ghost s: Shape)
      requires s.Links() && s.Ends() && s.IsNode(z) && OnlyChild(s, z, x) && Unlinked(s, Sh(), z, x)
      requires left[HEADER] == s.left[HEADER]
      modifies this`left
      ensures |left| == old(|left|) && forall p {:trigger left[p]} :: 0 < p < |left| ==> left[p] == old(left[p])
      ensures left[HEADER] == (if ord == [] then HEADER else ord[0])
    {
      AroundNode(s, z);
      UnlinkedLinks(s, Sh(), z, x);
      if left[HEADER] == z {
        FirstAfterUnlink(s, Sh(), z, x);
        if right[z] == NULL {
          left := left[HEADER := parent[z]];
        } else {
          var m := Minimum(x);
          left := left[HEADER := m];
        }
      }
    }

    method AdvanceLast(z: int, x: int, ghost s: Shape)
      requires s.Links() && s.Ends() && s.IsNode(z) && OnlyChild(s, z, x) && Unlinked(s, Sh(), z, x)
      requires right[HEADER] == s.right[HEADER]
      modifies this`right
      ensures |right| == old(|right|) && forall p {:trigger right[p]} :: 0 < p < |right| ==> right[p] == old(right[p])
      ensures right[HEADER] == (if ord == [] then HEADER else ord[|ord| - 1])
    {
      AroundNode(s, z);
      UnlinkedLinks(s, Sh(), z, x);
      if right[HEADER] == z {
        LastAfterUnlink(s, Sh(), z, x);
        if left[z] == NULL {
          right := right[HEADER := parent[z]];
        } else {
          var m := Maximum(x);
          right := right[HEADER := m];
        }
      }
    }

    method AdvanceEnds(z: int, x: int, ghost s: Shape)
      requires s.Links() && s.Ends() && s.IsNode(z) && OnlyChild(s, z, x) && Unlinked(s, Sh(), z, x)
      requires left[HEADER] == s.left[HEADER] && right[HEADER] == s.right[HEADER]
      modifies this`left, this`right
      ensures Unlinked(s, Sh(), z, x) && Sh().Ends()
    {
      AdvanceFirst(z, x, s);
      AdvanceLast(z, x, s);
    }

    /** z has at most one child: it is cut out. */
    method EraseSimple(z: int, x: int) returns (xp: int)
      requires Valid() && Sh().IsNode(z) && OnlyChild(Sh(), z, x)
      modifies this`left, this`right, this`parent, this`ord, this`lo, this`at, this`hi
      ensures if red[z] then RedBlack(Sh(), red, bh) else Erasing(Sh(), red, bh, x, xp)
      ensures Sh().Ends() && ord == old(ord)[..old(at[z])] + old(ord)[old(at[z]) + 1..] && |left| == old(|left|)
    {
      ghost var s := Sh();
      xp := parent[z];
      Unlink(z, x);
      AdvanceEnds(z, x, s);
      UnlinkedColour(s, Sh(), red, bh, z, x);
    }

    /** z has two children: its successor y takes its place and its colour. */
    method EraseInner(z: int, y: int, x: int) returns (xp: int)
      requires Valid() && Sh().IsNode(z) && IsSuccessor(Sh(), z, y) && x == right[y] && 0 < at[z] < |ord| - 1
      modifies this`left, this`right, this`parent, this`red, this`ord, this`lo, this`at, this`hi, this`bh
      ensures z < |red| && if red[z] then RedBlack(Sh(), red, bh) else Erasing(Sh(), red, bh, x, xp)
      ensures Sh().Ends() && ord == old(ord)[..old(at[z])] + old(ord)[old(at[z]) + 1..] && |left| == old(|left|)
      ensures red[HEADER]
    {
      ghost var s, red0, bh0 := Sh(), red, bh;
      xp := Relink(z, y, x);
      red := red[y := red[z]][z := red[y]];
      bh := bh[y := bh[z]];
      assert Traded(red0, red, bh0, bh, z, y);
      RelinkedColour(s, Sh(), red0, bh0, z, y, red, bh);
    }

    /** z itself when it has a free side, otherwise its successor; and that node's child. */
    method NodeToMove(z: int) returns (y: int, x: int)
      requires Valid() && Sh().IsNode(z)
      ensures y == z ==> OnlyChild(Sh(), z, x)
      ensures y != z ==> IsSuccessor(Sh(), z, y) && x == right[y] && 0 < at[z] < |ord| - 1
    {
      y := z;
      AroundNode(Sh(), z);
      if left[y] == NULL {
        x := right[y];
      } else if right[y] == NULL {
        x := left[y];
      } else {
        assert Sh().Ok(z);
        y := Minimum(right[y]);
        x := right[y];
        SuccessorExists(Sh(), z, y);
      }
    }

    /** Takes z out of the tree; only z changes its place in the sequence of nodes. */
    method RebalanceForErase(z: int) returns (y: int)
      requires Valid() && Sh().IsNode(z)
      modifies this
      ensures Valid() && y == z && |left| == old(|left|)
      ensures ord == old(ord)[..old(at[z])] + old(ord)[old(at[z]) + 1..]
    {
      var x, xp;
      y, x := NodeToMove(z);
      if y != z {
        xp := EraseInner(z, y, x);
        y := z;
      } else {
        xp := EraseSimple(z, x);
      }
      if !red[y] {
        RebalanceAfterErase(x, xp);
      }
    }

    // ---------- linking a new leaf ----------

    /** A fresh cell of the arena; its links are still to be set. */
    method NewNode() returns (z: int)
      requires Sh().Sized() && |red| == |left|
      modifies this`left, this`right, this`parent, this`red, this`lo, this`at, this`hi
      ensures z == old(|left|) && Sh().Sized()
      ensures left == old(left) + [NULL] && right == old(right) + [NULL] && parent == old(parent) + [NULL]
      ensures red == old(red) + [true]
      ensures lo == old(lo) + [0] && at == old(at) + [0] && hi == old(hi) + [0]
    {
      z := |left|;
      left, right, parent, red := left + [NULL], right + [NULL], parent + [NULL], red + [true];
      lo, at, hi := lo + [0], at + [0], hi + [0];
    }

    /** A new node z becomes a leaf below y. */
    method LinkLeaf(y: int, asLeft: bool) returns (z: int)
      requires Sh().Sized() && |red| == |left| && 0 <= y < |left| && (y == HEADER ==> asLeft)
      modifies this`left, this`right, this`parent, this`red, this`ord, this`lo, this`at, this`hi
      ensures |lo| == |at| == |hi| == |left| && LeafLinked(old(Sh()), Sh(), z, y, asLeft)
      ensures left[HEADER] == (if asLeft && (y == HEADER || y == old(left[HEADER])) then z else old(left[HEADER]))
      ensures right[HEADER] == (if y == HEADER || (!asLeft && y == old(right[HEADER])) then z else old(right[HEADER]))
      ensures red == old(red) + [true]
      ensures ord == old(ord) && lo == old(lo) + [0] && at == old(at) + [0] && hi == old(hi) + [0]
    {
      z := NewNode();
      if asLeft {
        left := left[y := z];
        if y == HEADER {
          parent := parent[HEADER := z];
          right := right[HEADER := z];
        } else if y == left[HEADER] {
          left := left[HEADER := z];
        }
      } else {
        right := right[y := z];
        if y == right[HEADER] {
          right := right[HEADER := z];
        }
      }
      parent := parent[z := y];
      left := left[z := NULL];
      right := right[z := NULL];
    }

    method PlaceLeaf(y: int, asLeft: bool, ghost k: int) returns (z: int)
      requires Valid() && Vacant(Sh(), y, asLeft, k)
      modifies this
      ensures Inserted(old(Sh()), Sh(), z, y, asLeft, k) && Sh().Ends()
      ensures red == old(red) + [true] && bh == old(bh) + [0]
    {
      ghost var s := Sh();
      z := LinkLeaf(y, asLeft);
      ghost var j := if asLeft then k + 1 else k;
      ord := ord[..k] + [z] + ord[k..];
      lo, at, hi := OpenAll(j, s.lo) + [k], OpenAll(k, s.at) + [k], OpenAll(j, s.hi) + [k + 1];
      bh := bh + [0];
      EndsAfterInsert(s, Sh(), z, y, asLeft, k);
    }

    method InsertLeaf(y: int, asLeft: bool, ghost k: int) returns (z: int)
      requires Valid() && Vacant(Sh(), y, asLeft, k)
      modifies this
      ensures Valid() && z == old(|left|) && |left| == old(|left|) + 1
      ensures ord == old(ord)[..k] + [z] + old(ord)[k..]
    {
      ghost var s, red0, bh0 := Sh(), red, bh;
      z := PlaceLeaf(y, asLeft, k);
      InsertedColour(s, Sh(), red0, bh0, z, y, asLeft, k);
      assert red[z := true] == red0 + [true];
      Rebalance(z);
    }

    // ---------- walking ----------

    /** The node at position i, or the header past the last one. */
    ghost function NodeAt(i: int): int
      requires 0 <= i <= |ord|
      reads this
    {
      if i == |ord| then HEADER else ord[i]
    }

    lemma NodeAtIs(i: int)
      requires Shaped() && 0 <= i <= |ord|
      ensures NodeAt(i) == HEADER <==> i == |ord|
      ensures i < |ord| ==> Sh().IsNode(NodeAt(i)) && at[NodeAt(i)] == i
      ensures 0 <= NodeAt(i) < |left|
    {
    }

    lemma EndsAre()
      requires Shaped()
      ensures left[HEADER] == NodeAt(0)
      ensures ord != [] ==> Sh().IsNode(left[HEADER]) && at[left[HEADER]] == 0 && left[left[HEADER]] == NULL
      ensures ord != [] ==> Sh().IsNode(right[HEADER]) && at[right[HEADER]] == |ord| - 1 && right[right[HEADER]] == NULL
    {
      if ord != [] {
        NodeAtIs(0);
        NodeAtIs(|ord| - 1);
        assert Sh().Ok(left[HEADER]) && Sh().Ok(right[HEADER]);
        assert Sh().Ok(left[left[HEADER]]) && Sh().Ok(right[right[HEADER]]);
      }
    }

    method Increment(node0: int) returns (node: int)
      requires Shaped() && Sh().IsNode(node0)
      ensures node == NodeAt(at[node0] + 1)
    {
      node := node0;
      assert Sh().Ok(node);
      if right[node] != NULL {
        node := Minimum(right[node]);
      } else {
        var y := parent[node];
        while node == right[y]
          invariant if node == HEADER then y == parent[HEADER] == right[HEADER] && at[node0] + 1 == |ord|
                    else Sh().IsNode(node) && y == parent[node] && hi[node] == at[node0] + 1
          invariant 0 <= y < |left|
          decreases if node == HEADER then -1 else |ord| - (hi[node] - lo[node])
        {
          assert Sh().Ok(node) && Sh().Ok(y);
          node := y;
          y := parent[y];
          assert Sh().Ok(node) && Sh().Ok(y);
        }
        assert Sh().Ok(node) && Sh().Ok(y) && Sh().Ok(parent[HEADER]);
        if right[node] != y {
          node := y;
        }
      }
    }

    method Decrement(node0: int) returns (node: int)
      requires Valid()
      requires (node0 == HEADER && ord != []) || (Sh().IsNode(node0) && at[node0] > 0)
      ensures Sh().IsNode(node) && NodeAt(at[node] + 1) == node0
    {
      node := node0;
      assert Sh().Ok(node) && Sh().Ok(parent[HEADER]) && Sh().Ok(parent[node]);
      assert !Red(red, parent[HEADER]);
      if red[node] && parent[parent[node]] == node {
        node := right[node];
      } else if left[node] != NULL {
        node := Maximum(left[node]);
      } else {
        var y := parent[node];
        while node == left[y]
          invariant Sh().IsNode(node) && y == parent[node] && lo[node] == at[node0] && 0 <= y < |left|
          decreases |ord| - (hi[node] - lo[node])
        {
          assert Sh().Ok(node) && Sh().Ok(y);
          node := y;
          y := parent[y];
          assert Sh().Ok(node) && Sh().Ok(y);
        }
        assert Sh().Ok(node) && Sh().Ok(y);
        node := y;
      }
    }

    method Clear()
      requires Valid()
      modifies this
      ensures Valid() && ord == [] && |left| == old(|left|)
    {
      left := left[HEADER := HEADER];
      parent := parent[HEADER := NULL];
      right := right[HEADER := HEADER];
      ord := [];
      forall p ensures Sh().Ok(p) && Bal(Sh(), red, bh, p) && NoRedRed(Sh(), red, p) {}
    }
  }
}
