/** Deletion from the directory index: `_transplant`, `_fix_delete` and `ecache_delete` of
    `src/ecache.c`, with every pointer the source dereferences checked for null. */
module EcacheDelete {
  import opened Ecache

  /** The subtree `x` of `xp` is one black node short of its sibling. */
  ghost predicate Short(x: Node?, xp: Node)
    reads x, xp, xp.l, xp.r
  {
    || (x == xp.l && BH(x) + 1 == BH(xp.r) && xp.bh == BH(xp.r) + if xp.black then 1 else 0)
    || (x == xp.r && BH(x) + 1 == BH(xp.l) && xp.bh == BH(xp.l) + if xp.black then 1 else 0)
  }

  /** No red-red edge at `n` once `x` is painted black. */
  ghost predicate RedOkBut(n: Node, x: Node?)
    reads n, n.p
  {
    n == x || (x != null && n.p == x) || RedOk(n)
  }

  /** The invariant of the deletion fix-up: a red-black tree, but for the subtree `x` of `xp`,
      which is one black node short, and whose root counts as black. */
  ghost predicate Deficient(root: Node?, x: Node?, xp: Node?, S: set<Node>)
    reads S
  {
    && Links(root, S)
    && (x != null ==> x in S && x.p == xp)
    && (xp == null ==> x == root)
    && (xp != null ==> xp in S && assert Linked(xp, root, S); (x == xp.l || x == xp.r) && Short(x, xp))
    && (forall n {:trigger Height(n)} | n in S && n != xp :: assert Linked(n, root, S); Height(n))
    && (forall n {:trigger RedOkBut(n, x)} | n in S :: assert Linked(n, root, S); RedOkBut(n, x))
    && (root != null && root != x ==> root.black)
  }

  /** The state in which the source also enters the fix-up, although nothing is missing: the
      replaced node was black and its successor, which took the place, was red. */
  ghost predicate Even(root: Node?, x: Node?, xp: Node?, S: set<Node>)
    reads S
  {
    && RedBlack(root, S) && x == null && xp != null && xp in S
    && assert Linked(xp, root, S);
      BH(xp.l) == 0 && (xp.l == null || xp.r == null)
  }

  ghost predicate FixEntry(root: Node?, x: Node?, xp: Node?, S: set<Node>)
    reads S
  {
    Deficient(root, x, xp, S) || Even(root, x, xp, S)
  }

  /** A red sibling on the right: rotate it above `xp`, so that the new sibling is black. */
  method RedSiblingLeft(root: Node, x: Node?, xp: Node, ghost S: set<Node>) returns (newRoot: Node)
    requires Deficient(root, x, xp, S) && (x == null || x.black)
    requires x == xp.l && xp.r != null && !xp.r.black && xp.l != xp.r
    modifies S`p, S`l, S`r, S`lo, S`hi, S`black, S`bh
    ensures Deficient(newRoot, x, xp, S) && (x == null || x.black)
    ensures x == xp.l && xp.r != null && xp.r in S && xp.r.black && !xp.black && xp.l != xp.r
  {
    ghost var w := xp.r;
    assert Linked(xp, root, S) && Linked(w, root, S) && Height(w);
    assert RedOkBut(w, x);
    assert w.l != null && w.r != null && Linked(w.l, root, S) && Linked(w.r, root, S);
    assert RedOkBut(w.l, x) && RedOkBut(w.r, x);
    newRoot := SwapRotateLeft(root, xp, S);
    forall n | n in S ensures (n != xp ==> Height(n)) && RedOkBut(n, x) {
      assert old(Linked(n, root, S) && (n != xp ==> Height(n)) && RedOkBut(n, x));
    }
  }

  /** The same statements when nothing is missing: the red sibling is a leaf, and none is left. */
  method RedLeafLeft(root: Node, xp: Node, ghost S: set<Node>) returns (newRoot: Node)
    requires Even(root, null, xp, S) && xp.l == null && xp.r != null && !xp.r.black && xp.r.l == null
    modifies S`p, S`l, S`r, S`lo, S`hi, S`black, S`bh
    ensures xp.r == null
  {
    assert Linked(xp, root, S) && Linked(xp.r, root, S) && RedOk(xp.r) && Height(xp);
    newRoot := SwapRotateLeft(root, xp, S);
  }

  /** A black sibling is reddened: the black heights below `xp` agree again. */
  method ReddenLeft(root: Node, x: Node?, xp: Node, ghost S: set<Node>)
    requires Deficient(root, x, xp, S) && (x == null || x.black)
    requires x == xp.l && xp.r != null && xp.r.black && xp.l != xp.r
    modifies S`black, S`bh
    ensures xp.p != null ==> xp.p in S && Short(xp, xp.p)
    ensures forall n {:trigger Height(n)} | n in S && n != xp.p :: assert Linked(n, root, S); Height(n)
    ensures !xp.r.black && forall n | n in S && n != xp.r :: n.black == old(n.black)
  {
    hide RedOkBut;
    assert Linked(xp, root, S) && Linked(xp.r, root, S) && Height(xp.r);
    TakeBlackness(xp.r, xp);
    assert xp.p != null ==> Short(xp, xp.p) by {
      assert xp.p != null ==> old(Linked(xp.p, root, S) && Height(xp.p));
    }
    forall n | n in S && n != xp.p ensures Height(n) {
      assert old(Linked(n, root, S) && (n != xp ==> Height(n)));
    }
  }

  /** A black sibling with black children: redden it, and the deficit moves up to `xp`. */
  method PushUpLeft(root: Node, x: Node?, xp: Node, ghost S: set<Node>)
    requires Deficient(root, x, xp, S) && (x == null || x.black)
    requires x == xp.l && xp.r != null && xp.r.black && xp.l != xp.r
    requires (xp.r.l == null || xp.r.l.black) && (xp.r.r == null || xp.r.r.black)
    modifies S`black, S`bh
    ensures Deficient(root, xp, xp.p, S) && xp.black == old(xp.black)
  {
    hide Height, Short;
    ghost var w := xp.r;
    assert Linked(xp, root, S) && Linked(w, root, S);
    ReddenLeft(root, x, xp, S);
    assert xp.p != null ==> Linked(xp.p, root, S);
    forall n | n in S ensures RedOkBut(n, xp) {
      assert old(Linked(n, root, S) && RedOkBut(n, x));
    }
  }

  /** A black sibling with a red inner child only: rotate the red child outwards. */
  method InnerNephewLeft(root: Node, x: Node?, xp: Node, ghost S: set<Node>) returns (newRoot: Node)
    requires Deficient(root, x, xp, S) && (x == null || x.black)
    requires x == xp.l && xp.r != null && xp.r.black && xp.l != xp.r
    requires xp.r.l != null && !xp.r.l.black && (xp.r.r == null || xp.r.r.black)
    modifies S`p, S`l, S`r, S`lo, S`hi, S`black, S`bh
    ensures Deficient(newRoot, x, xp, S) && (x == null || x.black)
    ensures x == xp.l && xp.r != null && xp.r.black && xp.l != xp.r
    ensures xp.r in S && xp.r.r != null && !xp.r.r.black
  {
    ghost var w := xp.r;
    ghost var v := w.l;
    assert Linked(xp, root, S) && Linked(w, root, S) && Height(w);
    assert Linked(v, root, S) && Height(v) && RedOkBut(v, x);
    newRoot := SwapRotateRight(root, xp.r, S);
    assert AsideRight(xp, w, v);
    forall n | n in S ensures (n != xp ==> Height(n)) && RedOkBut(n, x) {
      assert old(Linked(n, root, S) && (n != xp ==> Height(n)) && RedOkBut(n, x));
    }
  }

  /** The last rotation: recolour `xp`, its right child and right grandchild, then rotate. */
  method TurnLeft(root: Node, xp: Node, ghost S: set<Node>) returns (newRoot: Node)
    requires Links(root, S) && xp in S && xp.r != null && xp.r in S && xp.r.r != null && xp.r.r in S
    requires xp.r.black && xp.r.bh > 0
    modifies S`p, S`l, S`r, S`lo, S`hi, S`black, S`bh
    ensures old(xp.r) in S && Links(newRoot, S) && RotatedLeft(xp, S)
    ensures newRoot == if xp == root then old(xp.r) else root
    ensures var w, v := old(xp.r), old(xp.r.r);
      && w.black == old(xp.black) && xp.black && v.black
      && xp.bh == old(w.bh) && v.bh == old(v.bh) + 1 && w.bh == old(w.bh) + (if w.black then 1 else 0)
      && forall n | n in S && n != w && n != v && n != xp :: n.black == old(n.black) && n.bh == old(n.bh)
  {
    assert Linked(xp, root, S) && Linked(xp.r, root, S) && Linked(xp.r.r, root, S);
    ghost var y := xp.r;
    PassColours(xp, xp.r, xp.r.r);
    newRoot := RotateLeft(root, xp, S);
    forall n | n in S && n != xp && n != y ensures AsideLeft(n, xp, y) {}
  }

  /** The last rotation makes up for the missing black node. */
  method BalanceLeft(root: Node, x: Node?, xp: Node, ghost S: set<Node>) returns (newRoot: Node)
    requires Deficient(root, x, xp, S) && (x == null || x.black)
    requires x == xp.l && xp.r != null && xp.r.black && xp.l != xp.r
    requires xp.r.r != null && !xp.r.r.black
    modifies S`p, S`l, S`r, S`lo, S`hi, S`black, S`bh
    ensures var w, v := old(xp.r), old(xp.r.r);
      && w in S && v in S && Links(newRoot, S) && RotatedLeft(xp, S) && newRoot == (if xp == root then w else root)
      && w.black == old(xp.black) && xp.black && v.black
      && forall n | n in S && n != w && n != v && n != xp :: n.black == old(n.black)
    ensures forall n {:trigger Height(n)} | n in S :: assert Linked(n, newRoot, S); Height(n)
  {
    hide RedOkBut;
    ghost var w := xp.r;
    ghost var v := w.r;
    assert Linked(xp, root, S) && Linked(w, root, S) && Height(w);
    assert Linked(v, root, S) && Height(v);
    newRoot := TurnLeft(root, xp, S);
    forall n | n in S ensures Height(n) {
      assert old(Linked(n, root, S) && (n != xp ==> Height(n)));
    }
  }

  /** A black sibling with a red outer child: the last rotation of the fix-up. */
  method OuterNephewLeft(root: Node, x: Node?, xp: Node, ghost S: set<Node>) returns (newRoot: Node)
    requires Deficient(root, x, xp, S) && (x == null || x.black)
    requires x == xp.l && xp.r != null && xp.r.black && xp.l != xp.r
    requires xp.r.r != null && !xp.r.r.black
    modifies S`p, S`l, S`r, S`lo, S`hi, S`black, S`bh
    ensures RedBlack(newRoot, S)
  {
    hide Height, Short;
    ghost var w := xp.r;
    ghost var v := w.r;
    assert Linked(xp, root, S) && Linked(w, root, S) && Linked(v, root, S) && RedOkBut(v, x);
    assert RedOkBut(xp, x) && (xp.p != null ==> Linked(xp.p, root, S));
    newRoot := BalanceLeft(root, x, xp, S);
    forall n | n in S ensures RedOk(n) {
      assert old(Linked(n, root, S) && RedOkBut(n, x));
    }
  }

  /** A red sibling on the left: rotate it above `xp`, so that the new sibling is black. */
  method RedSiblingRight(root: Node, x: Node?, xp: Node, ghost S: set<Node>) returns (newRoot: Node)
    requires Deficient(root, x, xp, S) && (x == null || x.black)
    requires x == xp.r && xp.l != null && !xp.l.black && xp.r != xp.l
    modifies S`p, S`l, S`r, S`lo, S`hi, S`black, S`bh
    ensures Deficient(newRoot, x, xp, S) && (x == null || x.black)
    ensures x == xp.r && xp.l != null && xp.l in S && xp.l.black && !xp.black && xp.r != xp.l
  {
    ghost var w := xp.l;
    assert Linked(xp, root, S) && Linked(w, root, S) && Height(w);
    assert RedOkBut(w, x);
    assert w.r != null && w.l != null && Linked(w.r, root, S) && Linked(w.l, root, S);
    assert RedOkBut(w.r, x) && RedOkBut(w.l, x);
    newRoot := SwapRotateRight(root, xp, S);
    forall n | n in S ensures (n != xp ==> Height(n)) && RedOkBut(n, x) {
      assert old(Linked(n, root, S) && (n != xp ==> Height(n)) && RedOkBut(n, x));
    }
  }

  /** The same statements when nothing is missing: the red sibling is a leaf, and none is right. */
  method RedLeafRight(root: Node, xp: Node, ghost S: set<Node>) returns (newRoot: Node)
    requires Even(root, null, xp, S) && xp.r == null && xp.l != null && !xp.l.black && xp.l.r == null
    modifies S`p, S`l, S`r, S`lo, S`hi, S`black, S`bh
    ensures xp.l == null
  {
    assert Linked(xp, root, S) && Linked(xp.l, root, S) && RedOk(xp.l) && Height(xp);
    newRoot := SwapRotateRight(root, xp, S);
  }

  /** A black sibling is reddened: the black heights below `xp` agree again. */
  method ReddenRight(root: Node, x: Node?, xp: Node, ghost S: set<Node>)
    requires Deficient(root, x, xp, S) && (x == null || x.black)
    requires x == xp.r && xp.l != null && xp.l.black && xp.r != xp.l
    modifies S`black, S`bh
    ensures xp.p != null ==> xp.p in S && Short(xp, xp.p)
    ensures forall n {:trigger Height(n)} | n in S && n != xp.p :: assert Linked(n, root, S); Height(n)
    ensures !xp.l.black && forall n | n in S && n != xp.l :: n.black == old(n.black)
  {
    hide RedOkBut;
    assert Linked(xp, root, S) && Linked(xp.l, root, S) && Height(xp.l);
    TakeBlackness(xp.l, xp);
    assert xp.p != null ==> Short(xp, xp.p) by {
      assert xp.p != null ==> old(Linked(xp.p, root, S) && Height(xp.p));
    }
    forall n | n in S && n != xp.p ensures Height(n) {
      assert old(Linked(n, root, S) && (n != xp ==> Height(n)));
    }
  }

  /** A black sibling with black children: redden it, and the deficit moves up to `xp`. */
  method PushUpRight(root: Node, x: Node?, xp: Node, ghost S: set<Node>)
    requires Deficient(root, x, xp, S) && (x == null || x.black)
    requires x == xp.r && xp.l != null && xp.l.black && xp.r != xp.l
    requires (xp.l.r == null || xp.l.r.black) && (xp.l.l == null || xp.l.l.black)
    modifies S`black, S`bh
    ensures Deficient(root, xp, xp.p, S) && xp.black == old(xp.black)
  {
    hide Height, Short;
    ghost var w := xp.l;
    assert Linked(xp, root, S) && Linked(w, root, S);
    ReddenRight(root, x, xp, S);
    assert xp.p != null ==> Linked(xp.p, root, S);
    forall n | n in S ensures RedOkBut(n, xp) {
      assert old(Linked(n, root, S) && RedOkBut(n, x));
    }
  }

  /** A black sibling with a red inner child only: rotate the red child outwards. */
  method InnerNephewRight(root: Node, x: Node?, xp: Node, ghost S: set<Node>) returns (newRoot: Node)
    requires Deficient(root, x, xp, S) && (x == null || x.black)
    requires x == xp.r && xp.l != null && xp.l.black && xp.r != xp.l
    requires xp.l.r != null && !xp.l.r.black && (xp.l.l == null || xp.l.l.black)
    modifies S`p, S`l, S`r, S`lo, S`hi, S`black, S`bh
    ensures Deficient(newRoot, x, xp, S) && (x == null || x.black)
    ensures x == xp.r && xp.l != null && xp.l.black && xp.r != xp.l
    ensures xp.l in S && xp.l.l != null && !xp.l.l.black
  {
    ghost var w := xp.l;
    ghost var v := w.r;
    assert Linked(xp, root, S) && Linked(w, root, S) && Height(w);
    assert Linked(v, root, S) && Height(v) && RedOkBut(v, x);
    newRoot := SwapRotateLeft(root, xp.l, S);
    assert AsideLeft(xp, w, v);
    forall n | n in S ensures (n != xp ==> Height(n)) && RedOkBut(n, x) {
      assert old(Linked(n, root, S) && (n != xp ==> Height(n)) && RedOkBut(n, x));
    }
  }

  /** The last rotation: recolour `xp`, its left child and left grandchild, then rotate. */
  method TurnRight(root: Node, xp: Node, ghost S: set<Node>) returns (newRoot: Node)
    requires Links(root, S) && xp in S && xp.l != null && xp.l in S && xp.l.l != null && xp.l.l in S
    requires xp.l.black && xp.l.bh > 0
    modifies S`p, S`l, S`r, S`lo, S`hi, S`black, S`bh
    ensures old(xp.l) in S && Links(newRoot, S) && RotatedRight(xp, S)
    ensures newRoot == if xp == root then old(xp.l) else root
    ensures var w, v := old(xp.l), old(xp.l.l);
      && w.black == old(xp.black) && xp.black && v.black
      && xp.bh == old(w.bh) && v.bh == old(v.bh) + 1 && w.bh == old(w.bh) + (if w.black then 1 else 0)
      && forall n | n in S && n != w && n != v && n != xp :: n.black == old(n.black) && n.bh == old(n.bh)
  {
    assert Linked(xp, root, S) && Linked(xp.l, root, S) && Linked(xp.l.l, root, S);
    ghost var y := xp.l;
    PassColours(xp, xp.l, xp.l.l);
    newRoot := RotateRight(root, xp, S);
    forall n | n in S && n != xp && n != y ensures AsideRight(n, xp, y) {}
  }

  /** The last rotation makes up for the missing black node. */
  method BalanceRight(root: Node, x: Node?, xp: Node, ghost S: set<Node>) returns (newRoot: Node)
    requires Deficient(root, x, xp, S) && (x == null || x.black)
    requires x == xp.r && xp.l != null && xp.l.black && xp.r != xp.l
    requires xp.l.l != null && !xp.l.l.black
    modifies S`p, S`l, S`r, S`lo, S`hi, S`black, S`bh
    ensures var w, v := old(xp.l), old(xp.l.l);
      && w in S && v in S && Links(newRoot, S) && RotatedRight(xp, S) && newRoot == (if xp == root then w else root)
      && w.black == old(xp.black) && xp.black && v.black
      && forall n | n in S && n != w && n != v && n != xp :: n.black == old(n.black)
    ensures forall n {:trigger Height(n)} | n in S :: assert Linked(n, newRoot, S); Height(n)
  {
    hide RedOkBut;
    ghost var w := xp.l;
    ghost var v := w.l;
    assert Linked(xp, root, S) && Linked(w, root, S) && Height(w);
    assert Linked(v, root, S) && Height(v);
    newRoot := TurnRight(root, xp, S);
    forall n | n in S ensures Height(n) {
      assert old(Linked(n, root, S) && (n != xp ==> Height(n)));
    }
  }

  /** A black sibling with a red outer child: the last rotation of the fix-up. */
  method OuterNephewRight(root: Node, x: Node?, xp: Node, ghost S: set<Node>) returns (newRoot: Node)
    requires Deficient(root, x, xp, S) && (x == null || x.black)
    requires x == xp.r && xp.l != null && xp.l.black && xp.r != xp.l
    requires xp.l.l != null && !xp.l.l.black
    modifies S`p, S`l, S`r, S`lo, S`hi, S`black, S`bh
    ensures RedBlack(newRoot, S)
  {
    hide Height, Short;
    ghost var w := xp.l;
    ghost var v := w.l;
    assert Linked(xp, root, S) && Linked(w, root, S) && Linked(v, root, S) && RedOkBut(v, x);
    assert RedOkBut(xp, x) && (xp.p != null ==> Linked(xp.p, root, S));
    newRoot := BalanceRight(root, x, xp, S);
    forall n | n in S ensures RedOk(n) {
      assert old(Linked(n, root, S) && RedOkBut(n, x));
    }
  }

  method TakeBlackness(w: Node, ghost xp: Node)
    requires w != xp && w.black && w.bh > 0 && xp.bh > 0
    modifies w`black, w`bh, xp`bh
    ensures !w.black && w.bh == old(w.bh) - 1 && xp.bh == old(xp.bh) - 1
  {
    w.black := false;
    w.bh, xp.bh := w.bh - 1, xp.bh - 1;
  }

  /** The sibling `w` takes the colour of `xp`; `xp` and the nephew `v` become black. */
  method PassColours(xp: Node, w: Node, v: Node)
    requires xp != w && xp != v && w != v && w.black && w.bh > 0
    modifies {xp, w, v}`black, {xp, w, v}`bh
    ensures xp.black && v.black && w.black == old(xp.black)
    ensures xp.bh == old(w.bh) && v.bh == old(v.bh) + 1 && w.bh == old(w.bh) + if w.black then 1 else 0
  {
    w.black := xp.black;
    xp.black := true;
    v.black := true;
    xp.bh, v.bh, w.bh := w.bh, v.bh + 1, w.bh + if w.black then 1 else 0;
  }

  /** A black sibling with a red child: one or two rotations settle the deficit. */
  method LastRotationsLeft(root: Node, x: Node?, xp: Node, ghost S: set<Node>) returns (newRoot: Node)
    requires Deficient(root, x, xp, S) && (x == null || x.black)
    requires x == xp.l && xp.r != null && xp.r.black && xp.l != xp.r
    requires !((xp.r.l == null || xp.r.l.black) && (xp.r.r == null || xp.r.r.black))
    modifies S`p, S`l, S`r, S`lo, S`hi, S`black, S`bh
    ensures RedBlack(newRoot, S)
  {
    newRoot := root;
    if xp.r.r == null || xp.r.r.black {
      newRoot := InnerNephewLeft(newRoot, x, xp, S);
    }
    newRoot := OuterNephewLeft(newRoot, x, xp, S);
  }

  /** A black sibling with a red child: one or two rotations settle the deficit. */
  method LastRotationsRight(root: Node, x: Node?, xp: Node, ghost S: set<Node>) returns (newRoot: Node)
    requires Deficient(root, x, xp, S) && (x == null || x.black)
    requires x == xp.r && xp.l != null && xp.l.black && xp.r != xp.l
    requires !((xp.l.r == null || xp.l.r.black) && (xp.l.l == null || xp.l.l.black))
    modifies S`p, S`l, S`r, S`lo, S`hi, S`black, S`bh
    ensures RedBlack(newRoot, S)
  {
    newRoot := root;
    if xp.l.l == null || xp.l.l.black {
      newRoot := InnerNephewRight(newRoot, x, xp, S);
    }
    newRoot := OuterNephewRight(newRoot, x, xp, S);
  }

  lemma {:induction false} RedBlackIsDeficient(root: Node, S: set<Node>)
    requires RedBlack(root, S)
    ensures Deficient(root, root, null, S)
  {
    forall n | n in S ensures RedOkBut(n, root) {
      assert Linked(n, root, S) && RedOk(n);
    }
  }

  lemma {:induction false} DeficientTop(root: Node, xp: Node?, S: set<Node>)
    requires Deficient(root, root, xp, S) && root.black
    ensures RedBlack(root, S)
  {
    assert Linked(root, root, S);
    forall n | n in S ensures RedOk(n) {
      assert Linked(n, root, S) && RedOkBut(n, root);
    }
  }

  /** What is left of the way up: nothing at the root or at a red node, else the missing key range. */
  ghost function Measure(root: Node?, x: Node?, xp: Node?): int
    reads One(x)`black, One(xp)`lo, One(xp)`hi
  {
    if x == root || xp == null || (x != null && !x.black) then 0 else HASH_LIMIT + 2 - (xp.hi - xp.lo)
  }

  /** One round of `_fix_delete` with `x` on the left of `xp`. */
  method FixStepLeft(root: Node, x: Node?, xp: Node, ghost S: set<Node>)
    returns (newRoot: Node, settled: bool, fault: bool)
    requires FixEntry(root, x, xp, S) && (x == null || x.black) && x != root && x == xp.l
    modifies S`p, S`l, S`r, S`lo, S`hi, S`black, S`bh
    ensures fault <==> old(Even(root, x, xp, S))
    ensures !fault && settled ==> RedBlack(newRoot, S)
    ensures !fault && !settled ==>
      Deficient(newRoot, xp, xp.p, S) && Measure(newRoot, xp, xp.p) < old(Measure(root, x, xp))
  {
    newRoot, settled, fault := root, false, false;
    ghost var even := Even(root, x, xp, S);
    assert Linked(xp, root, S) && (even ==> Height(xp));
    var w := xp.r;
    if w == null {
      fault := true;
      return;
    }
    assert Linked(w, root, S) && Height(w) && (even ==> RedOk(w)) && (!even ==> RedOkBut(w, x));
    assert w.l != null ==> Linked(w.l, root, S) && Height(w.l) && (even ==> RedOk(w.l));
    if !w.black {
      if w.l == null {
        newRoot := RedLeafLeft(newRoot, xp, S);
      } else {
        newRoot := RedSiblingLeft(newRoot, x, xp, S);
      }
      w := xp.r;
    }
    if w == null {
      fault := true;
      return;
    }
    assert Linked(xp, newRoot, S) && Linked(w, newRoot, S);
    if (w.l == null || w.l.black) && (w.r == null || w.r.black) {
      PushUpLeft(newRoot, x, xp, S);
      assert Linked(xp, newRoot, S) && (xp.p != null ==> Linked(xp.p, newRoot, S));
    } else {
      newRoot := LastRotationsLeft(newRoot, x, xp, S);
      settled := true;
    }
  }

  /** One round of `_fix_delete` with `x` on the right of `xp`. */
  method FixStepRight(root: Node, x: Node?, xp: Node, ghost S: set<Node>)
    returns (newRoot: Node, settled: bool, fault: bool)
    requires FixEntry(root, x, xp, S) && (x == null || x.black) && x != root && x == xp.r
    modifies S`p, S`l, S`r, S`lo, S`hi, S`black, S`bh
    ensures fault <==> old(Even(root, x, xp, S))
    ensures !fault && settled ==> RedBlack(newRoot, S)
    ensures !fault && !settled ==>
      Deficient(newRoot, xp, xp.p, S) && Measure(newRoot, xp, xp.p) < old(Measure(root, x, xp))
  {
    newRoot, settled, fault := root, false, false;
    ghost var even := Even(root, x, xp, S);
    assert Linked(xp, root, S) && (even ==> Height(xp));
    var w := xp.l;
    if w == null {
      fault := true;
      return;
    }
    assert Linked(w, root, S) && Height(w) && (even ==> RedOk(w)) && (!even ==> RedOkBut(w, x));
    assert w.r != null ==> Linked(w.r, root, S) && Height(w.r) && (even ==> RedOk(w.r));
    if !w.black {
      if w.r == null {
        newRoot := RedLeafRight(newRoot, xp, S);
      } else {
        newRoot := RedSiblingRight(newRoot, x, xp, S);
      }
      w := xp.l;
    }
    if w == null {
      fault := true;
      return;
    }
    assert Linked(xp, newRoot, S) && Linked(w, newRoot, S);
    if (w.r == null || w.r.black) && (w.l == null || w.l.black) {
      PushUpRight(newRoot, x, xp, S);
      assert Linked(xp, newRoot, S) && (xp.p != null ==> Linked(xp.p, newRoot, S));
    } else {
      newRoot := LastRotationsRight(newRoot, x, xp, S);
      settled := true;
    }
  }

  /** `_fix_delete`. `fault` is true when the source would read through a null sibling. */
  method FixDelete(root: Node?, x0: Node?, xp0: Node?, ghost S: set<Node>) returns (newRoot: Node?, fault: bool)
    requires FixEntry(root, x0, xp0, S)
    modifies S`p, S`l, S`r, S`lo, S`hi, S`black, S`bh
    ensures fault <==> old(Even(root, x0, xp0, S))
    ensures !fault ==> RedBlack(newRoot, S)
  {
    newRoot, fault := root, false;
    ghost var even := Even(root, x0, xp0, S);
    var x, xp := x0, xp0;
    assert even ==> Linked(xp, root, S) && Height(xp);
    while x != newRoot && (x == null || x.black)
      invariant if even then Even(newRoot, x, xp, S) && newRoot == root && x == x0 && xp == xp0
        else Deficient(newRoot, x, xp, S)
      decreases Measure(newRoot, x, xp)
    {
      assert Linked(xp, newRoot, S);
      assert even <==> Even(newRoot, x, xp, S) by {
        assert Even(newRoot, x, xp, S) ==> Height(xp);
      }
      var settled: bool;
      if x == xp.l {
        newRoot, settled, fault := FixStepLeft(newRoot, x, xp, S);
      } else {
        newRoot, settled, fault := FixStepRight(newRoot, x, xp, S);
      }
      if fault {
        return;
      }
      if settled {
        x, xp := newRoot, null;
        RedBlackIsDeficient(newRoot, S);
        break;
      }
      x, xp := xp, xp.p;
    }
    if x != null {
      BlackenShort(newRoot, x, xp, S);
    }
  }

  method Blacken(x: Node)
    modifies x`black, x`bh
    ensures x.black && x.bh == old(x.bh) + 1
  {
    x.black := true;
    x.bh := x.bh + 1;
  }

  method BlackenShort(ghost root: Node, x: Node, ghost xp: Node?, ghost S: set<Node>)
    requires Deficient(root, x, xp, S) && (x == root || !x.black)
    modifies x`black, x`bh
    ensures RedBlack(root, S)
  {
    if x.black {
      DeficientTop(x, xp, S);
      return;
    }
    assert Linked(x, root, S) && Linked(root, root, S) && (xp != null ==> Linked(xp, root, S));
    assert xp != x ==> Height(x);
    Blacken(x);
    forall n | n in S ensures Height(n) && RedOk(n) {
      assert old(Linked(n, root, S) && (n != xp ==> Height(n)) && RedOkBut(n, x));
    }
  }

  // ----- taking a node out

  /** `_transplant`: `v` takes the place of `u` below the parent of `u`. */
  method Transplant(root: Node?, u: Node, v: Node?) returns (newRoot: Node?)
    requires u.p != v || u.p == null
    requires u.p != null ==> u.p.l == u || u.p.r == u
    modifies One(u.p)`l, One(u.p)`r, One(v)`p
    ensures newRoot == if u.p == null then v else root
    ensures v != null ==> v.p == old(u.p)
    ensures u.p != null ==>
      if old(u.p.l) == u then u.p.l == v && u.p.r == old(u.p.r) else u.p.r == v && u.p.l == old(u.p.l)
  {
    newRoot := root;
    if u.p == null {
      newRoot := v;
    } else if u == u.p.l {
      u.p.l := v;
    } else {
      u.p.r := v;
    }
    if v != null {
      v.p := u.p;
    }
  }

  /** Moves the lower end `from` of key ranges to `to`. */
  ghost method MoveLo(S: set<Node>, from: int, to: int)
    modifies S`lo
    ensures forall n | n in S :: n.lo == if old(n.lo) == from then to else old(n.lo)
  {
    forall n | n in S && n.lo == from {
      n.lo := to;
    }
  }

  ghost method MoveHi(S: set<Node>, from: int, to: int)
    modifies S`hi
    ensures forall n | n in S :: n.hi == if old(n.hi) == from then to else old(n.hi)
  {
    forall n | n in S && n.hi == from {
      n.hi := to;
    }
  }

  lemma {:induction false} OnlyRoot(root: Node, S: set<Node>)
    requires Links(root, S) && root.l == null && root.r == null
    ensures S == {root}
  {
    forall n | n in S ensures n == root {
      Reached(n, root, S);
    }
  }

  /** What taking out `z` in favour of its right child does to any other node `n`. */
  twostate predicate BypassedRight(n: Node, z: Node)
    reads n
  {
    && n.l == (if old(n.l) == z then old(z.r) else old(n.l))
    && n.r == (if old(n.r) == z then old(z.r) else old(n.r))
    && n.p == (if n == old(z.r) then old(z.p) else old(n.p))
    && n.lo == (if old(n.lo) == z.hash then old(z.lo) else old(n.lo)) && n.hi == old(n.hi)
  }

  method BypassRight(root: Node, z: Node, ghost S: set<Node>) returns (newRoot: Node?)
    requires Links(root, S) && z in S && z.l == null
    modifies (S - {z})`p, S`l, S`r, (S - {z})`lo
    ensures newRoot == if z.p == null then z.r else root
    ensures z.l == old(z.l) && z.r == old(z.r)
    ensures forall n {:trigger BypassedRight(n, z)} | n in S && n != z :: BypassedRight(n, z)
  {
    assert Linked(z, root, S);
    assert z.p != null ==> Linked(z.p, root, S);
    assert z.r != null ==> Linked(z.r, root, S);
    newRoot := Transplant(root, z, z.r);
    MoveLo(S - {z}, z.hash, z.lo);
    forall n | n in S && n != z ensures BypassedRight(n, z) {
      assert old(Linked(n, root, S));
    }
  }

  /** Takes out a node without a left child: its right child moves up. */
  method UnlinkRight(root: Node, z: Node, ghost S: set<Node>) returns (newRoot: Node?)
    requires Links(root, S) && z in S && z.l == null
    modifies (S - {z})`p, S`l, S`r, (S - {z})`lo
    ensures Links(newRoot, S - {z})
    ensures newRoot == if z.p == null then z.r else root
    ensures z.l == old(z.l) && z.r == old(z.r)
    ensures forall n {:trigger BypassedRight(n, z)} | n in S && n != z :: BypassedRight(n, z)
  {
    assert Linked(z, root, S);
    forall n | n in S && n != z ensures n.hash != z.hash {
      if n.hash == z.hash {
        KeysUnique(n, z, root, S);
      }
    }
    assert z.p != null ==> Linked(z.p, root, S);
    assert z.r != null ==> Linked(z.r, root, S);
    if z == root && z.r == null {
      OnlyRoot(z, S);
    }
    assert Linked(root, root, S);
    newRoot := BypassRight(root, z, S);
    assert newRoot != null ==> newRoot in S && newRoot != z && BypassedRight(newRoot, z);
    forall n | n in S - {z} ensures Linked(n, newRoot, S - {z}) {
      assert old(Linked(n, root, S)) && BypassedRight(n, z);
      assert n.l != null ==> n.l in S && n.l != z && BypassedRight(n.l, z);
      assert n.r != null ==> n.r in S && n.r != z && BypassedRight(n.r, z);
      assert n.p != null ==> n.p in S && n.p != z && BypassedRight(n.p, z);
    }
  }

  /** What taking out `z` in favour of its left child does to any other node `n`. */
  twostate predicate BypassedLeft(n: Node, z: Node)
    reads n
  {
    && n.r == (if old(n.r) == z then old(z.l) else old(n.r))
    && n.l == (if old(n.l) == z then old(z.l) else old(n.l))
    && n.p == (if n == old(z.l) then old(z.p) else old(n.p))
    && n.hi == (if old(n.hi) == z.hash then old(z.hi) else old(n.hi)) && n.lo == old(n.lo)
  }

  method BypassLeft(root: Node, z: Node, ghost S: set<Node>) returns (newRoot: Node?)
    requires Links(root, S) && z in S && z.r == null
    modifies (S - {z})`p, S`l, S`r, (S - {z})`hi
    ensures newRoot == if z.p == null then z.l else root
    ensures z.r == old(z.r) && z.l == old(z.l)
    ensures forall n {:trigger BypassedLeft(n, z)} | n in S && n != z :: BypassedLeft(n, z)
  {
    assert Linked(z, root, S);
    assert z.p != null ==> Linked(z.p, root, S);
    assert z.l != null ==> Linked(z.l, root, S);
    newRoot := Transplant(root, z, z.l);
    MoveHi(S - {z}, z.hash, z.hi);
    forall n | n in S && n != z ensures BypassedLeft(n, z) {
      assert old(Linked(n, root, S));
    }
  }

  /** Takes out a node without a right child: its left child moves up. */
  method UnlinkLeft(root: Node, z: Node, ghost S: set<Node>) returns (newRoot: Node?)
    requires Links(root, S) && z in S && z.r == null
    modifies (S - {z})`p, S`l, S`r, (S - {z})`hi
    ensures Links(newRoot, S - {z})
    ensures newRoot == if z.p == null then z.l else root
    ensures z.r == old(z.r) && z.l == old(z.l)
    ensures forall n {:trigger BypassedLeft(n, z)} | n in S && n != z :: BypassedLeft(n, z)
  {
    assert Linked(z, root, S);
    forall n | n in S && n != z ensures n.hash != z.hash {
      if n.hash == z.hash {
        KeysUnique(n, z, root, S);
      }
    }
    assert z.p != null ==> Linked(z.p, root, S);
    assert z.l != null ==> Linked(z.l, root, S);
    if z == root && z.l == null {
      OnlyRoot(z, S);
    }
    assert Linked(root, root, S);
    newRoot := BypassLeft(root, z, S);
    assert newRoot != null ==> newRoot in S && newRoot != z && BypassedLeft(newRoot, z);
    forall n | n in S - {z} ensures Linked(n, newRoot, S - {z}) {
      assert old(Linked(n, root, S)) && BypassedLeft(n, z);
      assert n.l != null ==> n.l in S && n.l != z && BypassedLeft(n.l, z);
      assert n.r != null ==> n.r in S && n.r != z && BypassedLeft(n.r, z);
      assert n.p != null ==> n.p in S && n.p != z && BypassedLeft(n.p, z);
    }
  }

  /** The source's case of a node `z` without a left child: `x` and `xp` as for the fix-up. */
  method TakeOutRight(root: Node, z: Node, ghost S: set<Node>) returns (newRoot: Node?, x: Node?, xp: Node?)
    requires RedBlack(root, S) && z in S && z.l == null
    modifies (S - {z})`p, S`l, S`r, (S - {z})`lo
    ensures if z.black then Deficient(newRoot, x, xp, S - {z}) else RedBlack(newRoot, S - {z})
  {
    assert Linked(z, root, S) && Height(z) && RedOk(z);
    assert z.r != null ==> Linked(z.r, root, S) && Height(z.r) && RedOk(z.r);
    assert z.p != null ==> Linked(z.p, root, S) && Height(z.p);
    x, xp := z.r, z.p;
    newRoot := UnlinkRight(root, z, S);
    assert (xp != null ==> BypassedRight(xp, z)) && (x != null ==> x != z && BypassedRight(x, z));
    forall n | n in S - {z}
      ensures n != xp ==> Height(n)
      ensures RedOkBut(n, x)
      ensures !z.black ==> Height(n) && RedOk(n)
    {
      assert old(Linked(n, root, S) && Height(n) && RedOk(n));
      assert BypassedRight(n, z);
      assert n.p != null ==> n.p in S;
    }
  }

  /** The source's case of a node `z` without a right child: `x` and `xp` as for the fix-up. */
  method TakeOutLeft(root: Node, z: Node, ghost S: set<Node>) returns (newRoot: Node?, x: Node?, xp: Node?)
    requires RedBlack(root, S) && z in S && z.r == null
    modifies (S - {z})`p, S`l, S`r, (S - {z})`hi
    ensures if z.black then Deficient(newRoot, x, xp, S - {z}) else RedBlack(newRoot, S - {z})
  {
    assert Linked(z, root, S) && Height(z) && RedOk(z);
    assert z.l != null ==> Linked(z.l, root, S) && Height(z.l) && RedOk(z.l);
    assert z.p != null ==> Linked(z.p, root, S) && Height(z.p);
    x, xp := z.l, z.p;
    newRoot := UnlinkLeft(root, z, S);
    assert (xp != null ==> BypassedLeft(xp, z)) && (x != null ==> x != z && BypassedLeft(x, z));
    forall n | n in S - {z}
      ensures n != xp ==> Height(n)
      ensures RedOkBut(n, x)
      ensures !z.black ==> Height(n) && RedOk(n)
    {
      assert old(Linked(n, root, S) && Height(n) && RedOk(n));
      assert BypassedLeft(n, z);
      assert n.p != null ==> n.p in S;
    }
  }

  /** `_minimum` of the right subtree of `z`: the node with the next larger key. */
  method Successor(root: Node, z: Node, ghost S: set<Node>) returns (y: Node)
    requires Links(root, S) && z in S && z.r != null
    ensures y in S && y != z && y.l == null && y.lo == z.hash
    ensures forall b | b in S :: !(z.hash < b.hash < y.hash)
    ensures y.p == z <==> y == z.r
    ensures y == z.r || (y.p != null && y.p in S && y == y.p.l && y.p.lo == z.hash)
  {
    assert Linked(z, root, S);
    y := z.r;
    assert Linked(y, root, S);
    forall b | b in S && z.hash < b.hash < y.hash ensures On(y.l, b.hash, b, root, S) {
      NextOnPath(z, b, root, S);
    }
    while y.l != null
      invariant y in S && Linked(y, root, S) && y.lo == z.hash
      invariant forall b | b in S && z.hash < b.hash < y.hash :: On(y.l, b.hash, b, root, S)
      invariant y == z.r || (y.p != null && y.p in S && y == y.p.l && y.p.lo == z.hash)
      decreases y.hi - y.lo
    {
      assert Linked(y.l, root, S);
      y := y.l;
    }
    assert y.p == z ==> y == z.r;
  }

  /** Keys just above `z` are searched for through the right child of `z`. */
  lemma {:induction false} NextOnPath(z: Node, b: Node, root: Node, S: set<Node>)
    requires Links(root, S) && z in S && z.r != null && z.r in S && b in S
    requires z.r.l != null ==> z.r.l in S
    requires z.hash < b.hash < z.r.hash
    ensures On(z.r.l, b.hash, b, root, S)
  {
    assert Linked(z, root, S) && Linked(z.r, root, S);
    Reached(z, root, S);
    Reached(b, root, S);
    OnExtend(root, z.hash, z, b.hash, root, S);
    OnFollow(root, z, b, root, S);
    assert On(z.r, b.hash, b, root, S);
  }

  /** What replacing `z` by its successor `y` does to any other node `n`. */
  twostate predicate Grafted(n: Node, z: Node, y: Node)
    reads n
  {
    && n.l == (if old(n.l) == z then y else if old(n.l) == y then old(y.r) else old(n.l))
    && n.r == (if old(n.r) == z then y else old(n.r))
    && n.p == (if old(n.p) == z then y else if old(n.p) == y && old(y.p) != z then old(y.p) else old(n.p))
  }

  twostate predicate GraftedAt(z: Node, y: Node)
    reads y
  {
    && y.l == old(z.l) && y.p == old(z.p)
    && y.r == (if old(y.p) == z then old(y.r) else old(z.r))
  }

  /** The successor `y` of `z`, a node with two children, as `Successor` returns it. */
  ghost predicate IsSuccessor(root: Node, z: Node, y: Node, S: set<Node>)
    requires Links(root, S)
    reads S
  {
    && z in S && z.l != null && z.r != null
    && y in S && y != z && y.l == null && y.lo == z.hash
    && (forall b | b in S :: !(z.hash < b.hash < y.hash))
    && (y.p == z <==> y == z.r)
    && (y == z.r || (y.p != null && y.p in S && y == y.p.l && y.p.lo == z.hash))
  }

  /** Unhooks the successor `y`, unless it is the child of `z`, and gives it the right subtree. */
  method Unhook(root: Node, z: Node, y: Node, ghost S: set<Node>) returns (x: Node?, xp: Node)
    requires Links(root, S) && IsSuccessor(root, z, y, S)
    modifies (S - {z})`p, (S - {z})`l, (S - {z})`r
    ensures x == old(y.r) && xp == if old(y.p) == z then y else old(y.p)
    ensures y.l == null && y.p == old(y.p) && y.r == if old(y.p) == z then old(y.r) else z.r
    ensures forall n | n in S && n != z && n != y ::
      && n.l == (if old(n.l) == y then old(y.r) else old(n.l)) && n.r == old(n.r)
      && n.p == if old(y.p) == z then old(n.p) else if old(n.p) == y then old(y.p) else if n == z.r then y else old(n.p)
  {
    assert Linked(z, root, S) && Linked(y, root, S) && Linked(z.r, root, S);
    assert y.r != null ==> Linked(y.r, root, S);
    assert Linked(y.p, root, S);
    x := y.r;
    if y.p == z {
      if x != null {
        x.p := y;
      }
      xp := y;
    } else {
      ghost var top := Transplant(root, y, y.r);
      y.r := z.r;
      y.r.p := y;
      xp := y.p;
    }
    forall n | n in S && n != z && n != y
      ensures n.l == (if old(n.l) == y then old(y.r) else old(n.l)) && n.r == old(n.r)
      ensures n.p ==
        if old(y.p) == z then old(n.p) else if old(n.p) == y then old(y.p) else if n == z.r then y else old(n.p)
    {
      assert old(Linked(n, root, S));
    }
  }

  /** The first part of the pointer surgery: `y` is unhooked and hangs where `z` hung. */
  method Rehang(root: Node, z: Node, y: Node, ghost S: set<Node>) returns (newRoot: Node?, x: Node?, xp: Node)
    requires Links(root, S) && IsSuccessor(root, z, y, S)
    modifies (S - {z})`p, (S - {z})`l, (S - {z})`r
    ensures newRoot == if z.p == null then y else root
    ensures x == old(y.r) && xp == if old(y.p) == z then y else old(y.p)
    ensures y.p == z.p && y.r == if old(y.p) == z then old(y.r) else z.r
    ensures z.l in S && z.l != z && z.l != y
    ensures forall n | n in S && n != z && n != y ::
      && n.l == (if old(n.l) == z then y else if old(n.l) == y then old(y.r) else old(n.l))
      && n.r == (if old(n.r) == z then y else old(n.r))
      && n.p == (if n == z.l then z else if old(n.p) == z then y
        else if old(n.p) == y && old(y.p) != z then old(y.p) else old(n.p))
  {
    assert Linked(z, root, S) && Linked(y, root, S) && Linked(z.r, root, S) && Linked(z.l, root, S);
    assert z.p != null ==> Linked(z.p, root, S);
    x, xp := Unhook(root, z, y, S);
    newRoot := Transplant(root, z, y);
    forall n | n in S && n != z && n != y
      ensures n.l == (if old(n.l) == z then y else if old(n.l) == y then old(y.r) else old(n.l))
      ensures n.r == (if old(n.r) == z then y else old(n.r))
      ensures n.p == (if n == z.l then z else if old(n.p) == z then y
        else if old(n.p) == y && old(y.p) != z then old(y.p) else old(n.p))
    {
      assert old(Linked(n, root, S));
    }
  }

  /** The pointer surgery of the two-child case of `ecache_delete`. */
  method Graft(root: Node, z: Node, y: Node, ghost S: set<Node>) returns (newRoot: Node?, x: Node?, xp: Node)
    requires Links(root, S) && IsSuccessor(root, z, y, S)
    modifies (S - {z})`p, (S - {z})`l, (S - {z})`r
    ensures newRoot == if z.p == null then y else root
    ensures x == old(y.r) && xp == if old(y.p) == z then y else old(y.p)
    ensures GraftedAt(z, y)
    ensures forall n | n in S && n != z && n != y :: Grafted(n, z, y)
  {
    assert Linked(z, root, S) && Linked(z.l, root, S);
    newRoot, x, xp := Rehang(root, z, y, S);
    y.l := z.l;
    y.l.p := y;
    forall n | n in S && n != z && n != y ensures Grafted(n, z, y) {
    }
  }

  /** The key ranges that ended or began at the key of `z` now do so at the key of `y`. */
  twostate predicate Relabelled(n: Node, z: Node, y: Node)
    reads n
  {
    && n.lo == (if old(n.lo) == z.hash then y.hash else old(n.lo))
    && n.hi == (if old(n.hi) == z.hash then y.hash else old(n.hi))
  }

  ghost method Relabel(z: Node, y: Node, S: set<Node>)
    requires z in S && y in S && z != y
    modifies (S - {z})`lo, (S - {z})`hi
    ensures y.lo == z.lo && y.hi == z.hi
    ensures forall n | n in S && n != z && n != y :: Relabelled(n, z, y)
  {
    MoveLo(S - {z, y}, z.hash, y.hash);
    MoveHi(S - {z, y}, z.hash, y.hash);
    y.lo, y.hi := z.lo, z.hi;
  }

  /** `Graft`, with the key ranges kept up. */
  method GraftRelabel(root: Node, z: Node, y: Node, ghost S: set<Node>) returns (newRoot: Node?, x: Node?, xp: Node)
    requires Links(root, S) && IsSuccessor(root, z, y, S)
    modifies (S - {z})`p, (S - {z})`l, (S - {z})`r, (S - {z})`lo, (S - {z})`hi
    ensures newRoot == if z.p == null then y else root
    ensures x == old(y.r) && xp == if old(y.p) == z then y else old(y.p)
    ensures GraftedAt(z, y) && y.lo == z.lo && y.hi == z.hi
    ensures forall n {:trigger Grafted(n, z, y)} | n in S && n != z && n != y :: Grafted(n, z, y) && Relabelled(n, z, y)
  {
    newRoot, x, xp := Graft(root, z, y, S);
    Relabel(z, y, S);
  }

  /** `GraftRelabel` keeps the links of all nodes but `y`. */
  method GraftLinked(root: Node, z: Node, y: Node, ghost S: set<Node>) returns (newRoot: Node?, x: Node?, xp: Node)
    requires Links(root, S) && IsSuccessor(root, z, y, S)
    modifies (S - {z})`p, (S - {z})`l, (S - {z})`r, (S - {z})`lo, (S - {z})`hi
    ensures newRoot == if z.p == null then y else root
    ensures x == old(y.r) && xp == if old(y.p) == z then y else old(y.p)
    ensures GraftedAt(z, y) && y.lo == z.lo && y.hi == z.hi
    ensures forall n {:trigger Grafted(n, z, y)} | n in S && n != z && n != y :: Grafted(n, z, y) && Relabelled(n, z, y)
    ensures forall n {:trigger Linked(n, newRoot, S - {z})} | n in S - {z} && n != y :: Linked(n, newRoot, S - {z})
  {
    assert Linked(root, root, S) && Linked(z, root, S) && Linked(y, root, S) && Linked(z.r, root, S) &&
      Linked(z.l, root, S);
    assert z.p != null ==> Linked(z.p, root, S);
    assert y.r != null ==> Linked(y.r, root, S);
    assert Linked(y.p, root, S);
    forall n | n in S && n != z && n != y ensures n.hash != z.hash && !(z.hash < n.hash <= y.hash) {
      if n.hash == z.hash {
        KeysUnique(n, z, root, S);
      } else if n.hash == y.hash {
        KeysUnique(n, y, root, S);
      }
    }
    newRoot, x, xp := GraftRelabel(root, z, y, S);
    forall n | n in S - {z} && n != y ensures Linked(n, newRoot, S - {z}) {
      assert old(Linked(n, root, S));
      assert Grafted(n, z, y);
      assert n.l != null && n.l != y ==> n.l in S && n.l != z && Grafted(n.l, z, y);
      assert n.r != null && n.r != y ==> n.r in S && n.r != z && Grafted(n.r, z, y);
      assert n.p != null && n.p != y ==> n.p in S && n.p != z && Grafted(n.p, z, y);
    }
  }

  /** Puts the successor `y` in the place of `z`. */
  method Replace(root: Node, z: Node, y: Node, ghost S: set<Node>) returns (newRoot: Node?, x: Node?, xp: Node)
    requires Links(root, S) && IsSuccessor(root, z, y, S)
    modifies (S - {z})`p, (S - {z})`l, (S - {z})`r, (S - {z})`lo, (S - {z})`hi
    ensures Links(newRoot, S - {z})
    ensures newRoot == if z.p == null then y else root
    ensures x == old(y.r) && xp == if old(y.p) == z then y else old(y.p)
    ensures GraftedAt(z, y)
    ensures forall n | n in S && n != z && n != y :: Grafted(n, z, y)
  {
    assert Linked(root, root, S) && Linked(z, root, S) && Linked(y, root, S) && Linked(z.r, root, S) &&
      Linked(z.l, root, S);
    assert z.p != null ==> Linked(z.p, root, S);
    assert y.r != null ==> Linked(y.r, root, S);
    newRoot, x, xp := GraftLinked(root, z, y, S);
    assert newRoot != y ==> Grafted(newRoot, z, y);
    assert Linked(y, newRoot, S - {z}) by {
      assert y.l != y && Grafted(y.l, z, y);
      assert y.r != null ==> y.r in S && y.r != z && y.r != y && Grafted(y.r, z, y);
      assert y.p != null ==> y.p in S && y.p != z && y.p != y && Grafted(y.p, z, y);
    }
  }

  /** `Replace`, and the colour of `z` passes to `y`. */
  method ReplacePainted(root: Node, z: Node, y: Node, ghost S: set<Node>) returns (newRoot: Node?, x: Node?, xp: Node)
    requires Links(root, S) && IsSuccessor(root, z, y, S)
    modifies (S - {z})`p, (S - {z})`l, (S - {z})`r, (S - {z})`lo, (S - {z})`hi, y`black, y`bh
    ensures Links(newRoot, S - {z})
    ensures newRoot == if z.p == null then y else root
    ensures x == old(y.r) && xp == if old(y.p) == z then y else old(y.p)
    ensures GraftedAt(z, y) && y.black == z.black && y.bh == z.bh
    ensures forall n {:trigger Grafted(n, z, y)} | n in S && n != z && n != y :: Grafted(n, z, y)
  {
    newRoot, x, xp := Replace(root, z, y, S);
    y.black := z.black;
    y.bh := z.bh;
    forall n | n in S && n != z && n != y ensures Grafted(n, z, y) {}
  }

  /** The successor `y` takes the place and the colour of `z`: the black heights. */
  method ReplaceBalanced(root: Node, z: Node, y: Node, ghost S: set<Node>) returns (newRoot: Node?, x: Node?, xp: Node)
    requires RedBlack(root, S) && IsSuccessor(root, z, y, S)
    modifies (S - {z})`p, (S - {z})`l, (S - {z})`r, (S - {z})`lo, (S - {z})`hi, y`black, y`bh
    ensures Links(newRoot, S - {z}) && newRoot == (if z.p == null then y else root)
    ensures x == old(y.r) && xp == (if old(y.p) == z then y else old(y.p)) && xp in S - {z}
    ensures GraftedAt(z, y) && y.black == z.black
    ensures forall n {:trigger Grafted(n, z, y)} | n in S && n != z && n != y :: Grafted(n, z, y)
    ensures forall n {:trigger Height(n)} | n in S - {z} && (n != xp || !old(y.black)) ::
      assert Linked(n, newRoot, S - {z}); Height(n)
    ensures (x == xp.l || x == xp.r) && (x != null ==> x in S - {z} && x.p == xp)
    ensures if old(y.black) then assert Linked(xp, newRoot, S - {z}); Short(x, xp)
      else x == null && BH(xp.l) == 0 && (xp.l == null || xp.r == null)
  {
    hide RedOkBut;
    assert Linked(z, root, S) && Linked(y, root, S) && Linked(z.r, root, S) && Linked(z.l, root, S);
    assert Height(z) && Height(y) && RedOk(y);
    assert y.r != null ==> Linked(y.r, root, S) && Height(y.r) && RedOk(y.r);
    assert Linked(y.p, root, S) && Height(y.p) && (z.p != null ==> Linked(z.p, root, S));
    newRoot, x, xp := ReplacePainted(root, z, y, S);
    assert xp != y ==> Grafted(xp, z, y);
    assert x != null ==> x != z && x != y && Grafted(x, z, y);
    forall n | n in S - {z} ensures n != xp || !old(y.black) ==> Height(n) {
      assert old(Linked(n, root, S) && Height(n));
      assert n != y ==> Grafted(n, z, y);
    }
  }

  /** The source's case of a node `z` with two children: its successor `y` takes its place and
      colour. Whether something is missing afterwards depends on the colour `y` had before. */
  method TakeOutBetween(root: Node, z: Node, y: Node, ghost S: set<Node>) returns (newRoot: Node?, x: Node?, xp: Node)
    requires RedBlack(root, S) && IsSuccessor(root, z, y, S)
    modifies (S - {z})`p, (S - {z})`l, (S - {z})`r, (S - {z})`lo, (S - {z})`hi, y`black, y`bh
    ensures y.black == z.black
    ensures old(y.black) ==> Deficient(newRoot, x, xp, S - {z})
    ensures !old(y.black) ==> RedBlack(newRoot, S - {z}) && Even(newRoot, x, xp, S - {z})
  {
    hide Height, Short;
    assert Linked(z, root, S) && Linked(y, root, S) && Linked(z.r, root, S) && Linked(z.l, root, S);
    assert RedOk(z) && RedOk(y) && RedOk(z.l) && RedOk(z.r);
    assert y.r != null ==> Linked(y.r, root, S) && RedOk(y.r);
    assert Linked(y.p, root, S) && (z.p != null ==> Linked(z.p, root, S));
    newRoot, x, xp := ReplaceBalanced(root, z, y, S);
    forall n | n in S - {z} ensures RedOkBut(n, x) && (!old(y.black) ==> RedOk(n)) {
      assert old(Linked(n, root, S) && RedOk(n));
      assert n != y ==> Grafted(n, z, y);
    }
  }

  // ----- ecache_delete

  /** `y` holds the next larger key after that of `z`. */
  ghost predicate IsNext(z: Node, y: Node, S: set<Node>) {
    y in S && z.hash < y.hash && forall b | b in S :: !(z.hash < b.hash < y.hash)
  }

  /** When `ecache_delete` may take `z` out: it has at most one child, or the colour that its
      successor loses is the colour that it gains. */
  ghost predicate Removable(z: Node, S: set<Node>)
    reads S, z
  {
    z.l == null || z.r == null || forall y | y in S && IsNext(z, y, S) :: y.black == z.black
  }

  lemma {:induction false} NextUnique(z: Node, y: Node, y': Node, root: Node, S: set<Node>)
    requires Links(root, S) && IsNext(z, y, S) && IsNext(z, y', S)
    ensures y == y'
  {
    KeysUnique(y, y', root, S);
  }

  /** A missing black node shows in the pointers and colours. */
  lemma {:induction false} DeficientIsUnbalanced(root: Node?, x: Node?, xp: Node, S: set<Node>)
    requires Deficient(root, x, xp, S)
    ensures Blacks(root, root, S) < 0
  {
    assert Linked(xp, root, S);
    BlacksAre(xp.l, xp.lo, xp.hash, root, S);
    BlacksAre(xp.r, xp.hash, xp.hi, root, S);
    ImbalanceRises(xp, root, S);
  }

  lemma {:induction false} DeficientIsNotEven(root: Node?, x: Node?, xp: Node?, S: set<Node>)
    requires Deficient(root, x, xp, S)
    ensures !Even(root, x, xp, S)
  {
    if xp != null && xp in S {
      assert Linked(xp, root, S);
      assert Even(root, x, xp, S) ==> Height(xp);
    }
  }

  /** `ecache_delete`, as it stands: the colour that decides on the fix-up is read after it has
      been overwritten. `fault` is a read through a null pointer. */
  method Delete(root: Node?, hash: Hash, ghost S: set<Node>) returns (newRoot: Node?, fault: bool, ghost S': set<Node>)
    requires RedBlack(root, S)
    modifies S
    ensures !HasKey(S, hash) ==> !fault && newRoot == root && S' == S && unchanged(S)
    ensures forall z | z in S && z.hash == hash ::
      && S' == S - {z}
      && ((!fault && IsRedBlack(newRoot, S')) <==> old(Removable(z, S)))
      && (fault <==> old(!Removable(z, S) && z.black))
      && (!fault ==> Links(newRoot, S'))
      && (old(Removable(z, S)) ==> RedBlack(newRoot, S'))
  {
    newRoot, fault, S' := root, false, S;
    var z, _ := Find(root, hash, S);
    if z == null {
      return;
    }
    S' := S - {z};
    forall n | n in S && n.hash == hash ensures n == z {
      KeysUnique(n, z, root, S);
    }
    newRoot, fault := DeleteNode(root, z, S);
  }

  method DeleteNode(root: Node, z: Node, ghost S: set<Node>) returns (newRoot: Node?, fault: bool)
    requires RedBlack(root, S) && z in S
    modifies S
    ensures (!fault && IsRedBlack(newRoot, S - {z})) <==> old(Removable(z, S))
    ensures fault <==> old(!Removable(z, S) && z.black)
    ensures !fault ==> Links(newRoot, S - {z})
    ensures old(Removable(z, S)) ==> RedBlack(newRoot, S - {z})
  {
    fault := false;
    var y: Node, x: Node?, xp: Node? := z, null, null;
    ghost var S', removable, black := S - {z}, Removable(z, S), z.black;
    assert z.l == null || z.r == null ==> removable;
    if z.l == null {
      newRoot, x, xp := TakeOutRight(root, z, S);
    } else if z.r == null {
      newRoot, x, xp := TakeOutLeft(root, z, S);
    } else {
      y := Successor(root, z, S);
      assert Linked(y, root, S);
      assert IsNext(z, y, S);
      forall y' | y' in S && IsNext(z, y', S) ensures y' == y {
        NextUnique(z, y, y', root, S);
      }
      assert removable <==> y.black == z.black;
      black := y.black;
      newRoot, x, xp := TakeOutBetween(root, z, y, S);
    }
    if black {
      DeficientIsNotEven(newRoot, x, xp, S');
    }
    ghost var painted := y.black;
    if y.black {
      newRoot, fault := FixDelete(newRoot, x, xp, S');
    } else if black {
      DeficientIsUnbalanced(newRoot, x, xp, S');
    }
    if !fault && (black ==> painted) {
      RedBlackIs(newRoot, S');
    }
  }
}
