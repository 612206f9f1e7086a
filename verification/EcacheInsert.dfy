/** Insertion into the directory index: `_fix_insert` and `ecache_insert` of `src/ecache.c`. */
module EcacheInsert {
  import opened Ecache

  /** The invariant of the insertion fix-up: a red-black tree, but for the red node `z`,
      which may have a red parent or be the root. */
  ghost predicate RedAt(root: Node?, z: Node, S: set<Node>)
    reads S
  {
    && Links(root, S) && z in S && !z.black
    && (root != z ==> root.black)
    && (forall n {:trigger Height(n)} | n in S :: assert Linked(n, root, S); Height(n))
    && (forall n {:trigger RedOk(n)} | n in S && n != z :: assert Linked(n, root, S); RedOk(n))
  }

  /** Red parent and red uncle: blacken both, redden the grandparent, continue there. */
  method Recolour(root: Node, z: Node, u: Node, ghost S: set<Node>)
    requires RedAt(root, z, S) && z.p != null && !z.p.black && z.p.p != null
    requires (z.p == z.p.p.l && u == z.p.p.r) || (z.p == z.p.p.r && u == z.p.p.l)
    requires !u.black
    modifies S`black, S`bh
    ensures RedAt(root, z.p.p, S)
  {
    ghost var gp := z.p.p;
    assert Linked(z, root, S) && Linked(z.p, root, S) && Linked(gp, root, S);
    assert RedOk(z.p) && Height(gp) && Height(u) && Height(z.p);
    PushBlackness(z.p.p, z.p, u);
    forall n | n in S ensures Height(n) && (n != gp ==> RedOk(n)) {
      assert old(Linked(n, root, S) && Height(n) && (n != z ==> RedOk(n)));
    }
  }

  method PushBlackness(gp: Node, p: Node, u: Node)
    requires gp != p && gp != u && p != u
    modifies {gp, p, u}`black, {p, u}`bh
    ensures p.black && u.black && !gp.black
    ensures p.bh == old(p.bh) + 1 && u.bh == old(u.bh) + 1
  {
    p.black := true;
    u.black := true;
    gp.black := false;
    p.bh, u.bh := p.bh + 1, u.bh + 1;
  }

  /** An inner red grandchild: rotate it outwards, so that its old parent is the outer one. */
  method StraightenLeft(root: Node, z: Node, ghost S: set<Node>) returns (newRoot: Node)
    requires RedAt(root, z, S) && z.p != null && !z.p.black && z.p.p != null
    requires z == z.p.r && z.p == z.p.p.l
    modifies S`p, S`l, S`r, S`lo, S`hi
    ensures var x, gp := old(z.p), old(z.p.p);
      && RedAt(newRoot, x, S) && x.p == z && x == z.l && !z.black
      && z.p == gp && z == gp.l && gp.r == old(gp.r)
  {
    ghost var x, gp := z.p, z.p.p;
    assert Linked(z, root, S) && Linked(x, root, S) && Linked(gp, root, S);
    assert Height(x) && Height(z) && RedOk(x);
    newRoot := RotateLeft(root, z.p, S);
    assert AsideLeft(gp, x, z);
    forall n | n in S ensures Height(n) && (n != x ==> RedOk(n)) {
      assert old(Linked(n, root, S) && Height(n) && (n != z ==> RedOk(n)));
    }
  }

  /** An outer red grandchild with a black uncle: the last rotation of the fix-up. */
  method LiftLeft(root: Node, z: Node, ghost S: set<Node>) returns (newRoot: Node)
    requires RedAt(root, z, S) && z.p != null && !z.p.black && z.p.p != null
    requires z == z.p.l && z.p == z.p.p.l && (z.p.p.r == null || z.p.p.r.black)
    modifies S`p, S`l, S`r, S`lo, S`hi, S`black, S`bh
    ensures RedBlack(newRoot, S) && z.p == old(z.p) && z.p.black
  {
    ghost var x, gp := z.p, z.p.p;
    assert Linked(z, root, S) && Linked(x, root, S) && Linked(gp, root, S);
    assert Height(x) && Height(z) && Height(gp) && RedOk(x);
    newRoot := SwapRotateRight(root, z.p.p, S);
    forall n | n in S ensures Height(n) && RedOk(n) {
      assert old(Linked(n, root, S) && Height(n) && (n != z ==> RedOk(n)));
    }
  }

  /** An inner red grandchild: rotate it outwards, so that its old parent is the outer one. */
  method StraightenRight(root: Node, z: Node, ghost S: set<Node>) returns (newRoot: Node)
    requires RedAt(root, z, S) && z.p != null && !z.p.black && z.p.p != null
    requires z == z.p.l && z.p == z.p.p.r
    modifies S`p, S`l, S`r, S`lo, S`hi
    ensures var x, gp := old(z.p), old(z.p.p);
      && RedAt(newRoot, x, S) && x.p == z && x == z.r && !z.black
      && z.p == gp && z == gp.r && gp.l == old(gp.l)
  {
    ghost var x, gp := z.p, z.p.p;
    assert Linked(z, root, S) && Linked(x, root, S) && Linked(gp, root, S);
    assert Height(x) && Height(z) && RedOk(x);
    newRoot := RotateRight(root, z.p, S);
    assert AsideRight(gp, x, z);
    forall n | n in S ensures Height(n) && (n != x ==> RedOk(n)) {
      assert old(Linked(n, root, S) && Height(n) && (n != z ==> RedOk(n)));
    }
  }

  /** An outer red grandchild with a black uncle: the last rotation of the fix-up. */
  method LiftRight(root: Node, z: Node, ghost S: set<Node>) returns (newRoot: Node)
    requires RedAt(root, z, S) && z.p != null && !z.p.black && z.p.p != null
    requires z == z.p.r && z.p == z.p.p.r && (z.p.p.l == null || z.p.p.l.black)
    modifies S`p, S`l, S`r, S`lo, S`hi, S`black, S`bh
    ensures RedBlack(newRoot, S) && z.p == old(z.p) && z.p.black
  {
    ghost var x, gp := z.p, z.p.p;
    assert Linked(z, root, S) && Linked(x, root, S) && Linked(gp, root, S);
    assert Height(x) && Height(z) && Height(gp) && RedOk(x);
    newRoot := SwapRotateLeft(root, z.p.p, S);
    forall n | n in S ensures Height(n) && RedOk(n) {
      assert old(Linked(n, root, S) && Height(n) && (n != z ==> RedOk(n)));
    }
  }

  method FixInsert(root: Node, z0: Node, ghost S: set<Node>) returns (newRoot: Node)
    requires RedAt(root, z0, S)
    modifies S`p, S`l, S`r, S`lo, S`hi, S`black, S`bh
    ensures RedBlack(newRoot, S)
  {
    newRoot := root;
    var z: Node := z0;
    while z.p != null && !z.p.black
      invariant RedAt(newRoot, z, S) || (RedBlack(newRoot, S) && z in S && z.p != null && z.p.black)
      decreases if z.p != null && z.p.black then 0 else HASH_LIMIT + 2 - (z.hi - z.lo)
    {
      assert Linked(z, newRoot, S) && Linked(z.p, newRoot, S) && RedOk(z.p);
      var gp := z.p.p;
      assert Linked(gp, newRoot, S);
      if z.p == gp.l {
        var y := gp.r;
        if y != null && !y.black {
          Recolour(newRoot, z, y, S);
          z := gp;
        } else {
          if z == z.p.r {
            z := z.p;
            newRoot := StraightenLeft(newRoot, z.r, S);
          }
          newRoot := LiftLeft(newRoot, z, S);
        }
      } else {
        var y := gp.l;
        if y != null && !y.black {
          Recolour(newRoot, z, y, S);
          z := gp;
        } else {
          if z == z.p.l {
            z := z.p;
            newRoot := StraightenRight(newRoot, z.l, S);
          }
          newRoot := LiftRight(newRoot, z, S);
        }
      }
    }
    BlackenRoot(newRoot, z, S);
  }

  method BlackenRoot(root: Node, ghost z: Node, ghost S: set<Node>)
    requires RedBlack(root, S) || (RedAt(root, z, S) && (z.p == null || z.p.black))
    modifies root`black, root`bh
    ensures RedBlack(root, S)
  {
    assert Linked(root, root, S) && Height(root);
    if !root.black {
      root.black := true;
      root.bh := root.bh + 1;
    }
    forall n | n in S ensures Height(n) && RedOk(n) {
      assert old(Linked(n, root, S) && Height(n) && (n != z ==> RedOk(n)));
    }
  }

  /** The new red node becomes the root of an empty tree or a leaf below `y`. */
  method AttachLeaf(root: Node?, y: Node?, z: Node, ghost S: set<Node>) returns (newRoot: Node)
    requires RedBlack(root, S) && z !in S
    requires z.p == null && z.l == null && z.r == null && !z.black && z.bh == 0
    requires y == null <==> root == null
    requires y != null ==> y in S && y.lo < z.hash < y.hi && z.hash != y.hash
    requires y != null ==> if z.hash < y.hash then y.l == null else y.r == null
    modifies z`p, z`lo, z`hi, One(y)`l, One(y)`r
    ensures RedAt(newRoot, z, S + {z})
  {
    z.p := y;
    if y == null {
      newRoot := z;
      z.lo, z.hi := -1, HASH_LIMIT;
    } else {
      newRoot := root;
      HangBelow(root, y, z, S);
    }
  }

  /** Hangs the new leaf `z` below `y`, on the side of its key. */
  method HangLink(root: Node, y: Node, z: Node, ghost S: set<Node>)
    requires Links(root, S) && z !in S && y in S && z.p == y && z.l == null && z.r == null
    requires y.lo < z.hash < y.hi && z.hash != y.hash
    requires if z.hash < y.hash then y.l == null else y.r == null
    modifies z`lo, z`hi, y`l, y`r
    ensures Links(root, S + {z})
    ensures if z.hash < y.hash then y.l == z && y.r == old(y.r) else y.r == z && y.l == old(y.l)
  {
    assert Linked(y, root, S);
    if z.hash < y.hash {
      y.l := z;
      z.lo, z.hi := y.lo, y.hash;
    } else {
      y.r := z;
      z.lo, z.hi := y.hash, y.hi;
    }
    forall n | n in S + {z} ensures Linked(n, root, S + {z}) {
      assert n != z ==> old(Linked(n, root, S));
    }
  }

  /** A red leaf disturbs no black height, and no colours but its own. */
  method HangBelow(root: Node, y: Node, z: Node, ghost S: set<Node>)
    requires RedBlack(root, S) && z !in S && y in S
    requires z.p == y && z.l == null && z.r == null && !z.black && z.bh == 0
    requires y.lo < z.hash < y.hi && z.hash != y.hash
    requires if z.hash < y.hash then y.l == null else y.r == null
    modifies z`lo, z`hi, y`l, y`r
    ensures RedAt(root, z, S + {z})
  {
    assert Linked(y, root, S) && Height(y);
    HangLink(root, y, z, S);
    forall n | n in S + {z} ensures Height(n) && (n != z ==> RedOk(n)) {
      assert n != z ==> old(Linked(n, root, S) && Height(n) && RedOk(n));
    }
  }

  /** Adds the pair `(hash, ca)` unless the key is present or `malloc` fails; `granted`
      is the outcome of `malloc`. */
  method Insert(root: Node?, hash: Hash, ca: nat, granted: bool, ghost S: set<Node>)
    returns (newRoot: Node?, ghost S': set<Node>)
    requires RedBlack(root, S)
    modifies S
    ensures RedBlack(newRoot, S') && fresh(S' - S) && S <= S'
    ensures Entries(S') == if granted && !HasKey(S, hash) then Entries(S) + {(hash, ca)} else Entries(S)
    ensures !granted || HasKey(S, hash) ==> newRoot == root && S' == S && unchanged(S)
  {
    newRoot, S' := root, S;
    if !granted {
      return;
    }
    var z := new Node(hash, ca);
    forall b | b in S ensures On(root, b.hash, b, root, S) {
      Reached(b, root, S);
    }
    var y: Node?, x: Node? := null, root;
    while x != null
      invariant x != null ==> x in S && x.lo < hash < x.hi
      invariant y == null ==> x == root
      invariant y != null ==> y in S && y.lo < hash < y.hi && hash != y.hash && x == if hash < y.hash then y.l else y.r
      invariant forall b | b in S && b.hash == hash :: On(x, hash, b, root, S)
      decreases if x == null then 0 else x.hi - x.lo
    {
      y := x;
      assert Linked(y, root, S);
      if hash < x.hash {
        x := x.l;
      } else if hash > x.hash {
        x := x.r;
      } else {
        return;
      }
    }
    assert !HasKey(S, hash);
    S' := S + {z};
    newRoot := AttachLeaf(root, y, z, S);
    newRoot := FixInsert(newRoot, z, S');
  }
}
