/** The directory index of `src/ecache.c`: a red-black tree of heap nodes with parent
    pointers, keyed by the 32-bit hash of a file name and rewritten in place.

    Every node carries three ghost fields. The open interval `(lo, hi)` is the range of
    keys that a search can be carrying when it arrives at the node; `bh` is the number of
    black nodes on the way from the node down to any empty link. All invariants are local
    to a node and its neighbours; the global facts (search finds every key, keys are
    unique, the height is logarithmic) are derived from them by induction on intervals. */
module Ecache {
  import opened Arith

  const HASH_LIMIT := 0x1_0000_0000

  type Hash = h: int | 0 <= h < HASH_LIMIT

  class Node {
    var p: Node?
    var l: Node?
    var r: Node?
    var black: bool
    const hash: Hash
    const ca: nat
    ghost var lo: int
    ghost var hi: int
    ghost var bh: nat

    constructor (hash: Hash, ca: nat)
      ensures this.hash == hash && this.ca == ca
      ensures p == null && l == null && r == null && !black && bh == 0
    {
      this.hash, this.ca := hash, ca;
      p, l, r, black := null, null, null, false;
      lo, hi, bh := -1, HASH_LIMIT, 0;
    }
  }

  // ----- invariants

  /** Search order and the agreement of child and parent pointers, at one node. */
  ghost predicate Linked(n: Node, root: Node?, S: set<Node>)
    requires n in S
    reads S`p, S`l, S`r, S`lo, S`hi
  {
    && -1 <= n.lo < n.hash < n.hi <= HASH_LIMIT
    && (n.l != null ==> n.l in S && n.l.p == n && n.l.lo == n.lo && n.l.hi == n.hash)
    && (n.r != null ==> n.r in S && n.r.p == n && n.r.lo == n.hash && n.r.hi == n.hi)
    && (n.p == null ==> n == root)
    && (n.p != null ==> n.p in S && (n.p.l == n || n.p.r == n))
  }

  /** `S` is exactly the set of nodes of a binary search tree with root `root`. */
  ghost predicate Links(root: Node?, S: set<Node>)
    reads S`p, S`l, S`r, S`lo, S`hi
  {
    && (root == null ==> S == {})
    && (root != null ==> root in S && root.p == null && root.lo == -1 && root.hi == HASH_LIMIT)
    && (forall n {:trigger Linked(n, root, S)} | n in S :: Linked(n, root, S))
  }

  ghost function One(n: Node?): set<Node> {
    if n == null then {} else {n}
  }

  ghost function BH(n: Node?): nat
    reads n
  {
    if n == null then 0 else n.bh
  }

  /** Both subtrees of `n` have the same black height. */
  ghost predicate Height(n: Node)
    reads n, n.l, n.r
  {
    BH(n.l) == BH(n.r) && n.bh == BH(n.l) + if n.black then 1 else 0
  }

  /** No red node has a red parent. */
  ghost predicate RedOk(n: Node)
    reads n, n.p
  {
    n.black || n.p == null || n.p.black
  }

  ghost predicate RedBlack(root: Node?, S: set<Node>)
    reads S
  {
    && Links(root, S)
    && (root != null ==> root.black)
    && (forall n {:trigger Height(n)} | n in S :: assert Linked(n, root, S); Height(n))
    && (forall n {:trigger RedOk(n)} | n in S :: assert Linked(n, root, S); RedOk(n))
  }

  /** What the index stores: the pairs of a name hash and a data cluster. */
  ghost function Entries(S: set<Node>): set<(Hash, nat)> {
    set n | n in S :: (n.hash, n.ca)
  }

  ghost predicate HasKey(S: set<Node>, hash: int) {
    exists n | n in S :: n.hash == hash
  }

  // ----- search

  /** The search for `h` that starts at `n` passes through `b`. */
  ghost predicate On(n: Node?, h: int, b: Node, root: Node?, S: set<Node>)
    requires Links(root, S) && (n != null ==> n in S)
    reads S`p, S`l, S`r, S`lo, S`hi
    decreases if n == null then 0 else n.hi - n.lo
  {
    && n != null
    && assert Linked(n, root, S);
      (n == b || (h < n.hash && On(n.l, h, b, root, S)) || (h > n.hash && On(n.r, h, b, root, S)))
  }

  /** A search that passes through `c` for one key does so for every key in the interval of `c`. */
  lemma {:induction false} OnExtend(n: Node, k: int, c: Node, h: int, root: Node?, S: set<Node>)
    requires Links(root, S) && n in S && c in S
    requires On(n, k, c, root, S) && c.lo < h < c.hi
    ensures On(n, h, c, root, S) && n.lo <= c.lo && c.hi <= n.hi
    decreases n.hi - n.lo
  {
    assert Linked(n, root, S);
    if n != c {
      if k < n.hash {
        OnExtend(n.l, k, c, h, root, S);
      } else {
        OnExtend(n.r, k, c, h, root, S);
      }
    }
  }

  lemma {:induction false} OnTrans(n: Node, h: int, c: Node, b: Node, root: Node?, S: set<Node>)
    requires Links(root, S) && n in S && c in S
    requires On(n, h, c, root, S) && On(c, h, b, root, S)
    ensures On(n, h, b, root, S)
    decreases n.hi - n.lo
  {
    assert Linked(n, root, S);
    if n != c {
      if h < n.hash {
        OnTrans(n.l, h, c, b, root, S);
      } else {
        OnTrans(n.r, h, c, b, root, S);
      }
    }
  }

  /** If a search for the key of `b` passes through `z` and through `b`, then `b` comes later. */
  lemma {:induction false} OnFollow(n: Node, z: Node, b: Node, root: Node?, S: set<Node>)
    requires Links(root, S) && n in S && z in S && b in S
    requires On(n, b.hash, z, root, S) && On(n, b.hash, b, root, S)
    ensures On(z, b.hash, b, root, S)
    decreases n.hi - n.lo
  {
    assert Linked(n, root, S);
    if n != z && n != b {
      if b.hash < n.hash {
        OnFollow(n.l, z, b, root, S);
      } else {
        OnFollow(n.r, z, b, root, S);
      }
    }
  }

  /** Every node of the tree is found by the search for its own key. */
  lemma {:induction false} Reached(b: Node, root: Node?, S: set<Node>)
    requires Links(root, S) && b in S
    ensures On(root, b.hash, b, root, S)
    decreases HASH_LIMIT + 1 - (b.hi - b.lo)
  {
    if b != root {
      var p := b.p;
      assert Linked(b, root, S) && Linked(p, root, S);
      Reached(p, root, S);
      OnExtend(root, p.hash, p, b.hash, root, S);
      assert On(p, b.hash, b, root, S);
      OnTrans(root, b.hash, p, b, root, S);
    }
  }

  /** No two nodes hold the same key. */
  lemma {:induction false} KeysUnique(a: Node, b: Node, root: Node?, S: set<Node>)
    requires Links(root, S) && a in S && b in S
    requires a.hash == b.hash
    ensures a == b
  {
    Reached(a, root, S);
    Reached(b, root, S);
    OnFollow(root, a, b, root, S);
  }

  // ----- height

  /** The nodes whose keys lie strictly between `lo` and `hi`. */
  ghost function Between(S: set<Node>, lo: int, hi: int): set<Node> {
    set b | b in S && lo < b.hash < hi
  }

  lemma {:induction false} BlackHeightCounts(n: Node?, lo: int, hi: int, root: Node?, S: set<Node>)
    requires RedBlack(root, S) && (n != null ==> n in S && n.lo == lo && n.hi == hi)
    ensures Pow2(BH(n)) <= |Between(S, lo, hi)| + 1
    decreases if n == null then 0 else n.hi - n.lo
  {
    if n != null {
      assert Linked(n, root, S) && Height(n);
      BlackHeightCounts(n.l, lo, n.hash, root, S);
      BlackHeightCounts(n.r, n.hash, hi, root, S);
      var sl, sr := Between(S, lo, n.hash), Between(S, n.hash, hi);
      assert |sl + sr| == |sl| + |sr| by { assert sl !! sr; }
      assert |sl + sr + {n}| == |sl| + |sr| + 1;
      assert sl + sr + {n} <= Between(S, lo, hi);
      SubsetSize(sl + sr + {n}, Between(S, lo, hi));
      Pow2Monotone(n.bh, BH(n.l) + 1);
    }
  }

  /** A search of `steps` steps in a tree of black height `root.bh` is logarithmic in the size:
      `2^steps <= (|S| + 1)^2`, that is, `steps <= 2 * log2(|S| + 1)`. */
  lemma {:induction false} HeightBound(root: Node, steps: nat, S: set<Node>)
    requires RedBlack(root, S)
    requires steps <= 2 * root.bh
    ensures Pow2(steps) <= (|S| + 1) * (|S| + 1)
  {
    BlackHeightCounts(root, root.lo, root.hi, root, S);
    assert Between(S, root.lo, root.hi) <= S;
    SubsetSize(Between(S, root.lo, root.hi), S);
    Pow2Square(root.bh, steps, |S| + 1);
  }

  /** Twice the black height, plus one for a red node: the longest way down from `n`. */
  ghost function Depth(n: Node?): nat
    reads n
  {
    if n == null then 0 else 2 * n.bh + if n.black then 0 else 1
  }

  method Find(root: Node?, hash: Hash, ghost S: set<Node>) returns (found: Node?, ghost steps: nat)
    requires RedBlack(root, S)
    ensures found != null ==> found in S && found.hash == hash
    ensures found == null <==> !HasKey(S, hash)
    ensures Pow2(steps) <= (|S| + 1) * (|S| + 1)
  {
    forall b | b in S ensures On(root, b.hash, b, root, S) {
      Reached(b, root, S);
    }
    found, steps := root, 0;
    while found != null
      invariant found != null ==> found in S
      invariant forall b | b in S && b.hash == hash :: On(found, hash, b, root, S)
      invariant root != null ==> steps + Depth(found) <= 2 * root.bh
      invariant root == null ==> steps == 0 && found == null
      decreases if found == null then 0 else found.hi - found.lo
    {
      assert Linked(found, root, S) && Height(found);
      if hash < found.hash {
        assert found.l != null ==> RedOk(found.l);
        found := found.l;
      } else if hash > found.hash {
        assert found.r != null ==> RedOk(found.r);
        found := found.r;
      } else {
        break;
      }
      steps := steps + 1;
    }
    if root != null {
      HeightBound(root, steps, S);
    }
  }

  // ----- what the ghost black heights mean

  /** The number of black nodes on every way from `n` down to an empty link, or -1 if two
      ways disagree. Unlike `bh`, it is computed from the pointers and colours alone. */
  ghost function Blacks(n: Node?, root: Node?, S: set<Node>): int
    requires Links(root, S) && (n != null ==> n in S)
    reads S
    decreases if n == null then 0 else n.hi - n.lo
  {
    if n == null then 0
    else
      assert Linked(n, root, S);
      var a, b := Blacks(n.l, root, S), Blacks(n.r, root, S);
      if a < 0 || a != b then -1 else a + if n.black then 1 else 0
  }

  /** The red-black property of the pointers and colours alone. */
  ghost predicate IsRedBlack(root: Node?, S: set<Node>)
    reads S
  {
    && Links(root, S)
    && (root != null ==> root.black)
    && (forall n {:trigger RedOk(n)} | n in S :: assert Linked(n, root, S); RedOk(n))
    && Blacks(root, root, S) >= 0
  }

  /** The ghost heights are right wherever the nodes below agree with their neighbours. */
  lemma {:induction false} BlacksAre(n: Node?, lo: int, hi: int, root: Node?, S: set<Node>)
    requires Links(root, S) && (n != null ==> n in S && lo <= n.lo && n.hi <= hi)
    requires forall m {:trigger Height(m)} | m in S && lo <= m.lo && m.hi <= hi :: assert Linked(m, root, S); Height(m)
    ensures Blacks(n, root, S) == BH(n)
    decreases if n == null then 0 else n.hi - n.lo
  {
    if n != null {
      assert Linked(n, root, S) && Height(n);
      BlacksAre(n.l, lo, hi, root, S);
      BlacksAre(n.r, lo, hi, root, S);
    }
  }

  lemma {:induction false} RedBlackIs(root: Node?, S: set<Node>)
    requires RedBlack(root, S)
    ensures IsRedBlack(root, S) && Blacks(root, root, S) == BH(root)
  {
    BlacksAre(root, -1, HASH_LIMIT, root, S);
  }

  /** An imbalance anywhere is an imbalance at the root. */
  lemma {:induction false} ImbalanceRises(n: Node, root: Node, S: set<Node>)
    requires Links(root, S) && n in S && Blacks(n, root, S) < 0
    ensures Blacks(root, root, S) < 0
    decreases HASH_LIMIT + 1 - (n.hi - n.lo)
  {
    assert Linked(n, root, S);
    if n != root {
      assert Linked(n.p, root, S);
      ImbalanceRises(n.p, root, S);
    }
  }

  // ----- rotations

  /** What a left rotation at `x`, with right child `y`, does to any other node `n`. */
  twostate predicate AsideLeft(n: Node, x: Node, y: Node)
    reads n, y
  {
    && n.l == (if old(n.l) == x then y else old(n.l))
    && n.r == (if old(n.r) == x then y else old(n.r))
    && n.p == (if n == old(y.l) then x else old(n.p))
    && n.lo == old(n.lo) && n.hi == old(n.hi)
  }

  /** The whole effect of a left rotation at `x` on the pointers and intervals of `S`. */
  twostate predicate RotatedLeft(x: Node, S: set<Node>)
    requires x in S && old(x.r) != null && old(x.r) in S
    reads S
  {
    var y := old(x.r);
    && x.l == old(x.l) && x.r == old(y.l) && x.p == y
    && y.l == x && y.r == old(y.r) && y.p == old(x.p)
    && x.lo == old(x.lo) && x.hi == y.hash && y.lo == old(x.lo) && y.hi == old(x.hi)
    && (forall n | n in S && n != x && n != y :: AsideLeft(n, x, y))
  }

  /** The pointer surgery: `x` is replaced by its right child, and becomes its left child. */
  method SwingLeft(root: Node, x: Node, ghost S: set<Node>) returns (newRoot: Node)
    requires Links(root, S) && x in S && x.r != null
    modifies S`p, S`l, S`r, S`lo, S`hi
    ensures old(x.r) in S && RotatedLeft(x, S)
    ensures newRoot == if x == root then old(x.r) else root
  {
    newRoot := root;
    var y := x.r;
    assert Linked(x, root, S) && Linked(y, root, S);
    x.r := y.l;
    if y.l != null {
      y.l.p := x;
    }
    y.p := x.p;
    if x.p == null {
      newRoot := y;
    } else if x == x.p.l {
      x.p.l := y;
    } else {
      x.p.r := y;
    }
    y.l := x;
    x.p := y;
    y.lo, y.hi, x.hi := x.lo, x.hi, y.hash;
    forall n | n in S && n != x && n != y ensures AsideLeft(n, x, y) {
      assert old(Linked(n, root, S));
    }
  }

  method RotateLeft(root: Node, x: Node, ghost S: set<Node>) returns (newRoot: Node)
    requires Links(root, S) && x in S && x.r != null
    modifies S`p, S`l, S`r, S`lo, S`hi
    ensures old(x.r) in S && Links(newRoot, S) && RotatedLeft(x, S)
    ensures newRoot == if x == root then old(x.r) else root
  {
    ghost var y := x.r;
    assert Linked(x, root, S) && Linked(y, root, S);
    newRoot := SwingLeft(root, x, S);
    forall n | n in S ensures Linked(n, newRoot, S) {
      assert old(Linked(n, root, S));
    }
  }

  /** What a right rotation at `x`, with left child `y`, does to any other node `n`. */
  twostate predicate AsideRight(n: Node, x: Node, y: Node)
    reads n, y
  {
    && n.r == (if old(n.r) == x then y else old(n.r))
    && n.l == (if old(n.l) == x then y else old(n.l))
    && n.p == (if n == old(y.r) then x else old(n.p))
    && n.hi == old(n.hi) && n.lo == old(n.lo)
  }

  /** The whole effect of a right rotation at `x` on the pointers and intervals of `S`. */
  twostate predicate RotatedRight(x: Node, S: set<Node>)
    requires x in S && old(x.l) != null && old(x.l) in S
    reads S
  {
    var y := old(x.l);
    && x.r == old(x.r) && x.l == old(y.r) && x.p == y
    && y.r == x && y.l == old(y.l) && y.p == old(x.p)
    && x.hi == old(x.hi) && x.lo == y.hash && y.hi == old(x.hi) && y.lo == old(x.lo)
    && (forall n | n in S && n != x && n != y :: AsideRight(n, x, y))
  }

  /** The pointer surgery: `x` is replaced by its left child, and becomes its right child. */
  method SwingRight(root: Node, x: Node, ghost S: set<Node>) returns (newRoot: Node)
    requires Links(root, S) && x in S && x.l != null
    modifies S`p, S`r, S`l, S`lo, S`hi
    ensures old(x.l) in S && RotatedRight(x, S)
    ensures newRoot == if x == root then old(x.l) else root
  {
    newRoot := root;
    var y := x.l;
    assert Linked(x, root, S) && Linked(y, root, S);
    x.l := y.r;
    if y.r != null {
      y.r.p := x;
    }
    y.p := x.p;
    if x.p == null {
      newRoot := y;
    } else if x == x.p.r {
      x.p.r := y;
    } else {
      x.p.l := y;
    }
    y.r := x;
    x.p := y;
    y.hi, y.lo, x.lo := x.hi, x.lo, y.hash;
    forall n | n in S && n != x && n != y ensures AsideRight(n, x, y) {
      assert old(Linked(n, root, S));
    }
  }

  method RotateRight(root: Node, x: Node, ghost S: set<Node>) returns (newRoot: Node)
    requires Links(root, S) && x in S && x.l != null
    modifies S`p, S`r, S`l, S`lo, S`hi
    ensures old(x.l) in S && Links(newRoot, S) && RotatedRight(x, S)
    ensures newRoot == if x == root then old(x.l) else root
  {
    ghost var y := x.l;
    assert Linked(x, root, S) && Linked(y, root, S);
    newRoot := SwingRight(root, x, S);
    forall n | n in S ensures Linked(n, newRoot, S) {
      assert old(Linked(n, root, S));
    }
  }

  method SwapColours(p: Node, gp: Node)
    requires p != gp && !p.black && gp.black && gp.bh > 0
    modifies {p, gp}`black, {p, gp}`bh
    ensures p.black && !gp.black && p.bh == old(p.bh) + 1 && gp.bh == old(gp.bh) - 1
  {
    p.black := true;
    gp.black := false;
    p.bh, gp.bh := p.bh + 1, gp.bh - 1;
  }

  /** The red left child of `x` and `x` swap colours, then `x` is rotated right. */
  method SwapRotateRight(root: Node, x: Node, ghost S: set<Node>) returns (newRoot: Node)
    requires Links(root, S) && x in S && x.l != null && !x.l.black && x.black && x.bh > 0
    modifies S`p, S`l, S`r, S`lo, S`hi, S`black, S`bh
    ensures old(x.l) in S && Links(newRoot, S) && RotatedRight(x, S)
    ensures newRoot == if x == root then old(x.l) else root
    ensures old(x.l).black && !x.black && old(x.l).bh == old(x.l.bh) + 1 && x.bh == old(x.bh) - 1
    ensures forall n | n in S && n != x && n != old(x.l) :: n.black == old(n.black) && n.bh == old(n.bh)
  {
    assert Linked(x, root, S);
    ghost var y := x.l;
    SwapColours(x.l, x);
    newRoot := RotateRight(root, x, S);
    forall n | n in S && n != x && n != y ensures AsideRight(n, x, y) {}
  }

  /** The red right child of `x` and `x` swap colours, then `x` is rotated left. */
  method SwapRotateLeft(root: Node, x: Node, ghost S: set<Node>) returns (newRoot: Node)
    requires Links(root, S) && x in S && x.r != null && !x.r.black && x.black && x.bh > 0
    modifies S`p, S`l, S`r, S`lo, S`hi, S`black, S`bh
    ensures old(x.r) in S && Links(newRoot, S) && RotatedLeft(x, S)
    ensures newRoot == if x == root then old(x.r) else root
    ensures old(x.r).black && !x.black && old(x.r).bh == old(x.r.bh) + 1 && x.bh == old(x.bh) - 1
    ensures forall n | n in S && n != x && n != old(x.r) :: n.black == old(n.black) && n.bh == old(n.bh)
  {
    assert Linked(x, root, S);
    ghost var y := x.r;
    SwapColours(x.r, x);
    newRoot := RotateLeft(root, x, S);
    forall n | n in S && n != x && n != y ensures AsideLeft(n, x, y) {}
  }
}
