/** Cluster chains in the table as its users see it: `l[ca]` is the value of cluster `ca`, the
    next cluster of a chain or END. Allocation, release and the families of chains that runs of
    allocation, extension and release leave behind (`src/cluster.c`, `nifat32.c`). */
module Chains {
  import opened Vote

  /** `read_fat`, on values. */
  function Status(l: seq<nat>, root: nat, ca: nat): nat {
    if root <= ca < |l| then l[ca] else BAD
  }

  // ----- allocation

  /** The fallback scan of `alloc_cluster`: each BAD or RESERVED cluster makes the scan skip one
      cluster more than the last one did. BAD stands for "none". */
  function Scan(l: seq<nat>, root: nat, ca: nat, skip: nat): nat
    decreases |l| - ca
  {
    if ca >= |l| then BAD
    else if Status(l, root, ca) == FREE then ca
    else if Status(l, root, ca) == BAD || Status(l, root, ca) == RESERVED then Scan(l, root, ca + skip + 1, skip + 1)
    else Scan(l, root, ca + 1, skip)
  }

  /** The least free cluster at or after `ca`, or BAD. */
  function FirstFree(l: seq<nat>, root: nat, ca: nat): nat
    decreases |l| - ca
  {
    if ca >= |l| then BAD
    else if Status(l, root, ca) == FREE then ca
    else FirstFree(l, root, ca + 1)
  }

  lemma {:induction false} FirstFreeIsLeast(l: seq<nat>, root: nat, ca: nat)
    requires |l| <= BAD
    ensures var r := FirstFree(l, root, ca);
      if r == BAD then forall k: nat | ca <= k :: Status(l, root, k) != FREE
      else ca <= r < |l| && Status(l, root, r) == FREE && forall k | ca <= k < r :: Status(l, root, k) != FREE
    decreases |l| - ca
  {
    if ca < |l| && Status(l, root, ca) != FREE {
      FirstFreeIsLeast(l, root, ca + 1);
    }
  }

  /** Whatever the scan finds is free, and not before the first free cluster. */
  lemma {:induction false} ScanIsSound(l: seq<nat>, root: nat, ca: nat, skip: nat)
    requires |l| <= BAD
    ensures var r := Scan(l, root, ca, skip);
      r != BAD ==> ca <= r < |l| && Status(l, root, r) == FREE && FirstFree(l, root, ca) <= r
    decreases |l| - ca
  {
    if ca < |l| && Status(l, root, ca) != FREE {
      var blocked := Status(l, root, ca) == BAD || Status(l, root, ca) == RESERVED;
      var next := if blocked then ca + skip + 1 else ca + 1;
      ScanIsSound(l, root, next, if blocked then skip + 1 else skip);
      FirstFreeIsLeast(l, root, ca);
    }
  }

  /** The cluster that the scan looks at in round `i`: the next one, or after a BAD or RESERVED
      cluster as many more further on as such clusters were looked at before that one. */
  function Position(l: seq<nat>, root: nat, start: nat, i: nat): nat {
    if i == 0 then start
    else
      var p := Position(l, root, start, i - 1);
      p + 1 + if Status(l, root, p) == BAD || Status(l, root, p) == RESERVED then Skips(l, root, start, i - 1) else 0
  }

  /** How many BAD or RESERVED clusters the scan looks at before round `i`. */
  function Skips(l: seq<nat>, root: nat, start: nat, i: nat): nat {
    if i == 0 then 0
    else
      var p := Position(l, root, start, i - 1);
      Skips(l, root, start, i - 1) + if Status(l, root, p) == BAD || Status(l, root, p) == RESERVED then 1 else 0
  }

  /** In round `n`, and not before, the scan looks at a free cluster or has left the table. */
  ghost predicate LooksUntil(l: seq<nat>, root: nat, start: nat, n: nat) {
    && (forall i: nat | i < n ::
          Position(l, root, start, i) < |l| && Status(l, root, Position(l, root, start, i)) != FREE)
    && var p := Position(l, root, start, n); p >= |l| || Status(l, root, p) == FREE
  }

  lemma {:induction false} ScanFrom(l: seq<nat>, root: nat, start: nat, i: nat) returns (n: nat)
    requires |l| <= BAD
    requires forall j: nat | j < i ::
      Position(l, root, start, j) < |l| && Status(l, root, Position(l, root, start, j)) != FREE
    ensures LooksUntil(l, root, start, n)
    ensures var p := Position(l, root, start, n);
      Scan(l, root, Position(l, root, start, i), Skips(l, root, start, i)) == if p < |l| then p else BAD
    decreases |l| - Position(l, root, start, i)
  {
    var p := Position(l, root, start, i);
    if p >= |l| || Status(l, root, p) == FREE {
      n := i;
    } else {
      assert Position(l, root, start, i + 1) > p;
      n := ScanFrom(l, root, start, i + 1);
    }
  }

  /** The scan finds the first free cluster that it looks at, and none exactly when it leaves the
      table before. */
  lemma {:induction false} ScanIs(l: seq<nat>, root: nat, start: nat)
    requires |l| <= BAD
    ensures exists n: nat :: LooksUntil(l, root, start, n)
    ensures forall n: nat | LooksUntil(l, root, start, n) ::
      Scan(l, root, start, 0) == if Position(l, root, start, n) < |l| then Position(l, root, start, n) else BAD
  {
    var m := ScanFrom(l, root, start, 0);
    forall n: nat | LooksUntil(l, root, start, n) ensures n == m {
    }
  }

  /** Clusters in `[ca, to)` that make the scan skip. */
  function Blocked(l: seq<nat>, root: nat, ca: nat, to: nat): nat
    decreases to - ca
  {
    if ca >= to then 0
    else (if Status(l, root, ca) == BAD || Status(l, root, ca) == RESERVED then 1 else 0) + Blocked(l, root, ca + 1, to)
  }

  /** The scan finds the first free cluster if at most one cluster before it is BAD or RESERVED. */
  lemma {:induction false} ScanFindsFirst(l: seq<nat>, root: nat, ca: nat, skip: nat)
    requires |l| <= BAD && FirstFree(l, root, ca) != BAD
    requires Blocked(l, root, ca, FirstFree(l, root, ca)) + skip <= 1
    ensures Scan(l, root, ca, skip) == FirstFree(l, root, ca)
    decreases |l| - ca
  {
    FirstFreeIsLeast(l, root, ca);
    if Status(l, root, ca) != FREE {
      var blocked := Status(l, root, ca) == BAD || Status(l, root, ca) == RESERVED;
      ScanFindsFirst(l, root, ca + 1, if blocked then skip + 1 else skip);
    }
  }

  /** A table against which the scan is helpless: blocked clusters lie where it looks, each one
      cluster further away than the last, and the only free cluster is right behind the last. */
  function Sieve(b: nat): seq<nat> {
    if b == 0 then [] else SieveFrom(0, b)
  }

  function SieveFrom(i: nat, b: nat): (s: seq<nat>)
    requires i < b
    ensures |s| >= 2 && s[|s| - 1] == FREE
    decreases b - i
  {
    if i == b - 1 then [BAD, FREE] else [BAD] + seq(i, _ => END) + SieveFrom(i + 1, b)
  }

  lemma {:induction false} PassOver(l: seq<nat>, root: nat, ca: nat, m: nat, to: nat)
    requires root <= ca <= m <= to <= |l| && forall k | ca <= k < m :: l[k] == END
    ensures FirstFree(l, root, ca) == FirstFree(l, root, m) && Blocked(l, root, ca, to) == Blocked(l, root, m, to)
    decreases m - ca
  {
    if ca < m {
      PassOver(l, root, ca + 1, m, to);
    }
  }

  lemma {:induction false} SieveSegment(l: seq<nat>, ca: nat, i: nat, b: nat)
    requires i < b - 1 && ca <= |l| && l[ca..] == SieveFrom(i, b)
    ensures var m := ca + i + 1;
      && m + 2 <= |l| && l[ca] == BAD && l[m..] == SieveFrom(i + 1, b) && forall k | ca < k < m :: l[k] == END
  {
    var m, rest := ca + i + 1, SieveFrom(i + 1, b);
    var s := [BAD] + seq(i, _ => END) + rest;
    assert l[ca..] == s && |s| == i + 1 + |rest|;
    forall k | ca <= k < |l| ensures l[k] == s[k - ca] {
      assert l[k] == l[ca..][k - ca];
    }
    assert l[m..] == s[i + 1..] == rest;
  }

  lemma SkipOne(l: seq<nat>, root: nat, ca: nat, skip: nat, to: nat)
    requires root <= ca < to <= |l| && l[ca] == BAD
    ensures Scan(l, root, ca, skip) == Scan(l, root, ca + skip + 1, skip + 1)
    ensures FirstFree(l, root, ca) == FirstFree(l, root, ca + 1)
    ensures Blocked(l, root, ca, to) == 1 + Blocked(l, root, ca + 1, to)
  {
  }

  lemma {:induction false} SieveEnd(l: seq<nat>, root: nat, ca: nat, i: nat, b: nat)
    requires i == b - 1 >= 1 && root <= ca <= |l| && l[ca..] == SieveFrom(i, b)
    ensures Scan(l, root, ca, i) == BAD && FirstFree(l, root, ca) == |l| - 1 && Blocked(l, root, ca, |l| - 1) == 1
  {
    assert l[ca] == l[ca..][0] == BAD && l[ca + 1] == l[ca..][1] == FREE;
    assert FirstFree(l, root, ca + 1) == ca + 1 && Blocked(l, root, ca + 1, ca + 1) == 0;
  }

  lemma {:induction false} SieveMisses(l: seq<nat>, root: nat, ca: nat, i: nat, b: nat)
    requires i < b && 2 <= b && root <= ca <= |l| <= BAD && l[ca..] == SieveFrom(i, b)
    ensures Scan(l, root, ca, i) == BAD && FirstFree(l, root, ca) == |l| - 1 && Blocked(l, root, ca, |l| - 1) == b - i
    decreases b - i
  {
    hide Scan, FirstFree, Blocked, SieveFrom;
    if i == b - 1 {
      SieveEnd(l, root, ca, i, b);
    } else {
      var m := ca + i + 1;
      SieveSegment(l, ca, i, b);
      SkipOne(l, root, ca, i, |l| - 1);
      PassOver(l, root, ca + 1, m, |l| - 1);
      SieveMisses(l, root, m, i + 1, b);
    }
  }

  /** With two or more blocked clusters before it, a free cluster can be missed by the scan. */
  lemma {:induction false} ScanCanMiss(root: nat, b: nat)
    requires 2 <= b && root + |Sieve(b)| <= BAD
    ensures var l := seq(root, _ => END) + Sieve(b);
      Scan(l, root, root, 0) == BAD && FirstFree(l, root, root) == |l| - 1 && Blocked(l, root, root, |l| - 1) == b
  {
    hide Scan, FirstFree, Blocked, SieveFrom;
    var front, s := seq(root, _ => END), Sieve(b);
    assert (front + s)[root..] == s;
    SieveMisses(front + s, root, root, 0, b);
  }

  /** The number of blocked clusters before the first free one decides whether the scan is sure to
      find it: it is if and only if there is at most one. */
  lemma {:induction false} ScanFindsFirstIff(root: nat, b: nat)
    requires root + |Sieve(b)| <= BAD
    ensures (forall l: seq<nat>, ca: nat
               | |l| <= BAD && FirstFree(l, root, ca) != BAD && Blocked(l, root, ca, FirstFree(l, root, ca)) == b ::
               Scan(l, root, ca, 0) == FirstFree(l, root, ca)) <==> b <= 1
  {
    if b <= 1 {
      forall l: seq<nat>, ca: nat |
        |l| <= BAD && FirstFree(l, root, ca) != BAD && Blocked(l, root, ca, FirstFree(l, root, ca)) == b
        ensures Scan(l, root, ca, 0) == FirstFree(l, root, ca)
      {
        ScanFindsFirst(l, root, ca, 0);
      }
    } else {
      ScanCanMiss(root, b);
    }
  }

  // ----- paths of links

  /** The cluster that `n` links lead to from `ca`; behind a cluster out of range there is BAD. */
  function Nth(l: seq<nat>, root: nat, ca: nat, n: nat): nat {
    if n == 0 then ca else Status(l, root, Nth(l, root, ca, n - 1))
  }

  lemma {:induction false} NthStep(l: seq<nat>, root: nat, ca: nat, n: nat)
    ensures Nth(l, root, ca, n + 1) == Nth(l, root, Status(l, root, ca), n)
  {
    if n > 0 {
      NthStep(l, root, ca, n - 1);
    }
  }

  /** Some number of links leads from `ca` to the cluster `k`. */
  ghost predicate Leads(l: seq<nat>, root: nat, ca: nat, k: nat) {
    exists n: nat :: Nth(l, root, ca, n) == k
  }

  // ----- chains

  ghost predicate Distinct(c: seq<nat>) {
    forall i, j | 0 <= i < j < |c| :: c[i] != c[j]
  }

  /** `c` lists the clusters of a chain that ends with END. */
  ghost predicate IsChain(l: seq<nat>, root: nat, c: seq<nat>) {
    && c != [] && Distinct(c) && 0 < root && |l| <= BAD
    && (forall i | 0 <= i < |c| :: root <= c[i] < |l|)
    && (forall i | 0 <= i < |c| - 1 :: l[c[i]] == c[i + 1])
    && l[c[|c| - 1]] == END
  }

  /** The clusters of `c` become free. */
  function Clear(l: seq<nat>, c: seq<nat>): (l': seq<nat>)
    ensures |l'| == |l|
    ensures forall k | 0 <= k < |l| :: l'[k] == if k in c then FREE else l[k]
  {
    seq(|l|, k requires 0 <= k < |l| => if k in c then FREE else l[k])
  }

  ghost function InUse(l: seq<nat>): nat {
    if l == [] then 0 else InUse(l[1..]) + if l[0] != FREE then 1 else 0
  }

  lemma {:induction false} InUseUpdate(l: seq<nat>, k: nat, v: nat)
    requires k < |l|
    ensures InUse(l[k := v]) == InUse(l) - (if l[k] != FREE then 1 else 0) + (if v != FREE then 1 else 0)
  {
    if k == 0 {
      assert l[k := v][1..] == l[1..];
    } else {
      InUseUpdate(l[1..], k - 1, v);
      assert l[k := v][1..] == l[1..][k - 1 := v];
    }
  }

  /** `dealloc_chain`: what it leaves, and whether it reports success. It terminates on every
      table, since each round either stops or frees one more cluster. */
  ghost function Drain(l: seq<nat>, root: nat, ca: nat): (seq<nat>, bool)
    decreases InUse(l)
  {
    if !(root <= ca < |l|) then (l, false)
    else if l[ca] == FREE then (l, true)
    else
      InUseUpdate(l, ca, FREE);
      if l[ca] == END || l[ca] == BAD then (l[ca := FREE], true)
      else Drain(l[ca := FREE], root, l[ca])
  }

  /** Draining only frees clusters, and a successful drain frees its first cluster. */
  lemma {:induction false} DrainOnlyFrees(l: seq<nat>, root: nat, ca: nat)
    ensures var (l', ok) := Drain(l, root, ca);
      && |l'| == |l| && (forall k | 0 <= k < |l| :: l'[k] == l[k] || (l'[k] == FREE && root <= k))
      && (ok ==> root <= ca < |l| && l'[ca] == FREE)
    decreases InUse(l)
  {
    if root <= ca < |l| && l[ca] != FREE {
      InUseUpdate(l, ca, FREE);
      if l[ca] != END && l[ca] != BAD {
        DrainOnlyFrees(l[ca := FREE], root, l[ca]);
      }
    }
  }

  /** A path that lost the links of `ca` still leads to a cluster in range if it did so without
      them, and leads to no others. */
  lemma {:induction false} PathWithout(l: seq<nat>, root: nat, ca: nat, from: nat, n: nat)
    requires 0 < root <= ca < |l| <= BAD
    requires var k := Nth(l[ca := FREE], root, from, n); root <= k < |l|
    ensures Nth(l, root, from, n) == Nth(l[ca := FREE], root, from, n)
  {
    if n > 0 {
      var p := Nth(l[ca := FREE], root, from, n - 1);
      assert root <= p < |l|;
      PathWithout(l, root, ca, from, n - 1);
    }
  }

  lemma {:induction false} PathWithin(l: seq<nat>, root: nat, ca: nat, from: nat, n: nat)
    requires root <= ca < |l|
    requires forall j: nat | j < n :: Nth(l, root, from, j) != ca
    ensures Nth(l[ca := FREE], root, from, n) == Nth(l, root, from, n)
  {
    if n > 0 {
      PathWithin(l, root, ca, from, n - 1);
    }
  }

  /** Where the links of `ca` lead: to `ca`, and to where the next cluster leads without them. */
  lemma {:induction false} LeadsOn(l: seq<nat>, root: nat, ca: nat, k: nat)
    requires 0 < root <= ca < |l| <= BAD && root <= k < |l|
    ensures Leads(l, root, ca, k) <==> k == ca || Leads(l[ca := FREE], root, l[ca], k)
  {
    if k == ca {
      assert Nth(l, root, ca, 0) == k;
    } else if Leads(l, root, ca, k) {
      var n: nat :| Nth(l, root, ca, n) == k;
      Shortcut(l, root, ca, k, n);
    }
    if Leads(l[ca := FREE], root, l[ca], k) {
      var n: nat :| Nth(l[ca := FREE], root, l[ca], n) == k;
      PathWithout(l, root, ca, l[ca], n);
      NthStep(l, root, ca, n);
    }
  }

  lemma {:induction false} Shortcut(l: seq<nat>, root: nat, ca: nat, k: nat, n: nat)
    requires root <= ca < |l| && k != ca && Nth(l, root, ca, n) == k
    ensures Leads(l[ca := FREE], root, l[ca], k)
  {
    if j: nat :| 0 < j < n && Nth(l, root, ca, j) == ca {
      NthSum(l, root, ca, j, n - j);
      Shortcut(l, root, ca, k, n - j);
    } else {
      forall j: nat | j < n - 1 ensures Nth(l, root, l[ca], j) != ca {
        NthStep(l, root, ca, j);
      }
      NthStep(l, root, ca, n - 1);
      PathWithin(l, root, ca, l[ca], n - 1);
    }
  }

  lemma {:induction false} NthSum(l: seq<nat>, root: nat, ca: nat, m: nat, n: nat)
    ensures Nth(l, root, ca, m + n) == Nth(l, root, Nth(l, root, ca, m), n)
  {
    if n > 0 {
      NthSum(l, root, ca, m, n - 1);
    }
  }

  /** The cluster is free, ends a chain, is BAD, or links to a cluster in range. */
  predicate Unbroken(l: seq<nat>, root: nat, k: nat)
    requires k < |l|
  {
    l[k] == FREE || l[k] == END || l[k] == BAD || root <= l[k] < |l|
  }

  /** What `dealloc_chain` does on any table, cyclic, cross-linked or broken: it frees exactly the
      clusters that links lead to from `ca`, and reports success exactly when `ca` is in range and
      none of them links to a place out of range that is no end mark. */
  lemma {:induction false} DrainIs(l: seq<nat>, root: nat, ca: nat)
    requires 0 < root && |l| <= BAD
    ensures var (l', ok) := Drain(l, root, ca);
      && |l'| == |l|
      && (forall k: nat | k < |l| :: l'[k] == if root <= k && Leads(l, root, ca, k) then FREE else l[k])
      && (ok <==> root <= ca < |l| && forall k: nat | root <= k < |l| && Leads(l, root, ca, k) :: Unbroken(l, root, k))
    decreases InUse(l)
  {
    hide Leads;
    if !(root <= ca < |l|) {
      OutLeadsNowhere(l, root, ca);
    } else {
      forall k: nat | root <= k < |l|
        ensures Leads(l, root, ca, k) <==> k == ca || Leads(l[ca := FREE], root, l[ca], k)
      {
        LeadsOn(l, root, ca, k);
      }
      if l[ca] == FREE || l[ca] == END || l[ca] == BAD {
        OutLeadsNowhere(l[ca := FREE], root, l[ca]);
      } else {
        InUseUpdate(l, ca, FREE);
        DrainIs(l[ca := FREE], root, l[ca]);
      }
    }
  }

  lemma {:induction false} OutLeadsNowhere(l: seq<nat>, root: nat, ca: nat)
    requires 0 < root && |l| <= BAD && !(root <= ca < |l|)
    ensures forall k: nat | root <= k < |l| :: !Leads(l, root, ca, k)
  {
    forall n: nat ensures !(root <= Nth(l, root, ca, n) < |l|) {
      OutStaysOut(l, root, ca, n);
    }
  }

  lemma {:induction false} OutStaysOut(l: seq<nat>, root: nat, ca: nat, n: nat)
    requires |l| <= BAD && !(root <= ca < |l|)
    ensures !(root <= Nth(l, root, ca, n) < |l|)
  {
    if n > 0 {
      OutStaysOut(l, root, ca, n - 1);
    }
  }

  lemma {:induction false} ChainTail(l: seq<nat>, root: nat, c: seq<nat>)
    requires IsChain(l, root, c) && |c| > 1
    ensures IsChain(l[c[0] := FREE], root, c[1..])
  {
    var l', t := l[c[0] := FREE], c[1..];
    forall i | 0 <= i < |t| - 1 ensures l'[t[i]] == t[i + 1] {
      assert l[c[i + 1]] == c[i + 2];
    }
  }

  /** On a well-formed chain, `dealloc_chain` frees exactly the clusters of the chain. */
  lemma {:induction false} DrainClearsChain(l: seq<nat>, root: nat, c: seq<nat>)
    requires IsChain(l, root, c)
    ensures Drain(l, root, c[0]) == (Clear(l, c), true)
    decreases |c|
  {
    var l' := l[c[0] := FREE];
    InUseUpdate(l, c[0], FREE);
    if |c| == 1 {
      assert Clear(l, c) == l';
    } else {
      ChainTail(l, root, c);
      DrainClearsChain(l', root, c[1..]);
      assert forall k :: k in c <==> k == c[0] || k in c[1..];
      assert Clear(l', c[1..]) == Clear(l, c);
      assert l[c[0]] == c[1];
    }
  }

  /** Freeing a chain raises the number of free clusters by exactly its length. */
  lemma {:induction false} ClearCounts(l: seq<nat>, root: nat, c: seq<nat>)
    requires IsChain(l, root, c)
    ensures InUse(Clear(l, c)) == InUse(l) - |c|
    decreases |c|
  {
    var l' := l[c[0] := FREE];
    InUseUpdate(l, c[0], FREE);
    if |c| == 1 {
      assert Clear(l, c) == l';
    } else {
      ChainTail(l, root, c);
      ClearCounts(l', root, c[1..]);
      assert forall k :: k in c <==> k == c[0] || k in c[1..];
      assert Clear(l', c[1..]) == Clear(l, c);
      assert l[c[0]] == c[1];
    }
  }

  // ----- families of chains

  /** Pairwise disjoint chains. */
  ghost predicate Family(l: seq<nat>, root: nat, chains: seq<seq<nat>>) {
    && (forall i | 0 <= i < |chains| :: IsChain(l, root, chains[i]))
    && (forall i, j, k | 0 <= i < j < |chains| && k in chains[i] :: k !in chains[j])
  }

  datatype Event = Create(n: nat) | Extend(i: nat, n: nat) | Release(i: nat)

  /** What the allocator and the caller guarantee: new clusters are free ones in range, and only
      chains that exist are extended or released. */
  ghost predicate Enabled(l: seq<nat>, root: nat, chains: seq<seq<nat>>, e: Event) {
    && 0 < root && |l| <= BAD
    && (e.Release? || (root <= e.n < |l| && l[e.n] == FREE))
    && (e.Create? || (e.i < |chains| && chains[e.i] != []))
  }

  ghost function Happen(l: seq<nat>, root: nat, chains: seq<seq<nat>>, e: Event): (seq<nat>, seq<seq<nat>>)
    requires Family(l, root, chains) && Enabled(l, root, chains, e)
  {
    match e
    case Create(n) => (l[n := END], chains + [[n]])
    case Extend(i, n) =>
      var c := chains[i];
      (l[n := END][c[|c| - 1] := n], chains[i := c + [n]])
    case Release(i) => (Clear(l, chains[i]), chains[..i] + chains[i + 1..])
  }

  /** A change outside a chain leaves it a chain. */
  lemma {:induction false} ChainUntouched(l: seq<nat>, l': seq<nat>, root: nat, c: seq<nat>)
    requires IsChain(l, root, c) && |l'| == |l| && forall k | k in c :: l'[k] == l[k]
    ensures IsChain(l', root, c)
  {
    forall i | 0 <= i < |c| - 1 ensures l'[c[i]] == c[i + 1] {
      assert c[i] in c;
    }
  }

  lemma {:induction false} ChainExtended(l: seq<nat>, root: nat, c: seq<nat>, n: nat)
    requires IsChain(l, root, c) && root <= n < |l| && l[n] == FREE
    ensures n !in c && IsChain(l[n := END][c[|c| - 1] := n], root, c + [n])
  {
    FreeIsOutside(l, root, c, n);
    var l', t := l[n := END][c[|c| - 1] := n], c + [n];
    forall i | 0 <= i < |t| - 1 ensures l'[t[i]] == t[i + 1] {
      if i < |c| - 1 {
        assert l[c[i]] == c[i + 1] && c[i] != c[|c| - 1];
      }
    }
  }

  lemma {:induction false} FreeIsOutside(l: seq<nat>, root: nat, c: seq<nat>, n: nat)
    requires IsChain(l, root, c) && n < |l| && l[n] == FREE
    ensures n !in c
  {
    if i :| 0 <= i < |c| && c[i] == n {
      assert i < |c| - 1 ==> l[c[i]] == c[i + 1];
    }
  }

  lemma {:induction false} EventKeepsChains(l: seq<nat>, root: nat, chains: seq<seq<nat>>, e: Event)
    requires Family(l, root, chains) && Enabled(l, root, chains, e)
    ensures var (l', chains') := Happen(l, root, chains, e);
      forall j | 0 <= j < |chains'| :: IsChain(l', root, chains'[j])
  {
    var (l', chains') := Happen(l, root, chains, e);
    forall j | 0 <= j < |chains'| ensures IsChain(l', root, chains'[j]) {
      match e
      case Create(n) =>
        if j < |chains| {
          FreeIsOutside(l, root, chains[j], n);
          ChainUntouched(l, l', root, chains[j]);
        }
      case Extend(i, n) =>
        if j == i {
          ChainExtended(l, root, chains[i], n);
        } else {
          FreeIsOutside(l, root, chains[j], n);
          assert chains[i][|chains[i]| - 1] in chains[i];
          ChainUntouched(l, l', root, chains[j]);
        }
      case Release(i) =>
        ChainUntouched(l, l', root, chains'[j]);
    }
  }

  /** Every event keeps the chains chains, and pairwise disjoint. */
  lemma {:induction false} EventKeepsFamily(l: seq<nat>, root: nat, chains: seq<seq<nat>>, e: Event)
    requires Family(l, root, chains) && Enabled(l, root, chains, e)
    ensures var (l', chains') := Happen(l, root, chains, e); Family(l', root, chains') && |l'| == |l|
  {
    EventKeepsChains(l, root, chains, e);
    if !e.Release? {
      forall j | 0 <= j < |chains| ensures e.n !in chains[j] {
        FreeIsOutside(l, root, chains[j], e.n);
      }
    }
  }

  ghost predicate RunEnabled(l: seq<nat>, root: nat, chains: seq<seq<nat>>, es: seq<Event>)
    requires Family(l, root, chains)
    decreases |es|
  {
    es == [] || (
      && Enabled(l, root, chains, es[0])
      && (EventKeepsFamily(l, root, chains, es[0]);
          var (l', chains') := Happen(l, root, chains, es[0]);
          RunEnabled(l', root, chains', es[1..])))
  }

  ghost function RunEvents(l: seq<nat>, root: nat, chains: seq<seq<nat>>, es: seq<Event>)
    : (r: (seq<nat>, seq<seq<nat>>))
    requires Family(l, root, chains) && RunEnabled(l, root, chains, es)
    ensures Family(r.0, root, r.1)
    decreases |es|
  {
    if es == [] then (l, chains)
    else
      EventKeepsFamily(l, root, chains, es[0]);
      var (l', chains') := Happen(l, root, chains, es[0]);
      RunEvents(l', root, chains', es[1..])
  }

  /** `l'` is what the event makes of the table. */
  ghost predicate Follows(l: seq<nat>, root: nat, chains: seq<seq<nat>>, e: Event, l': seq<nat>)
    requires Family(l, root, chains)
  {
    Enabled(l, root, chains, e) && Happen(l, root, chains, e).0 == l'
  }

  lemma {:induction false} CreateFollows(l: seq<nat>, root: nat, n: nat)
    requires 0 < root <= n < |l| <= BAD && l[n] == FREE
    ensures forall chains | Family(l, root, chains) :: Follows(l, root, chains, Create(n), l[n := END])
  {
  }

  lemma {:induction false} ReleaseFollows(l: seq<nat>, root: nat, head: nat)
    ensures forall chains, i: nat |
      Family(l, root, chains) && i < |chains| && chains[i] != [] && chains[i][0] == head ::
      Drain(l, root, head).1 && Follows(l, root, chains, Release(i), Drain(l, root, head).0)
  {
    forall chains, i: nat | Family(l, root, chains) && i < |chains| && chains[i] != [] && chains[i][0] == head
      ensures Drain(l, root, head).1 && Follows(l, root, chains, Release(i), Drain(l, root, head).0)
    {
      DrainClearsChain(l, root, chains[i]);
    }
  }

  // ----- the walk to the end of a chain

  /** The bounded walk of `_add_cluster_to_content`: the last cluster passed, and the rounds left. */
  function Walk(l: seq<nat>, root: nat, cluster: nat, lca: nat, left: nat): (nat, nat)
    decreases left
  {
    if cluster == END || cluster == BAD || left == 0 then (lca, left)
    else Walk(l, root, Status(l, root, cluster), cluster, left - 1)
  }

  /** After `n` links, and not before, the path from `ca` is at END or BAD. */
  ghost predicate EndsAfter(l: seq<nat>, root: nat, ca: nat, n: nat) {
    && (Nth(l, root, ca, n) == END || Nth(l, root, ca, n) == BAD)
    && forall i: nat | i < n :: Nth(l, root, ca, i) != END && Nth(l, root, ca, i) != BAD
  }

  /** On any table the walk follows the links: it stops behind the last cluster before END or BAD
      if it gets there in time, else it uses up its rounds. */
  lemma {:induction false} WalkIs(l: seq<nat>, root: nat, cluster: nat, lca: nat, left: nat)
    ensures forall n: nat | n <= left && EndsAfter(l, root, cluster, n) ::
      Walk(l, root, cluster, lca, left) == (if n == 0 then lca else Nth(l, root, cluster, n - 1), left - n)
    ensures (forall n: nat | n <= left :: !EndsAfter(l, root, cluster, n)) ==>
      Walk(l, root, cluster, lca, left) == (if left == 0 then lca else Nth(l, root, cluster, left - 1), 0)
    decreases left
  {
    if cluster == END || cluster == BAD {
      assert EndsAfter(l, root, cluster, 0);
    } else if left > 0 {
      var next := Status(l, root, cluster);
      WalkIs(l, root, next, cluster, left - 1);
      forall n: nat ensures Nth(l, root, cluster, n + 1) == Nth(l, root, next, n) {
        NthStep(l, root, cluster, n);
      }
      forall n: nat ensures EndsAfter(l, root, cluster, n + 1) <==> EndsAfter(l, root, next, n) {
        EndsAfterStep(l, root, cluster, n);
      }
      forall n: nat | n <= left && EndsAfter(l, root, cluster, n)
        ensures Walk(l, root, cluster, lca, left) == (if n == 0 then lca else Nth(l, root, cluster, n - 1), left - n)
      {
        assert n > 0 && EndsAfter(l, root, next, n - 1);
        assert n > 1 ==> Nth(l, root, cluster, (n - 2) + 1) == Nth(l, root, next, n - 2);
      }
    }
  }

  lemma {:induction false} EndsAfterStep(l: seq<nat>, root: nat, cluster: nat, n: nat)
    requires cluster != END && cluster != BAD
    ensures EndsAfter(l, root, cluster, n + 1) <==> EndsAfter(l, root, Status(l, root, cluster), n)
  {
    var next := Status(l, root, cluster);
    forall i: nat ensures Nth(l, root, cluster, i + 1) == Nth(l, root, next, i) {
      NthStep(l, root, cluster, i);
    }
    if EndsAfter(l, root, cluster, n + 1) {
      forall i: nat | i < n ensures Nth(l, root, next, i) != END && Nth(l, root, next, i) != BAD {
        assert Nth(l, root, cluster, i + 1) == Nth(l, root, next, i);
      }
    }
    if EndsAfter(l, root, next, n) {
      forall i: nat | i < n + 1 ensures Nth(l, root, cluster, i) != END && Nth(l, root, cluster, i) != BAD {
        assert i > 0 ==> Nth(l, root, cluster, (i - 1) + 1) == Nth(l, root, next, i - 1);
      }
    }
  }

  /** On a chain it ends at the last cluster. */
  lemma {:induction false} WalkFindsTail(l: seq<nat>, root: nat, c: seq<nat>, i: nat, lca: nat, left: nat)
    requires IsChain(l, root, c) && i < |c| && left >= |c| - i
    ensures Walk(l, root, c[i], lca, left) == (c[|c| - 1], left - (|c| - i))
    decreases |c| - i
  {
    if i < |c| - 1 {
      WalkFindsTail(l, root, c, i + 1, c[i], left - 1);
    } else {
      assert Status(l, root, c[i]) == END;
    }
  }

  /** On clusters that lead round and round it uses up its rounds. */
  lemma {:induction false} WalkOnCycle(l: seq<nat>, root: nat, ring: set<nat>, cluster: nat, lca: nat, left: nat)
    requires |l| <= BAD && cluster in ring && forall k | k in ring :: root <= k < |l| && l[k] in ring
    ensures Walk(l, root, cluster, lca, left).1 == 0
    decreases left
  {
    if left > 0 {
      WalkOnCycle(l, root, ring, l[cluster], cluster, left - 1);
    }
  }

  // ----- conservation

  ghost function TotalLength(chains: seq<seq<nat>>): nat {
    if chains == [] then 0 else |chains[0]| + TotalLength(chains[1..])
  }

  lemma {:induction false} TotalParts(a: seq<seq<nat>>, b: seq<seq<nat>>)
    ensures TotalLength(a + b) == TotalLength(a) + TotalLength(b)
  {
    if a == [] {
      assert a + b == b;
    } else {
      TotalParts(a[1..], b);
      assert (a + b)[1..] == a[1..] + b;
    }
  }

  lemma {:induction false} TotalAround(chains: seq<seq<nat>>, i: nat, mid: seq<seq<nat>>)
    requires i < |chains|
    ensures TotalLength(chains) == TotalLength(chains[..i] + chains[i + 1..]) + |chains[i]|
    ensures TotalLength(chains[..i] + mid + chains[i + 1..]) ==
      TotalLength(chains[..i] + chains[i + 1..]) + TotalLength(mid)
  {
    var a, b := chains[..i], chains[i + 1..];
    assert chains == a + [chains[i]] + b;
    assert TotalLength([chains[i]]) == |chains[i]|;
    TotalParts(a, b);
    TotalParts(a + [chains[i]], b);
    TotalParts(a, [chains[i]]);
    TotalParts(a + mid, b);
    TotalParts(a, mid);
  }

  /** Each event changes the clusters in use by as much as the total length of the chains. */
  lemma {:induction false} EventConserves(l: seq<nat>, root: nat, chains: seq<seq<nat>>, e: Event)
    requires Family(l, root, chains) && Enabled(l, root, chains, e)
    ensures var (l', chains') := Happen(l, root, chains, e);
      InUse(l') - TotalLength(chains') == InUse(l) - TotalLength(chains)
  {
    match e
    case Create(n) =>
      InUseUpdate(l, n, END);
      TotalParts(chains, [[n]]);
      assert TotalLength([[n]]) == 1;
    case Extend(i, n) =>
      var c := chains[i];
      var tail := c[|c| - 1];
      FreeIsOutside(l, root, c, n);
      InUseUpdate(l, n, END);
      InUseUpdate(l[n := END], tail, n);
      TotalAround(chains, i, [c + [n]]);
      assert TotalLength([c + [n]]) == |c| + 1;
      assert chains[i := c + [n]] == chains[..i] + [c + [n]] + chains[i + 1..];
    case Release(i) =>
      ClearCounts(l, root, chains[i]);
      TotalAround(chains, i, []);
  }

  /** No run of events loses a cluster: those in use beside the chains stay the same in number. */
  lemma {:induction false} RunConserves(l: seq<nat>, root: nat, chains: seq<seq<nat>>, es: seq<Event>)
    requires Family(l, root, chains) && RunEnabled(l, root, chains, es)
    ensures var r := RunEvents(l, root, chains, es);
      InUse(r.0) - TotalLength(r.1) == InUse(l) - TotalLength(chains)
    decreases |es|
  {
    hide Family, Enabled, Happen, InUse, TotalLength;
    if es != [] {
      EventKeepsFamily(l, root, chains, es[0]);
      EventConserves(l, root, chains, es[0]);
      var (l', chains') := Happen(l, root, chains, es[0]);
      RunConserves(l', root, chains', es[1..]);
    }
  }
}
