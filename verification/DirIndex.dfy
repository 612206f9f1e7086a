/** Directory lookup with and without the index (`src/entry.c`): after `entry_index`, and until the
    directory changes, the search through the index agrees with the scan of the directory. */
module DirIndex {
  import opened Ecache
  import EcacheInsert

  const NAME_LENGTH := 11
  const ENTRY_FREE := 0xE5
  const ENTRY_END := 0x00

  type Name = n: seq<nat> | |n| == NAME_LENGTH witness seq(NAME_LENGTH, _ => 0)

  /** `valid` tells whether the checksum of the entry is right. */
  datatype Entry = Entry(name: Name, nameHash: Hash, dca: nat, valid: bool)

  // ----- what a walk over a directory sees

  /** The entries of a cluster before the end mark. */
  function Visible(cluster: seq<Entry>): seq<Entry> {
    if cluster == [] || cluster[0].name[0] == ENTRY_END then [] else [cluster[0]] + Visible(cluster[1..])
  }

  lemma {:induction false} VisiblePrefix(cluster: seq<Entry>, i: nat)
    requires i <= |cluster| && forall k | 0 <= k < i :: cluster[k].name[0] != ENTRY_END
    ensures i == |cluster| || cluster[i].name[0] == ENTRY_END ==> Visible(cluster) == cluster[..i]
    ensures i <= |Visible(cluster)| && Visible(cluster)[..i] == cluster[..i]
    ensures i < |cluster| && cluster[i].name[0] != ENTRY_END ==>
      i < |Visible(cluster)| && Visible(cluster)[i] == cluster[i]
  {
    if i > 0 {
      VisiblePrefix(cluster[1..], i - 1);
      assert cluster[..i] == [cluster[0]] + cluster[1..][..i - 1];
    }
  }

  /** All entries that a walk sees, cluster by cluster. */
  function Seen(dir: seq<seq<Entry>>): seq<Entry> {
    if dir == [] then [] else Seen(dir[..|dir| - 1]) + Visible(dir[|dir| - 1])
  }

  lemma {:induction false} SeenPrefix(dir: seq<seq<Entry>>, c: nat)
    requires c < |dir|
    ensures Seen(dir[..c + 1]) == Seen(dir[..c]) + Visible(dir[c])
    ensures Seen(dir[..c]) + Visible(dir[c]) <= Seen(dir)
    decreases |dir|
  {
    assert dir[..c + 1][..c] == dir[..c];
    if c + 1 == |dir| {
      assert dir[..c + 1] == dir;
    } else {
      var d := dir[..|dir| - 1];
      SeenPrefix(d, c);
      assert d[..c] == dir[..c] && d[..c + 1] == dir[..c + 1];
    }
  }

  predicate Usable(e: Entry) {
    e.valid && e.name[0] != ENTRY_FREE
  }

  /** `nft32_str_strncmp` yields zero: equal up to a NUL or to the end. */
  predicate SameName(a: Name, b: Name, i: nat := 0)
    decreases NAME_LENGTH - i
  {
    i >= NAME_LENGTH || (a[i] == b[i] && (a[i] == 0 || SameName(a, b, i + 1)))
  }

  lemma {:induction false} EqualIsSame(a: Name, i: nat)
    ensures SameName(a, a, i)
    decreases NAME_LENGTH - i
  {
    if i < NAME_LENGTH {
      EqualIsSame(a, i + 1);
    }
  }

  /** `_search_handler` accepts the entry. */
  predicate Hit(e: Entry, name: Name, hash: Name -> Hash) {
    Usable(e) && hash(name) == e.nameHash && SameName(name, e.name)
  }

  function FirstHit(es: seq<Entry>, name: Name, hash: Name -> Hash): (i: nat)
    ensures i <= |es| && (i < |es| ==> Hit(es[i], name, hash))
    ensures forall k | 0 <= k < i :: !Hit(es[k], name, hash)
  {
    if es == [] || Hit(es[0], name, hash) then 0 else 1 + FirstHit(es[1..], name, hash)
  }

  // ----- in terms of the directory

  /** The walk gets to slot `i` of cluster `c`: there is no end mark in front of it or in it. */
  ghost predicate Reached(dir: seq<seq<Entry>>, c: nat, i: nat) {
    c < |dir| && i < |dir[c]| && forall k | 0 <= k <= i :: dir[c][k].name[0] != 0x00
  }

  /** The entry there is sound and not deleted, and has the name, up to a NUL, and its hash. */
  ghost predicate Accepted(dir: seq<seq<Entry>>, c: nat, i: nat, name: Name, hash: Name -> Hash) {
    && Reached(dir, c, i)
    && var e := dir[c][i];
      && e.valid && e.name[0] != 0xE5 && e.nameHash == hash(name)
      && forall j | 0 <= j < 11 && NoNul(name, j) :: e.name[j] == name[j]
  }

  /** The name has no NUL before place `j`. */
  ghost predicate NoNul(name: Name, j: nat)
    requires j <= NAME_LENGTH
  {
    forall k | 0 <= k < j :: name[k] != 0
  }

  ghost predicate FirstAccepted(dir: seq<seq<Entry>>, c: nat, i: nat, name: Name, hash: Name -> Hash) {
    && Accepted(dir, c, i, name, hash)
    && forall c': nat, i': nat | Accepted(dir, c', i', name, hash) :: c < c' || (c == c' && i <= i')
  }

  lemma {:induction false} SameNameIff(a: Name, b: Name, i: nat)
    requires i <= NAME_LENGTH && NoNul(a, i)
    ensures SameName(a, b, i) <==> forall j | i <= j < NAME_LENGTH && NoNul(a, j) :: b[j] == a[j]
    decreases NAME_LENGTH - i
  {
    if i < NAME_LENGTH {
      if a[i] != b[i] {
        assert !SameName(a, b, i);
      } else if a[i] == 0 {
        assert SameName(a, b, i) && forall j | i < j < NAME_LENGTH :: !NoNul(a, j);
      } else {
        SameNameIff(a, b, i + 1);
        assert SameName(a, b, i) <==> SameName(a, b, i + 1);
      }
    }
  }

  lemma {:induction false} VisibleIs(cluster: seq<Entry>, i: nat)
    ensures i < |Visible(cluster)| <==> i < |cluster| && forall k | 0 <= k <= i :: cluster[k].name[0] != ENTRY_END
    ensures i < |Visible(cluster)| ==> Visible(cluster)[i] == cluster[i]
  {
    if cluster != [] && i > 0 {
      VisibleIs(cluster[1..], i - 1);
      assert forall k | 0 < k < |cluster| :: cluster[k] == cluster[1..][k - 1];
      assert forall k | 0 <= k < |cluster| - 1 :: cluster[1..][k] == cluster[k + 1];
    }
  }

  /** Where entry `n` of the walk is in the directory. */
  lemma {:induction false} SeenFrom(dir: seq<seq<Entry>>, n: nat) returns (c: nat, i: nat)
    requires n < |Seen(dir)|
    ensures Reached(dir, c, i) && n == |Seen(dir[..c])| + i && Seen(dir)[n] == dir[c][i]
  {
    var d := dir[..|dir| - 1];
    if n < |Seen(d)| {
      c, i := SeenFrom(d, n);
      assert d[..c] == dir[..c];
    } else {
      c, i := |dir| - 1, n - |Seen(d)|;
      VisibleIs(dir[c], i);
    }
  }

  lemma {:induction false} ReachedSeen(dir: seq<seq<Entry>>, c: nat, i: nat)
    requires Reached(dir, c, i)
    ensures var n := |Seen(dir[..c])| + i; n < |Seen(dir)| && Seen(dir)[n] == dir[c][i]
  {
    VisibleIs(dir[c], i);
    SeenAt(dir, c, i);
  }

  lemma {:induction false} SeenBefore(dir: seq<seq<Entry>>, c: nat, i: nat, c': nat)
    requires Reached(dir, c, i) && c < c' <= |dir|
    ensures |Seen(dir[..c])| + i < |Seen(dir[..c'])|
  {
    assert dir[..c'][..c] == dir[..c];
    ReachedSeen(dir[..c'], c, i);
  }

  lemma {:induction false} AcceptedIsHit(dir: seq<seq<Entry>>, c: nat, i: nat, name: Name, hash: Name -> Hash)
    requires Reached(dir, c, i)
    ensures Accepted(dir, c, i, name, hash) <==> Hit(dir[c][i], name, hash)
  {
    SameNameIff(name, dir[c][i].name, 0);
  }

  /** The scan answers with the first entry of the directory that is sound, not deleted, in front of
      the end mark of its cluster, and has the name and its hash. */
  lemma {:induction false} FirstHitIs(dir: seq<seq<Entry>>, name: Name, hash: Name -> Hash)
    ensures var es, f := Seen(dir), FirstHit(Seen(dir), name, hash);
      && (f < |es| <==> exists c: nat, i: nat :: Accepted(dir, c, i, name, hash))
      && (f < |es| ==> exists c: nat, i: nat :: FirstAccepted(dir, c, i, name, hash) && es[f] == dir[c][i])
  {
    hide Hit, Accepted, FirstHit, Seen;
    var es, f := Seen(dir), FirstHit(Seen(dir), name, hash);
    forall c: nat, i: nat | Accepted(dir, c, i, name, hash) ensures c < |dir| && f <= |Seen(dir[..c])| + i < |es| {
      HitAt(dir, c, i, name, hash);
    }
    if f < |es| {
      var c, i := SeenFrom(dir, f);
      AcceptedIsHit(dir, c, i, name, hash);
      forall c': nat, i': nat | Accepted(dir, c', i', name, hash) ensures c < c' || (c == c' && i <= i') {
        HitAt(dir, c', i', name, hash);
        if c' < c {
          SeenBefore(dir, c', i', c);
        }
      }
      assert FirstAccepted(dir, c, i, name, hash);
    }
  }

  lemma {:induction false} HitAt(dir: seq<seq<Entry>>, c: nat, i: nat, name: Name, hash: Name -> Hash)
    requires Accepted(dir, c, i, name, hash)
    ensures Reached(dir, c, i) && FirstHit(Seen(dir), name, hash) <= |Seen(dir[..c])| + i < |Seen(dir)|
  {
    hide Hit;
    ReachedSeen(dir, c, i);
    AcceptedIsHit(dir, c, i, name, hash);
  }

  // ----- the index as a set

  ghost predicate KeyIn(s: set<(Hash, nat)>, h: Hash) {
    exists p | p in s :: p.0 == h
  }

  /** What `entry_index` puts into the index for the first `n` entries; `granted(i)` tells whether
      the memory for entry `i` could be had. */
  ghost function Indexed(es: seq<Entry>, granted: nat -> bool, hash: Name -> Hash, n: nat): set<(Hash, nat)>
    requires n <= |es|
  {
    if n == 0 then {}
    else
      var s, e := Indexed(es, granted, hash, n - 1), es[n - 1];
      if Usable(e) && granted(n - 1) && !KeyIn(s, hash(e.name)) then s + {(hash(e.name), e.dca)} else s
  }

  /** The first entry with that hash for which memory was granted. */
  ghost predicate First(es: seq<Entry>, granted: nat -> bool, hash: Name -> Hash, n: nat, h: Hash, i: nat) {
    && i < n <= |es| && Usable(es[i]) && granted(i) && hash(es[i].name) == h
    && forall j | 0 <= j < i :: !(Usable(es[j]) && granted(j) && hash(es[j].name) == h)
  }

  lemma {:induction false} IndexedIsFirst(es: seq<Entry>, granted: nat -> bool, hash: Name -> Hash, n: nat,
    p: (Hash, nat))
    returns (i: nat)
    requires n <= |es| && p in Indexed(es, granted, hash, n)
    ensures First(es, granted, hash, n, p.0, i) && es[i].dca == p.1
  {
    var s, e := Indexed(es, granted, hash, n - 1), es[n - 1];
    if p in s {
      i := IndexedIsFirst(es, granted, hash, n - 1, p);
    } else {
      i := n - 1;
      forall j | 0 <= j < i ensures !(Usable(es[j]) && granted(j) && hash(es[j].name) == p.0) {
        if Usable(es[j]) && granted(j) && hash(es[j].name) == p.0 {
          GrantedIsIndexed(es, granted, hash, n - 1, j);
        }
      }
    }
  }

  lemma {:induction false} GrantedIsIndexed(es: seq<Entry>, granted: nat -> bool, hash: Name -> Hash, n: nat, j: nat)
    requires j < n <= |es| && Usable(es[j]) && granted(j)
    ensures KeyIn(Indexed(es, granted, hash, n), hash(es[j].name))
  {
    var s, e := Indexed(es, granted, hash, n - 1), es[n - 1];
    if j < n - 1 {
      GrantedIsIndexed(es, granted, hash, n - 1, j);
      var p :| p in s && p.0 == hash(es[j].name);
      assert p in Indexed(es, granted, hash, n);
    } else if !KeyIn(s, hash(e.name)) {
      assert (hash(e.name), e.dca) in Indexed(es, granted, hash, n);
    } else {
      assert Indexed(es, granted, hash, n) == s;
    }
  }

  // ----- agreement

  /** Every usable entry carries the hash of its own name, and no other name has the hash of the
      name that is looked up. */
  ghost predicate Honest(es: seq<Entry>, name: Name, hash: Name -> Hash) {
    && (forall i | 0 <= i < |es| && Usable(es[i]) :: es[i].nameHash == hash(es[i].name))
    && (forall i | 0 <= i < |es| && Usable(es[i]) && hash(es[i].name) == hash(name) :: SameName(name, es[i].name))
  }

  /** All entries with that name lead to the same cluster. */
  ghost predicate OneTarget(es: seq<Entry>, name: Name, hash: Name -> Hash) {
    forall i, j | 0 <= i < j < |es| && Hit(es[i], name, hash) && Hit(es[j], name, hash) :: es[i].dca == es[j].dca
  }

  /** The first entry from `n` on that the search accepts and for which memory was granted. */
  ghost function GrantedHit(es: seq<Entry>, granted: nat -> bool, name: Name, hash: Name -> Hash, n: nat): (i: nat)
    requires n <= |es|
    ensures n <= i <= |es| && (i < |es| ==> Hit(es[i], name, hash) && granted(i))
    ensures forall k | n <= k < i :: !(Hit(es[k], name, hash) && granted(k))
    decreases |es| - n
  {
    if n == |es| || (Hit(es[n], name, hash) && granted(n)) then n else GrantedHit(es, granted, name, hash, n + 1)
  }

  /** The entry that a search through the index answers with: the first accepted one that is in the
      index, else the first accepted one. */
  ghost function Answer(es: seq<Entry>, granted: nat -> bool, name: Name, hash: Name -> Hash): (i: nat)
    ensures i <= |es| && (i == |es| <==> FirstHit(es, name, hash) == |es|)
    ensures i < |es| ==> Hit(es[i], name, hash)
  {
    var g := GrantedHit(es, granted, name, hash, 0);
    if g < |es| then g else FirstHit(es, name, hash)
  }

  lemma {:induction false} AnswerIs(dir: seq<seq<Entry>>, granted: nat -> bool, name: Name, hash: Name -> Hash)
    ensures var es, a := Seen(dir), Answer(Seen(dir), granted, name, hash);
      a < |es| ==> exists c: nat, i: nat :: Accepted(dir, c, i, name, hash) && es[a] == dir[c][i]
  {
    hide Hit, Accepted, Seen;
    var a := Answer(Seen(dir), granted, name, hash);
    if a < |Seen(dir)| {
      var c, i := SeenFrom(dir, a);
      AcceptedIsHit(dir, c, i, name, hash);
    }
  }

  /** What the index says about a name, exactly. */
  lemma {:induction false} IndexIs(es: seq<Entry>, granted: nat -> bool, hash: Name -> Hash, name: Name)
    requires Honest(es, name, hash)
    ensures var s, g := Indexed(es, granted, hash, |es|), GrantedHit(es, granted, name, hash, 0);
      && (KeyIn(s, hash(name)) <==> g < |es|)
      && forall p | p in s && p.0 == hash(name) :: g < |es| && p.1 == es[g].dca
  {
    var s, g := Indexed(es, granted, hash, |es|), GrantedHit(es, granted, name, hash, 0);
    forall p | p in s && p.0 == hash(name) ensures g < |es| && p.1 == es[g].dca {
      var i := IndexedIsFirst(es, granted, hash, |es|, p);
      assert Hit(es[i], name, hash) && g <= i;
      assert Usable(es[g]) && hash(es[g].name) == p.0;
    }
    if g < |es| {
      GrantedIsIndexed(es, granted, hash, |es|, g);
    }
  }

  /** Whatever memory was granted, the search through the index leads where the scan leads. */
  ghost predicate AlwaysAgrees(es: seq<Entry>, name: Name, hash: Name -> Hash) {
    forall granted: nat -> bool :: AgreesFor(es, granted, name, hash)
  }

  ghost predicate AgreesFor(es: seq<Entry>, granted: nat -> bool, name: Name, hash: Name -> Hash) {
    FirstHit(es, name, hash) < |es| ==> es[Answer(es, granted, name, hash)].dca == es[FirstHit(es, name, hash)].dca
  }

  /** With all requests met the search through the index leads where the scan leads; it does so
      whatever memory was granted exactly when the name has one target. */
  lemma {:induction false} IndexAgreesIff(es: seq<Entry>, name: Name, hash: Name -> Hash)
    ensures AlwaysAgrees(es, name, hash) <==> OneTarget(es, name, hash)
    ensures forall granted: nat -> bool | forall i: nat | i < |es| :: granted(i) :: AgreesFor(es, granted, name, hash)
  {
    hide Hit, FirstHit;
    var f := FirstHit(es, name, hash);
    forall granted: nat -> bool | (forall i: nat | i < |es| :: granted(i)) || OneTarget(es, name, hash)
      ensures AgreesFor(es, granted, name, hash)
    {
      var g := GrantedHit(es, granted, name, hash, 0);
      if g < |es| {
        assert f <= g;
        assert (forall i: nat | i < |es| :: granted(i)) ==> f == g;
      }
    }
    if !OneTarget(es, name, hash) {
      StrayTarget(es, name, hash);
    }
  }

  /** If the name has two targets, memory for a single entry makes the index lead elsewhere. */
  lemma {:induction false} StrayTarget(es: seq<Entry>, name: Name, hash: Name -> Hash)
    requires !OneTarget(es, name, hash)
    ensures exists granted: nat -> bool :: !AgreesFor(es, granted, name, hash)
  {
    hide Hit, FirstHit;
    var f := FirstHit(es, name, hash);
    var i, j :| 0 <= i < j < |es| && Hit(es[i], name, hash) && Hit(es[j], name, hash) && es[i].dca != es[j].dca;
    var k: nat := if es[i].dca != es[f].dca then i else j;
    var granted: nat -> bool := x => x == k;
    assert GrantedHit(es, granted, name, hash, 0) == k;
    assert !AgreesFor(es, granted, name, hash);
  }

  lemma KeyIsEntry(S: set<Node>, h: Hash)
    ensures HasKey(S, h) <==> KeyIn(Entries(S), h)
  {
    if n :| n in S && n.hash == h {
      assert (n.hash, n.ca) in Entries(S);
    }
  }

  /** Two entries of one name with different clusters: the index and the scan can disagree. */
  lemma {:induction false} TwinsDiffer(e: Entry, hash: Name -> Hash, dca: nat)
    requires Usable(e) && e.nameHash == hash(e.name) && dca != e.dca
    ensures Honest([e, e.(dca := dca)], e.name, hash) && !AlwaysAgrees([e, e.(dca := dca)], e.name, hash)
  {
    var es := [e, e.(dca := dca)];
    EqualIsSame(e.name, 0);
    assert Hit(es[0], e.name, hash) && Hit(es[1], e.name, hash);
    IndexAgreesIff(es, e.name, hash);
  }

  // ----- the methods

  /** `_index_handler` on entry `n`. */
  method IndexHandler(e: Entry, hash: Name -> Hash, granted: nat -> bool, n: nat, root: Node?, ghost es: seq<Entry>,
    ghost S: set<Node>)
    returns (newRoot: Node?, ghost S': set<Node>)
    requires RedBlack(root, S) && n < |es| && es[n] == e && Entries(S) == Indexed(es, granted, hash, n)
    modifies S
    ensures RedBlack(newRoot, S') && fresh(S' - S) && Entries(S') == Indexed(es, granted, hash, n + 1)
  {
    hide RedBlack, Entries, HasKey, KeyIn;
    newRoot, S' := root, S;
    if Usable(e) {
      KeyIsEntry(S, hash(e.name));
      newRoot, S' := EcacheInsert.Insert(root, hash(e.name), e.dca, granted(n), S);
    }
  }

  /** `entry_index` from an empty index. */
  method EntryIndex(dir: seq<seq<Entry>>, hash: Name -> Hash, granted: nat -> bool)
    returns (root: Node?, ghost S: set<Node>)
    ensures RedBlack(root, S) && fresh(S) && Entries(S) == Indexed(Seen(dir), granted, hash, |Seen(dir)|)
  {
    hide Entries, RedBlack, Indexed, Visible, Usable;
    root, S := null, {};
    ghost var es := Seen(dir);
    EmptyIndex(es, granted, hash);
    var n: nat := 0;
    for c := 0 to |dir|
      invariant n == |Seen(dir[..c])| <= |es|
      invariant RedBlack(root, S) && fresh(S) && Entries(S) == Indexed(es, granted, hash, n)
    {
      SeenPrefix(dir, c);
      ghost var base := n;
      var i: nat := 0;
      while i < |dir[c]| && dir[c][i].name[0] != ENTRY_END
        invariant i <= |dir[c]| && n == base + i && forall k | 0 <= k < i :: dir[c][k].name[0] != ENTRY_END
        invariant i <= |Visible(dir[c])|
        invariant RedBlack(root, S) && fresh(S) && Entries(S) == Indexed(es, granted, hash, n)
      {
        VisiblePrefix(dir[c], i);
        SeenAt(dir, c, i);
        root, S := IndexHandler(dir[c][i], hash, granted, n, root, es, S);
        n, i := n + 1, i + 1;
      }
      VisiblePrefix(dir[c], i);
    }
    assert dir[..|dir|] == dir;
  }

  lemma EmptyIndex(es: seq<Entry>, granted: nat -> bool, hash: Name -> Hash)
    ensures RedBlack(null, {}) && Indexed(es, granted, hash, 0) == Entries({})
  {
  }

  /** Entry `i` of cluster `c` in the walk. */
  lemma {:induction false} SeenAt(dir: seq<seq<Entry>>, c: nat, i: nat)
    requires c < |dir| && i < |Visible(dir[c])|
    ensures |Seen(dir[..c])| + i < |Seen(dir)| && Seen(dir)[|Seen(dir[..c])| + i] == Visible(dir[c])[i]
  {
    SeenPrefix(dir, c);
  }

  /** `entry_iterate` with `_search_handler`: the first hit. */
  method Scan(dir: seq<seq<Entry>>, name: Name, hash: Name -> Hash) returns (found: bool, dca: nat)
    ensures var es, f := Seen(dir), FirstHit(Seen(dir), name, hash);
      found == (f < |es|) && (found ==> dca == es[f].dca)
    ensures found <==> exists c: nat, i: nat :: Accepted(dir, c, i, name, hash)
    ensures found ==> exists c: nat, i: nat :: FirstAccepted(dir, c, i, name, hash) && dca == dir[c][i].dca
  {
    hide Hit, Visible, FirstHit, Accepted;
    FirstHitIs(dir, name, hash);
    var target := hash(name);
    found, dca := false, 0;
    ghost var es := Seen(dir);
    ghost var n: nat := 0;
    for c := 0 to |dir|
      invariant !found && n == |Seen(dir[..c])| <= |es| && n <= FirstHit(es, name, hash)
    {
      SeenPrefix(dir, c);
      ghost var base := n;
      var i: nat := 0;
      while i < |dir[c]| && dir[c][i].name[0] != ENTRY_END
        invariant i <= |dir[c]| && n == base + i && forall k | 0 <= k < i :: dir[c][k].name[0] != ENTRY_END
        invariant i <= |Visible(dir[c])| && n <= FirstHit(es, name, hash)
      {
        VisiblePrefix(dir[c], i);
        SeenAt(dir, c, i);
        var e := dir[c][i];
        if Hit(e, name, hash) {
          return true, e.dca;
        }
        n, i := n + 1, i + 1;
      }
      VisiblePrefix(dir[c], i);
    }
    assert dir[..|dir|] == dir;
  }

  /** `entry_search`: the index first, if there is one, then the scan. With the index that
      `entry_index` built, the search succeeds exactly when the scan does, even if memory ran out,
      and its answer is known exactly. */
  method EntrySearch(dir: seq<seq<Entry>>, name: Name, hash: Name -> Hash, root: Node?, ghost S: set<Node>,
    ghost granted: nat -> bool)
    returns (found: bool, dca: nat)
    requires RedBlack(root, S) && Entries(S) == Indexed(Seen(dir), granted, hash, |Seen(dir)|)
    ensures Honest(Seen(dir), name, hash) ==>
      && found == (FirstHit(Seen(dir), name, hash) < |Seen(dir)|)
      && (found ==> dca == Seen(dir)[Answer(Seen(dir), granted, name, hash)].dca)
      && (found <==> exists c: nat, i: nat :: Accepted(dir, c, i, name, hash))
      && (found ==> exists c: nat, i: nat :: Accepted(dir, c, i, name, hash) && dca == dir[c][i].dca)
    ensures found ==> exists c: nat, i: nat ::
      Reached(dir, c, i) && dir[c][i].valid && dir[c][i].name[0] != 0xE5 && dca == dir[c][i].dca
  {
    hide Hit, Indexed, Honest, FirstHit, KeyIn, Seen;
    ghost var es := Seen(dir);
    FirstHitIs(dir, name, hash);
    if Honest(es, name, hash) {
      IndexIs(es, granted, hash, name);
      AnswerIs(dir, granted, name, hash);
    }
    KeyIsEntry(S, hash(name));
    if root != null {
      var node, _ := Find(root, hash(name), S);
      if node != null {
        ghost var p := (node.hash, node.ca);
        assert p in Entries(S);
        ghost var i := IndexedIsFirst(es, granted, hash, |es|, p);
        ghost var c, k := SeenFrom(dir, i);
        return true, node.ca;
      }
    } else {
      assert S == {};
    }
    found, dca := Scan(dir, name, hash);
  }
}
