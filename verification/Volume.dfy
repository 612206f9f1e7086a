/** Contents as byte streams over cluster chains (`nifat32.c`): a read or write of a content is a
    slice or splice of the concatenation of its clusters. */
module Volume {
  import opened Arith
  import opened Hamming
  import opened Streams
  import opened Vote
  import opened Chains
  import opened AreaLocks
  import opened Cluster
  import FatRuns

  // ----- chains as contents

  /** The blocks of a chain, in order. */
  ghost function Pick<T>(m: seq<T>, c: seq<nat>): seq<T>
    requires forall i | 0 <= i < |c| :: c[i] < |m|
  {
    seq(|c|, i requires 0 <= i < |c| => m[c[i]])
  }

  /** The bytes of a content. */
  ghost function Content(m: seq<seq<Byte>>, c: seq<nat>): seq<Byte>
    requires forall i | 0 <= i < |c| :: c[i] < |m|
  {
    Flat(Pick(m, c))
  }

  lemma {:induction false} PickUpdate<T>(m: seq<T>, c: seq<nat>, i: nat, x: T)
    requires Distinct(c) && i < |c| && forall k | 0 <= k < |c| :: c[k] < |m|
    ensures Pick(m[c[i] := x], c) == Pick(m, c)[i := x]
  {
  }

  /** Distinct numbers in a range are no more than the range holds. */
  lemma {:induction false} Fits(c: seq<nat>, lo: nat, hi: nat)
    requires Distinct(c) && lo <= hi && forall i | 0 <= i < |c| :: lo <= c[i] < hi
    ensures |c| <= hi - lo
    decreases hi
  {
    if c != [] {
      assert lo <= c[0] < hi;
      if i :| 0 <= i < |c| && c[i] == hi - 1 {
        Fits(c[..i] + c[i + 1..], lo, hi - 1);
      } else {
        Fits(c, lo, hi - 1);
      }
    }
  }

  /** What extending a chain with a cluster that is not part of a write does to the content. */
  lemma {:induction false} ContentGrows(m: seq<seq<Byte>>, c: seq<nat>, n: nat)
    requires n < |m| && forall i | 0 <= i < |c| :: c[i] < |m|
    ensures Content(m, c + [n]) == Content(m, c) + m[n]
  {
    assert Pick(m, c + [n]) == Pick(m, c) + [m[n]];
    FlatAppend(Pick(m, c), [m[n]]);
    assert Flat([m[n]]) == m[n];
  }

  /** The sector behind the last cluster. */
  function DataEnd(fs: Clusters): int {
    fs.first + (fs.fat.total - fs.fat.root) * fs.spc
  }

  /** From `s0` on, only sectors of clusters changed. */
  ghost predicate Contained(fs: Clusters, s0: seq<seq<Byte>>)
    reads fs.disk
  {
    Confined(s0, fs.disk.sectors, fs.first, DataEnd(fs))
  }

  lemma {:induction false} ContainedAtFirst(fs: Clusters)
    requires fs.Valid()
    ensures Contained(fs, fs.disk.sectors)
  {
    hide FatRuns.Coherent, Active, Confined, Uniform;
    var clusters: nat := fs.fat.total - fs.fat.root;
    MulMonotone(fs.spc, 0, clusters);
    assert clusters * fs.spc == fs.spc * clusters >= 0;
    ConfinedSelf(fs.disk.sectors, fs.first, DataEnd(fs));
  }

  lemma {:induction false} ContainedStep(fs: Clusters, s0: seq<seq<Byte>>, s1: seq<seq<Byte>>, ca: nat)
    requires fs.fat.root <= ca < fs.fat.total && Confined(s0, s1, fs.first, DataEnd(fs))
    requires Confined(s1, fs.disk.sectors, fs.first + (ca - fs.fat.root) * fs.spc,
      fs.first + (ca - fs.fat.root) * fs.spc + fs.spc)
    ensures Contained(fs, s0)
  {
    StartsApart(fs.fat.root, fs.first, fs.spc, ca, fs.fat.total);
    var a := fs.first + (ca - fs.fat.root) * fs.spc;
    ConfinedWider(s1, fs.disk.sectors, a, a + fs.spc, fs.first, DataEnd(fs));
  }

  // ----- growing a chain

  /** `_add_cluster_to_chain`: a free cluster becomes the end of the chain, or nothing changes. */
  method AddClusterToChain(fs: Clusters, hca: nat) returns (ca: nat)
    requires fs.Valid()
    modifies fs`last, fs.fat`disk, fs.fat.cache, fs.fat.bitmap.words
    ensures fs.Valid() && (old(Mapped(fs.fat.Table())) ==> Mapped(fs.fat.Table()))
    ensures ca == if fs.fat.root <= hca < fs.fat.total then Chosen(old(fs.fat.Table()), old(fs.NextStart())) else BAD
    ensures ca != BAD ==> fs.fat.root <= ca < fs.fat.total && old(fs.Entries())[ca] == FREE
    ensures fs.Entries() == if ca == BAD then old(fs.Entries()) else old(fs.Entries())[ca := END][hca := ca]
    ensures ca == BAD && fs.fat.root <= hca < fs.fat.total ==>
      Exhausted(fs.Entries(), fs.fat.root, old(fs.NextStart()), old(Mapped(fs.fat.Table())))
    ensures fs.step == -1 && ca != BAD ==> fs.last == ca + 1
    ensures fs.step != -1 ==> fs.last == (old(fs.last) + fs.step) % U32
  {
    hide Mapped, FatRuns.Coherent, FatRuns.Logical, Chosen, Uniform, Active, Exhausted;
    ghost var l := fs.Entries();
    if Chosen(fs.fat.Table(), fs.NextStart()) == BAD {
      NoneIsExhausted(fs.fat.Table(), fs.NextStart());
    }
    var offt := fs.GetClusterOffset();
    var added := fs.AllocCluster(offt);
    if added == BAD {
      return BAD;
    }
    var _ := fs.Put(added, END);
    var linked := fs.Put(hca, added);
    if !linked {
      var _ := fs.DeallocCluster(added);
      assert l[added := FREE] == l;
      return BAD;
    }
    return added;
  }

  /** The cluster that a content is extended behind, and whether it was found: `lca`, or the end of
      the walk from `head` if `lca` is BAD. */
  function Behind(l: seq<nat>, root: nat, head: nat, lca: nat): (nat, bool) {
    if lca != BAD then (lca, true) else (Walk(l, root, head, BAD, |l|).0, Walk(l, root, head, BAD, |l|).1 > 0)
  }

  /** On a chain, that is its last cluster. */
  lemma {:induction false} BehindIsTail(l: seq<nat>, root: nat, c: seq<nat>, lca: nat)
    requires IsChain(l, root, c) && (lca == BAD || lca == c[|c| - 1])
    ensures Behind(l, root, c[0], lca) == (c[|c| - 1], true)
  {
    Fits(c, root, |l|);
    WalkFindsTail(l, root, c, 0, BAD, |l|);
  }

  /** Chain `i` starts at `head`, and `lca` is BAD or its last cluster. */
  ghost predicate Names(chains: seq<seq<nat>>, i: nat, head: nat, lca: nat) {
    i < |chains| && chains[i] != [] && chains[i][0] == head && (lca == BAD || lca == chains[i][|chains[i]| - 1])
  }

  lemma {:induction false} BehindFollows(l: seq<nat>, root: nat, head: nat, lca: nat, n: nat)
    requires root <= n < |l| && l[n] == FREE && root <= Behind(l, root, head, lca).0 < |l|
    ensures forall chains, i: nat | Family(l, root, chains) && Names(chains, i, head, lca) ::
      Follows(l, root, chains, Extend(i, n), l[n := END][Behind(l, root, head, lca).0 := n])
  {
    hide Walk;
    forall chains, i: nat | Family(l, root, chains) && Names(chains, i, head, lca)
      ensures Follows(l, root, chains, Extend(i, n), l[n := END][Behind(l, root, head, lca).0 := n])
    {
      BehindIsTail(l, root, chains[i], lca);
    }
  }

  /** `_add_cluster_to_content`: extend the content from `head` behind its last cluster, which is
      found by a walk if `lca` is BAD. A walk that does not end changes nothing. */
  method AddClusterToContent(fs: Clusters, head: nat, lca: nat) returns (ca: nat)
    requires fs.Valid()
    modifies fs`last, fs.fat`disk, fs.fat.cache, fs.fat.bitmap.words
    ensures fs.Valid() && (old(Mapped(fs.fat.Table())) ==> Mapped(fs.fat.Table()))
    ensures var (tail, found) := Behind(old(fs.Entries()), fs.fat.root, head, lca);
      && (ca != BAD ==> found && fs.fat.root <= tail < fs.fat.total)
      && (ca != BAD ==> fs.fat.root <= ca < fs.fat.total && old(fs.Entries())[ca] == FREE)
      && fs.Entries() == (if ca == BAD then old(fs.Entries()) else old(fs.Entries())[ca := END][tail := ca])
      && (ca == BAD && found && fs.fat.root <= tail < fs.fat.total ==>
            Exhausted(fs.Entries(), fs.fat.root, old(fs.NextStart()), old(Mapped(fs.fat.Table()))))
      && (found && fs.step != -1 ==> fs.last == (old(fs.last) + fs.step) % U32)
    ensures fs.step == -1 && ca != BAD ==> fs.last == ca + 1
    ensures ca != BAD ==> forall chains, i: nat |
      Family(old(fs.Entries()), fs.fat.root, chains) && Names(chains, i, head, lca) ::
      Follows(old(fs.Entries()), fs.fat.root, chains, Extend(i, ca), fs.Entries())
  {
    hide Mapped, FatRuns.Coherent, FatRuns.Logical, Chosen, Uniform, Active, Scan, FirstFree, Family, Follows, Names;
    ghost var l := fs.Entries();
    var tail, lost := lca, false;
    if lca == BAD {
      var left: nat, cluster := fs.fat.total, head;
      while cluster != END && cluster != BAD && left > 0
        invariant fs.Valid() && fs.Entries() == l && (old(Mapped(fs.fat.Table())) ==> Mapped(fs.fat.Table())) &&
          fs.last == old(fs.last)
        invariant Walk(l, fs.fat.root, cluster, tail, left) == Walk(l, fs.fat.root, head, BAD, |l|)
        decreases left
      {
        left := left - 1;
        tail := cluster;
        cluster := fs.Next(cluster);
      }
      lost := left <= 0;
    }
    ca := BAD;
    if !lost {
      ca := AddClusterToChain(fs, tail);
      if ca != BAD {
        BehindFollows(l, fs.fat.root, head, lca, ca);
      }
    }
  }

  // ----- reading

  /** The size of a cluster. */
  function Size(fs: Clusters): nat {
    fs.spc * fs.disk.sectorSize
  }

  lemma {:induction false} BlocksUniform(fs: Clusters, c: seq<nat>)
    requires fs.Valid() && forall i | 0 <= i < |c| :: fs.fat.root <= c[i] < fs.fat.total
    ensures Uniform(Pick(fs.Data(), c), Size(fs))
  {
    hide FatRuns.Coherent, Active;
    forall i | 0 <= i < |c| ensures |Pick(fs.Data(), c)[i]| == Size(fs) {
      StartsApart(fs.fat.root, fs.first, fs.spc, c[i], fs.fat.total);
      var start := StartOf(fs.fat.root, fs.first, fs.spc, c[i]);
      FlatLength(fs.disk.sectors[start..start + fs.spc], fs.disk.sectorSize);
    }
  }

  /** Where a loop over the clusters of a chain stands before cluster `i`: `total` bytes are done,
      `left` are not, and `skip` bytes remain to be passed over. */
  ghost predicate Stands(size: nat, i: nat, offset: nat, skip: nat, left: nat, total: nat) {
    && (left > 0 ==> i * size + skip == offset + total && (total > 0 ==> skip == 0))
    && (total > 0 ==> offset + total <= i * size)
  }

  lemma {:induction false} StandsLater(size: nat, i: nat, j: nat, offset: nat, skip: nat, left: nat, total: nat)
    requires Stands(size, i, offset, skip, left, total) && i <= j && (left > 0 ==> i == j)
    ensures Stands(size, j, offset, skip, left, total)
  {
    MulMonotone(size, i, j);
  }

  lemma StandsBehind(size: nat, i: nat, offset: nat, skip: nat, left: nat, total: nat)
    requires Stands(size, i, offset, skip, left, total)
    ensures left > 0 ==> i * size < offset + total + left
    ensures total > 0 ==> offset + total <= i * size
  {
  }

  /** One round of the read loop. */
  method ReadRound(fs: Clusters, ca: nat, buffer: array<Byte>, skip: nat, left: nat, total: nat,
                   ghost c: seq<nat>, ghost i: nat, ghost offset: nat, ghost b: seq<Byte>)
    returns (skip': nat, left': nat, total': nat)
    requires fs.Valid() && IsChain(fs.Entries(), fs.fat.root, c) && i < |c| && ca == c[i]
    requires total + left <= buffer.Length && Stands(Size(fs), i, offset, skip, left, total)
    requires |Content(fs.Data(), c)| == |c| * Size(fs) >= i * Size(fs)
    requires buffer[..] == Overlay(b, 0, Upto(Content(fs.Data(), c), offset, total))
    modifies fs.disk.areas.slots, buffer
    ensures fs.Valid() && total' + left' == total + left && Stands(Size(fs), i + 1, offset, skip', left', total')
    ensures total' > 0 ==> offset + total' <= |Content(fs.Data(), c)|
    ensures buffer[..] == Overlay(b, 0, Upto(Content(fs.Data(), c), offset, total'))
  {
    hide Mapped, FatRuns.Coherent, FatRuns.Logical, Active, Flat, Carved, Overlay;
    skip', left', total' := skip, left, total;
    var clusterSize := Size(fs);
    assert (i + 1) * clusterSize == i * clusterSize + clusterSize;
    if skip > clusterSize {
      skip' := skip - clusterSize;
    } else {
      var part := if left > clusterSize - skip then clusterSize - skip else left;
      ghost var blocks := Pick(fs.Data(), c);
      BlocksUniform(fs, c);
      assert |blocks[i]| == clusterSize && Piece(blocks[i], skip, part) == blocks[i][skip..skip + part];
      var _ := fs.ReadoffCluster(ca, skip, buffer, total, part);
      if part == 0 {
        OverlayNothing(old(buffer[..]));
        assert buffer[..] == old(buffer[..]);
      } else {
        ReadStep(blocks, clusterSize, i, skip, part, b, 0, offset, total);
      }
      skip', left', total' := 0, left - part, total + part;
    }
  }

  /** `NIFAT32_read_content2buffer`: the bytes of the content from `offset` on, at most `size`. */
  method ReadContent(fs: Clusters, head: nat, offset: nat, buffer: array<Byte>, size: nat, ghost c: seq<nat>)
    returns (total: nat)
    requires fs.Valid() && IsChain(fs.Entries(), fs.fat.root, c) && head == c[0] && size <= buffer.Length
    modifies fs.fat`disk, fs.fat.cache, fs.fat.bitmap.words, fs.disk.areas.slots, buffer
    ensures fs.Valid() && (old(Mapped(fs.fat.Table())) ==> Mapped(fs.fat.Table()))
    ensures fs.Entries() == old(fs.Entries())
    ensures var piece := Piece(Content(fs.Data(), c), offset, size);
      total == |piece| && buffer[..] == Overlay(old(buffer[..]), 0, piece)
  {
    hide Mapped, FatRuns.Coherent, FatRuns.Logical, Active, Flat, Carved, Overlay, Uniform;
    ghost var l, f := fs.Entries(), Content(fs.Data(), c);
    BlocksUniform(fs, c);
    FlatLength(Pick(fs.Data(), c), Size(fs));
    OverlayNothing(buffer[..]);
    var ca, skip: nat, left: nat := head, offset, size;
    total := 0;
    ghost var i: nat := 0;
    var more := true;
    while more
      invariant fs.Valid() && fs.Entries() == l && (old(Mapped(fs.fat.Table())) ==> Mapped(fs.fat.Table()))
      invariant i <= |c| && (more ==> i < |c| && ca == c[i]) && (!more ==> left == 0 || i == |c|)
      invariant total + left == size && Stands(Size(fs), i, offset, skip, left, total)
      invariant total > 0 ==> offset + total <= |f|
      invariant buffer[..] == Overlay(old(buffer[..]), 0, Upto(f, offset, total))
      decreases |c| - i, more
    {
      MulMonotone(Size(fs), i, |c|);
      skip, left, total := ReadRound(fs, ca, buffer, skip, left, total, c, i, offset, old(buffer[..]));
      assert i < |c| - 1 ==> l[c[i]] == c[i + 1];
      ca := fs.Next(ca);
      i := i + 1;
      more := ca != END && ca != BAD && left > 0;
    }
    assert Upto(f, offset, total) == Piece(f, offset, size);
  }

  // ----- writing

  /** From `m0` to `m`, the content of the chain took `d` at `offset`, and no cluster outside the
      chain changed. */
  ghost predicate Wrote(m0: seq<seq<Byte>>, m: seq<seq<Byte>>, c: seq<nat>, offset: nat, d: seq<Byte>)
    requires |m| == |m0| && forall i | 0 <= i < |c| :: c[i] < |m|
  {
    && Content(m, c) == Overlay(Content(m0, c), offset, d)
    && forall k | 0 <= k < |m| && k !in c :: m[k] == m0[k]
  }

  /** One round of the write loops. */
  method WriteRound(fs: Clusters, ca: nat, data: seq<Byte>, skip: nat, left: nat, total: nat,
                    ghost c: seq<nat>, ghost i: nat, ghost offset: nat, ghost m0: seq<seq<Byte>>,
                    ghost s0: seq<seq<Byte>>)
    returns (skip': nat, left': nat, total': nat)
    requires fs.Valid() && Contained(fs, s0) && IsChain(fs.Entries(), fs.fat.root, c) && i < |c| && ca == c[i]
    requires total + left == |data| && Stands(Size(fs), i, offset, skip, left, total)
    requires |m0| == fs.fat.total && Wrote(m0, fs.Data(), c, offset, data[..total])
    modifies fs.disk`sectors, fs.disk.areas.slots
    ensures fs.Valid() && total' + left' == |data| && Stands(Size(fs), i + 1, offset, skip', left', total')
    ensures Wrote(m0, fs.Data(), c, offset, data[..total'])
    ensures Contained(fs, s0)
  {
    hide Mapped, FatRuns.Coherent, FatRuns.Logical, Active, Flat, Carved, Overlay, Confined;
    skip', left', total' := skip, left, total;
    var clusterSize := Size(fs);
    assert (i + 1) * clusterSize == i * clusterSize + clusterSize;
    if skip > clusterSize {
      skip' := skip - clusterSize;
    } else {
      var part := if left > clusterSize - skip then clusterSize - skip else left;
      ghost var m, d := fs.Data(), data[total..total + part];
      BlocksUniform(fs, c);
      var _ := fs.WriteoffCluster(ca, skip, data[total..total + part]);
      ContainedStep(fs, s0, old(fs.disk.sectors), ca);
      PickUpdate(m, c, i, Overlay(m[ca], skip, d));
      assert ca in c;
      if part == 0 {
        OverlayNothing(m[ca]);
        assert d == [] && Pick(m, c)[i := m[ca]] == Pick(m, c);
      } else {
        WriteStep(Pick(m, c), clusterSize, i, skip, part, Content(m0, c), data, offset, total);
      }
      skip', left', total' := 0, left - part, total + part;
    }
  }

  /** The first loop of `NIFAT32_write_buffer2content`, over the clusters that the chain has. */
  method WriteAlong(fs: Clusters, head: nat, offset: nat, data: seq<Byte>, ghost c: seq<nat>,
                    ghost s0: seq<seq<Byte>>)
    returns (lca: nat, skip: nat, left: nat, total: nat)
    requires fs.Valid() && Contained(fs, s0) && IsChain(fs.Entries(), fs.fat.root, c) && head == c[0]
    modifies fs.fat`disk, fs.fat.cache, fs.fat.bitmap.words, fs.disk`sectors, fs.disk.areas.slots
    ensures fs.Valid() && (old(Mapped(fs.fat.Table())) ==> Mapped(fs.fat.Table()))
    ensures fs.Entries() == old(fs.Entries()) && total + left == |data|
    ensures Wrote(old(fs.Data()), fs.Data(), c, offset, data[..total])
    ensures Stands(Size(fs), |c|, offset, skip, left, total) && (left > 0 ==> lca == c[|c| - 1])
    ensures Contained(fs, s0)
  {
    hide Mapped, FatRuns.Coherent, FatRuns.Logical, Active, Flat, Carved, Overlay, Uniform, Contained;
    ghost var l := fs.Entries();
    OverlayNothing(Content(fs.Data(), c));
    skip, left, total := offset, |data|, 0;
    var ca := head;
    lca := head;
    ghost var i: nat := 0;
    var more := true;
    while more
      invariant fs.Valid() && fs.Entries() == l && (old(Mapped(fs.fat.Table())) ==> Mapped(fs.fat.Table()))
      invariant i <= |c| && (more ==> i < |c| && ca == c[i]) && (!more ==> left == 0 || (i == |c| && lca == c[|c| - 1]))
      invariant total + left == |data| && Stands(Size(fs), i, offset, skip, left, total)
      invariant Wrote(old(fs.Data()), fs.Data(), c, offset, data[..total])
      invariant Contained(fs, s0)
      decreases |c| - i, more
    {
      skip, left, total := WriteRound(fs, ca, data, skip, left, total, c, i, offset, old(fs.Data()), s0);
      assert i < |c| - 1 ==> l[c[i]] == c[i + 1];
      lca := ca;
      ca := fs.Next(ca);
      i := i + 1;
      more := ca != END && ca != BAD && left > 0;
    }
    StandsLater(Size(fs), i, |c|, offset, skip, left, total);
  }

  /** The number of clusters that `n` bytes from `offset` on reach to. */
  function Needed(offset: nat, n: nat, size: nat): nat {
    if size == 0 then 0 else (offset + n + size - 1) / size
  }

  lemma {:induction false} NeededIs(x: nat, size: nat, k: nat)
    requires size > 0
    ensures x <= k * size ==> Needed(0, x, size) <= k
    ensures 0 < k && (k - 1) * size < x ==> k <= Needed(0, x, size)
  {
    var q := Needed(0, x, size);
    assert q * size <= x + size - 1 < (q + 1) * size;
    if q > k {
      MulMonotone(size, k + 1, q);
      assert (k + 1) * size == k * size + size;
    }
    if 0 < k && q < k {
      MulMonotone(size, q, k - 1);
      assert (q + 1) * size == q * size + size;
    }
  }

  /** A cluster that joins the chain with its old bytes. */
  lemma {:induction false} WroteGrows(m0: seq<seq<Byte>>, m: seq<seq<Byte>>, c: seq<nat>, offset: nat, d: seq<Byte>,
    n: nat)
    requires |m| == |m0| && forall i | 0 <= i < |c| :: c[i] < |m|
    requires n < |m| && n !in c && Wrote(m0, m, c, offset, d) && (d != [] ==> offset + |d| <= |Content(m0, c)|)
    ensures Wrote(m0, m, c + [n], offset, d)
  {
    ContentGrows(m0, c, n);
    ContentGrows(m, c, n);
    assert Overlay(Content(m0, c) + m0[n], offset, d) == Overlay(Content(m0, c), offset, d) + m0[n];
  }

  /** From `l0` to `l`, only the clusters of the chain changed; `c'` adds free clusters to `c`. */
  ghost predicate Grew(l0: seq<nat>, l: seq<nat>, c: seq<nat>, c': seq<nat>) {
    && |l| == |l0| && c <= c'
    && (forall k | 0 <= k < |l| && k !in c' :: l[k] == l0[k])
    && (forall k | 0 <= k < |l| && k in c' && k !in c :: l0[k] == FREE)
  }

  lemma {:induction false} GrewStep(l0: seq<nat>, l: seq<nat>, root: nat, c: seq<nat>, c': seq<nat>, n: nat)
    requires IsChain(l, root, c') && Grew(l0, l, c, c') && n < |l| && l[n] == FREE && n !in c'
    ensures Grew(l0, l[n := END][c'[|c'| - 1] := n], c, c' + [n])
  {
    assert c'[|c'| - 1] in c';
  }

  /** All clusters have the same size. */
  ghost predicate Sized(m: seq<seq<Byte>>, root: nat, size: nat) {
    forall k | root <= k < |m| :: |m[k]| == size
  }

  lemma {:induction false} ContentLength(m: seq<seq<Byte>>, root: nat, size: nat, c: seq<nat>)
    requires Sized(m, root, size) && forall i | 0 <= i < |c| :: root <= c[i] < |m|
    ensures |Content(m, c)| == |c| * size
  {
    FlatLength(Pick(m, c), size);
  }

  /** Where the last search for a cluster started, when the chain had grown from `c` to `c'`. */
  ghost function LastStart(fs: Clusters, last: nat, c: seq<nat>, c': seq<nat>): nat
    requires c <= c' && fs.fat.root < fs.fat.total
    reads fs
  {
    if fs.step != -1 then Scattered(fs.last, fs.fat.total - fs.fat.root)
    else if |c'| > |c| then c'[|c'| - 1] + 1
    else last
  }

  /** The call that adds a cluster, in the second loop of a write: the cluster joins the content with
      its old bytes. */
  method GrowContent(fs: Clusters, head: nat, lca: nat, ghost c: seq<nat>, ghost c': seq<nat>, ghost l0: seq<nat>,
    ghost m0: seq<seq<Byte>>, ghost offset: nat, ghost d: seq<Byte>)
    returns (ca: nat)
    requires fs.Valid() && IsChain(fs.Entries(), fs.fat.root, c') && head == c'[0] && lca == c'[|c'| - 1]
    requires Grew(l0, fs.Entries(), c, c') && |m0| == fs.fat.total && Sized(m0, fs.fat.root, Size(fs))
    requires Wrote(m0, fs.Data(), c', offset, d) && (d != [] ==> offset + |d| <= |c'| * Size(fs))
    modifies fs`last, fs.fat`disk, fs.fat.cache, fs.fat.bitmap.words
    ensures fs.Valid() && (old(Mapped(fs.fat.Table())) ==> Mapped(fs.fat.Table()))
    ensures ca == BAD ==>
      && fs.Entries() == old(fs.Entries())
      && Exhausted(fs.Entries(), fs.fat.root, old(fs.NextStart()), old(Mapped(fs.fat.Table())))
    ensures ca != BAD ==>
      && IsChain(fs.Entries(), fs.fat.root, c' + [ca]) && Grew(l0, fs.Entries(), c, c' + [ca])
      && |c'| < fs.fat.total && Wrote(m0, fs.Data(), c' + [ca], offset, d)
    ensures fs.step == -1 && ca != BAD ==> fs.last == ca + 1
    ensures fs.step != -1 ==> fs.last == (old(fs.last) + fs.step) % U32
  {
    hide Mapped, FatRuns.Coherent, FatRuns.Logical, Active, Flat, Carved, Overlay, Uniform, Chosen, Wrote, Grew, Sized,
      Content, Scan, FirstFree, Walk, Exhausted;
    ghost var l := fs.Entries();
    BehindIsTail(l, fs.fat.root, c', lca);
    ca := AddClusterToContent(fs, head, lca);
    if ca != BAD {
      ChainExtended(l, fs.fat.root, c', ca);
      GrewStep(l0, l, fs.fat.root, c, c', ca);
      ContentLength(m0, fs.fat.root, Size(fs), c');
      WroteGrows(m0, fs.Data(), c', offset, d, ca);
      Fits(c' + [ca], fs.fat.root, fs.fat.total);
    }
  }

  /** The second loop: clusters are added to the chain while bytes are left. */
  method WriteBeyond(fs: Clusters, head: nat, lca: nat, offset: nat, data: seq<Byte>, skip0: nat, left0: nat,
    total0: nat, ghost c: seq<nat>, ghost m0: seq<seq<Byte>>, ghost s0: seq<seq<Byte>>)
    returns (total: nat, ghost c': seq<nat>, ghost skip: nat)
    requires fs.Valid() && Contained(fs, s0)
    requires IsChain(fs.Entries(), fs.fat.root, c) && head == c[0] && total0 + left0 == |data|
    requires |m0| == fs.fat.total && Sized(m0, fs.fat.root, Size(fs)) && forall i | 0 <= i < |c| :: c[i] < |m0|
    requires Wrote(m0, fs.Data(), c, offset, data[..total0])
    requires Stands(Size(fs), |c|, offset, skip0, left0, total0) && (left0 > 0 ==> lca == c[|c| - 1])
    modifies fs`last, fs.fat`disk, fs.fat.cache, fs.fat.bitmap.words, fs.disk`sectors, fs.disk.areas.slots
    ensures fs.Valid() && (old(Mapped(fs.fat.Table())) ==> Mapped(fs.fat.Table()))
    ensures IsChain(fs.Entries(), fs.fat.root, c') && Grew(old(fs.Entries()), fs.Entries(), c, c') && total <= |data|
    ensures Wrote(m0, fs.Data(), c', offset, data[..total])
    ensures Stands(Size(fs), |c'|, offset, skip, |data| - total, total)
    ensures |c'| > |c| ==> left0 > 0 && (|c'| - 1) * Size(fs) < offset + |data|
    ensures total < |data| ==>
      Exhausted(fs.Entries(), fs.fat.root, LastStart(fs, old(fs.last), c, c'), old(Mapped(fs.fat.Table())))
    ensures Contained(fs, s0)
  {
    hide Mapped, FatRuns.Coherent, FatRuns.Logical, Active, Flat, Carved, Overlay, Uniform, Chosen, Wrote, Grew, Sized,
      Content, Stands, Exhausted, Contained;
    var ca, rest: nat, left: nat, more := lca, skip0, left0, left0 > 0;
    total, c' := total0, c;
    ghost var l0 := fs.Entries();
    GrewNothing(l0, c);
    while more
      invariant fs.Valid() && (old(Mapped(fs.fat.Table())) ==> Mapped(fs.fat.Table()))
      invariant IsChain(fs.Entries(), fs.fat.root, c') && Grew(l0, fs.Entries(), c, c') && total + left == |data|
      invariant c'[0] == head && Wrote(m0, fs.Data(), c', offset, data[..total])
      invariant Contained(fs, s0)
      invariant Stands(Size(fs), |c'|, offset, rest, left, total) && (more ==> left > 0 && ca == c'[|c'| - 1])
      invariant |c'| > |c| ==> left0 > 0 && (|c'| - 1) * Size(fs) < offset + |data|
      invariant c <= c' && (fs.step == -1 && (more || left == 0) ==> fs.last == LastStart(fs, old(fs.last), c, c'))
      invariant !more && left > 0 ==>
        Exhausted(fs.Entries(), fs.fat.root, LastStart(fs, old(fs.last), c, c'), old(Mapped(fs.fat.Table())))
      decreases fs.fat.total - |c'|, more
    {
      ghost var l, exact, start := fs.Entries(), Mapped(fs.fat.Table()), fs.NextStart();
      StandsBehind(Size(fs), |c'|, offset, rest, left, total);
      ca := GrowContent(fs, head, ca, c, c', l0, m0, offset, data[..total]);
      if ca == BAD {
        ExhaustedAnyway(l, fs.fat.root, start, exact, old(Mapped(fs.fat.Table())));
        more := false;
      } else {
        c' := c' + [ca];
        rest, left, total := WriteRound(fs, ca, data, rest, left, total, c', |c'| - 1, offset, m0, s0);
        more := left > 0;
      }
    }
    skip := rest;
  }

  lemma {:induction false} GrewNothing(l: seq<nat>, c: seq<nat>)
    ensures Grew(l, l, c, c)
  {
  }

  lemma {:induction false} DataSized(fs: Clusters)
    requires fs.Valid()
    ensures Sized(fs.Data(), fs.fat.root, Size(fs))
  {
    hide FatRuns.Coherent, Active;
    forall k | fs.fat.root <= k < fs.fat.total ensures |fs.Data()[k]| == Size(fs) {
      BlocksUniform(fs, [k]);
      assert Pick(fs.Data(), [k])[0] == fs.Data()[k];
    }
  }

  /** The length of a chain that `n` bytes from `offset` on were written to. */
  lemma {:induction false} ReachedLength(size: nat, k: nat, k': nat, offset: nat, skip: nat, n: nat)
    requires size > 0 && n > 0 && 0 < k <= k' && Stands(size, k', offset, skip, 0, n)
    requires k' > k ==> (k' - 1) * size < offset + n
    ensures k' == if k >= Needed(offset, n, size) then k else Needed(offset, n, size)
  {
    NeededIs(offset + n, size, k');
  }

  /** `NIFAT32_write_buffer2content`: the chain takes the bytes at `offset`, and grows by free
      clusters as far as they reach. It falls short only at the end of the chain, when no cluster can be had. */
  method WriteContent(fs: Clusters, head: nat, offset: nat, data: seq<Byte>, ghost c: seq<nat>)
    returns (total: nat, ghost c': seq<nat>)
    requires fs.Valid() && IsChain(fs.Entries(), fs.fat.root, c) && head == c[0]
    modifies fs`last, fs.fat`disk, fs.fat.cache, fs.fat.bitmap.words, fs.disk`sectors, fs.disk.areas.slots
    ensures fs.Valid() && (old(Mapped(fs.fat.Table())) ==> Mapped(fs.fat.Table()))
    ensures IsChain(fs.Entries(), fs.fat.root, c') && Grew(old(fs.Entries()), fs.Entries(), c, c')
    ensures forall i | 0 <= i < |c'| :: c'[i] < fs.fat.total
    ensures total <= |data| && Wrote(old(fs.Data()), fs.Data(), c', offset, data[..total])
    ensures total == |data| > 0 ==>
      |c'| == if |c| >= Needed(offset, total, Size(fs)) then |c| else Needed(offset, total, Size(fs))
    ensures total < |data| ==>
      && offset + total >= |c'| * Size(fs) && (total > 0 ==> offset + total == |c'| * Size(fs))
      && Exhausted(fs.Entries(), fs.fat.root, LastStart(fs, old(fs.last), c, c'), old(Mapped(fs.fat.Table())))
    ensures data == [] ==> c' == c
    ensures Confined(old(fs.disk.sectors), fs.disk.sectors, fs.first, DataEnd(fs))
  {
    hide Mapped, FatRuns.Coherent, FatRuns.Logical, Active, Flat, Carved, Overlay, Uniform, Chosen, Wrote, Sized,
      Content, Exhausted, Confined;
    DataSized(fs);
    ghost var s0 := fs.disk.sectors;
    ContainedAtFirst(fs);
    ghost var m0 := fs.Data();
    var lca, skip, left, done := WriteAlong(fs, head, offset, data, c, s0);
    ghost var skip';
    ghost var exact := Mapped(fs.fat.Table());
    total, c', skip' := WriteBeyond(fs, head, lca, offset, data, skip, left, done, c, m0, s0);
    if total < |data| {
      ghost var start := LastStart(fs, old(fs.last), c, c');
      ExhaustedAnyway(fs.Entries(), fs.fat.root, start, exact, old(Mapped(fs.fat.Table())));
    }
    if total == |data| && |data| > 0 {
      ReachedLength(Size(fs), |c|, |c'|, offset, skip', total);
    }
  }

  /** The first cluster of a new content, from `NIFAT32_put_content`. */
  method CreateChain(fs: Clusters) returns (ca: nat, ok: bool)
    requires fs.Valid()
    modifies fs`last, fs.fat`disk, fs.fat.cache, fs.fat.bitmap.words
    ensures fs.Valid() && (old(Mapped(fs.fat.Table())) ==> Mapped(fs.fat.Table()))
    ensures ca == Chosen(old(fs.fat.Table()), old(fs.NextStart())) && ok == (ca != BAD)
    ensures ok ==> IsChain(fs.Entries(), fs.fat.root, [ca]) && old(fs.Entries())[ca] == FREE
    ensures fs.Entries() == if ok then old(fs.Entries())[ca := END] else old(fs.Entries())
    ensures ok ==> forall chains | Family(old(fs.Entries()), fs.fat.root, chains) ::
      Follows(old(fs.Entries()), fs.fat.root, chains, Create(ca), fs.Entries())
  {
    hide Mapped, FatRuns.Coherent, FatRuns.Logical, Chosen, Uniform, Active, Family, Follows;
    ghost var l := fs.Entries();
    var offt := fs.GetClusterOffset();
    ca := fs.AllocCluster(offt);
    ok := fs.Put(ca, END);
    if ok {
      CreateFollows(l, fs.fat.root, ca);
      assert fs.Entries() == l[ca := END];
    }
  }

  // ----- other contents

  /** A write to one content leaves every other one with its chain and its bytes. */
  lemma {:induction false} OthersKeep(l0: seq<nat>, l: seq<nat>, root: nat, c: seq<nat>, c': seq<nat>, other: seq<nat>,
                                      m0: seq<seq<Byte>>, m: seq<seq<Byte>>, offset: nat, d: seq<Byte>)
    requires IsChain(l0, root, c) && IsChain(l0, root, other) && (forall k | k in c :: k !in other)
    requires IsChain(l, root, c') && Grew(l0, l, c, c') && |m| == |m0| == |l| && Wrote(m0, m, c', offset, d)
    ensures IsChain(l, root, other) && Content(m, other) == Content(m0, other)
    ensures forall k | k in c' :: k !in other
  {
    forall k | k in c' ensures k !in other {
      if k !in c {
        FreeIsOutside(l0, root, other, k);
      }
    }
    ChainUntouched(l0, l, root, other);
    assert Pick(m, other) == Pick(m0, other);
  }

  /** A write to one content of a family of contents leaves a family, with the same bytes in all
      other contents. */
  lemma {:induction false} FamilyKeeps(l0: seq<nat>, l: seq<nat>, root: nat, chains: seq<seq<nat>>, i: nat,
    c': seq<nat>, m0: seq<seq<Byte>>, m: seq<seq<Byte>>, offset: nat, d: seq<Byte>)
    requires Family(l0, root, chains) && i < |chains| && IsChain(l, root, c') && Grew(l0, l, chains[i], c')
    requires |m| == |m0| == |l| && Wrote(m0, m, c', offset, d)
    ensures Family(l, root, chains[i := c'])
    ensures forall j | 0 <= j < |chains| && j != i ::
      IsChain(l0, root, chains[j]) && Content(m, chains[j]) == Content(m0, chains[j])
  {
    hide Wrote, Grew, Content;
    forall j | 0 <= j < |chains| && j != i
      ensures IsChain(l, root, chains[j]) && (forall k | k in c' :: k !in chains[j])
      ensures IsChain(l0, root, chains[j]) && Content(m, chains[j]) == Content(m0, chains[j])
    {
      assert forall k | k in chains[i] :: k !in chains[j];
      OthersKeep(l0, l, root, chains[i], c', chains[j], m0, m, offset, d);
    }
  }

  /** After a write, the bytes written read back, and every other byte of the old content reads as
      before. */
  lemma {:induction false} ReadsBack(m0: seq<seq<Byte>>, m: seq<seq<Byte>>, c: seq<nat>, c': seq<nat>, offset: nat,
    d: seq<Byte>, p: nat, n: nat)
    requires |m| == |m0| && c <= c' && (forall i | 0 <= i < |c'| :: c'[i] < |m|) && Wrote(m0, m, c', offset, d)
    ensures offset + |d| <= |Content(m, c')| ==> Piece(Content(m, c'), offset, |d|) == d
    ensures p + n <= |Content(m0, c)| && (p + n <= offset || offset + |d| <= p) ==>
      Piece(Content(m, c'), p, n) == Piece(Content(m0, c), p, n)
  {
    var rest := c'[|c|..];
    assert Pick(m0, c') == Pick(m0, c) + Pick(m0, rest);
    FlatAppend(Pick(m0, c), Pick(m0, rest));
    ReadAfterWrite(Content(m0, c'), offset, d, p, n);
    PieceOfPrefix(Content(m0, c), Content(m0, rest), p, n);
  }
}
