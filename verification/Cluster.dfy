/** Allocation, release, and the addresses of clusters (`src/cluster.c`), on a disk whose accesses
    succeed. */
module Cluster {
  import opened Hamming
  import opened Streams
  import opened Vote
  import opened Chains
  import opened AreaLocks
  import Fat
  import FatMap
  import FatRuns
  import FatTable
  import Disk

  const NO_CLUSTER_OFFSET := 0xDEADBEEF
  const CLUSTER_OFFSET := 128
  const CLUSTERS_MULTIPLIER := 3024953

  /** `GET_CLUSTER_OFF`, in 32-bit arithmetic. */
  function Scattered(n: int, tc: nat): nat
    requires tc > 0
  {
    (n + 11) * CLUSTERS_MULTIPLIER % U32 / 2 % tc
  }

  // ----- the choice of a cluster

  /** The bitmap's proposal if it is free, else what the scan finds; BAD for none. */
  ghost function Chosen(t: FatTable.Table, start: nat): nat
    requires t.Valid()
  {
    var l := FatRuns.Logical(t);
    var c := if t.mapped then FatMap.FirstRun(t.taken, start, 1) else 0;
    if c != 0 && Status(l, t.root, c) == FREE then c else Scan(l, t.root, start, 0)
  }

  lemma {:induction false} ChosenIsFree(t: FatTable.Table, start: nat)
    requires t.Valid() && t.total <= BAD
    ensures var r := Chosen(t, start);
      r != BAD ==> start <= r && t.InRange(r) && FatRuns.Logical(t)[r] == FREE
  {
    ScanIsSound(FatRuns.Logical(t), t.root, start, 0);
    FatMap.FirstRunIsLeast(t.taken, start, 1);
  }

  /** The least clear bit from `start` on. */
  ghost predicate LeastClear(taken: seq<bool>, start: nat, c: nat) {
    start <= c < |taken| && !taken[c] && forall k | start <= k < c :: taken[k]
  }

  /** What the bitmap proposes is chosen if it is free, except cluster 0; else the first free cluster
      that the scan looks at, or none if it leaves the table. */
  lemma {:induction false} ChosenIs(t: FatTable.Table, start: nat)
    requires t.Valid() && t.total <= BAD
    ensures var l := FatRuns.Logical(t);
      forall c: nat | t.mapped && 0 < c && LeastClear(t.taken, start, c) && Status(l, t.root, c) == FREE ::
        Chosen(t, start) == c
    ensures var l := FatRuns.Logical(t);
      (forall c: nat | t.mapped && 0 < c && LeastClear(t.taken, start, c) :: Status(l, t.root, c) != FREE) ==>
        exists n: nat :: LooksUntil(l, t.root, start, n) &&
          Chosen(t, start) == if Position(l, t.root, start, n) < |l| then Position(l, t.root, start, n) else BAD
  {
    hide FatRuns.Logical, Scan;
    ScanIs(FatRuns.Logical(t), t.root, start);
    FatMap.FirstRunIsLeast(t.taken, start, 1);
    forall c: nat ensures FatMap.FreeRun(t.taken, c, 1) <==> c < |t.taken| && !t.taken[c] {
    }
    var r := FatMap.FirstRun(t.taken, start, 1);
    if r != 0 {
      assert LeastClear(t.taken, start, r) by {
        forall k | start <= k < r ensures t.taken[k] {
          assert !FatMap.FreeRun(t.taken, k, 1);
        }
      }
    }
    forall c: nat | 0 < c && LeastClear(t.taken, start, c) ensures c == r {
      assert FatMap.FreeRun(t.taken, c, 1);
      assert forall k | start <= k < c :: !FatMap.FreeRun(t.taken, k, 1);
    }
  }

  /** The bitmap is exact, and the clusters before the root count as taken. */
  ghost predicate Mapped(t: FatTable.Table)
    requires t.Valid()
  {
    t.mapped && FatRuns.Exact(t) && forall c | 0 <= c < t.root && c < t.total :: t.taken[c]
  }

  /** On an exact bitmap, the search for one clear bit is the search for the first free cluster. */
  lemma {:induction false} RunIsFirstFree(taken: seq<bool>, l: seq<nat>, root: nat, start: nat)
    requires |taken| == |l| <= BAD && 0 < root
    requires forall c | 0 <= c < |l| :: taken[c] <==> Status(l, root, c) != FREE
    ensures FirstFree(l, root, start) ==
      if FatMap.FirstRun(taken, start, 1) != 0 then FatMap.FirstRun(taken, start, 1) else BAD
    decreases |l| - start
  {
    if start < |l| {
      assert FatMap.FreeRun(taken, start, 1) <==> !taken[start];
      if taken[start] {
        RunIsFirstFree(taken, l, root, start + 1);
      }
    }
  }

  /** With an exact bitmap, the choice is the least free cluster from the start on, and there is
      no choice exactly when no such cluster is free. */
  lemma {:induction false} ChosenIsFirst(t: FatTable.Table, start: nat)
    requires t.Valid() && Mapped(t) && 0 < t.root && t.total <= BAD
    ensures Chosen(t, start) == FirstFree(FatRuns.Logical(t), t.root, start)
  {
    hide FatTable.DecodeValue, Elect;
    var l := FatRuns.Logical(t);
    forall c | 0 <= c < t.total ensures t.taken[c] <==> Status(l, t.root, c) != FREE {
      if t.root <= c {
        assert FatRuns.ExactAt(t, c);
      }
    }
    RunIsFirstFree(t.taken, l, t.root, start);
    FirstFreeIsLeast(l, t.root, start);
    ScanIsSound(l, t.root, start, 0);
  }

  /** A coherent table, with or without a bitmap, and `b` blocked clusters before the first free one. */
  ghost predicate Facing(t: FatTable.Table, root: nat, start: nat, b: nat, mapped: bool) {
    && FatRuns.Coherent(t) && t.mapped == mapped && t.root == root && t.total <= BAD
    && var l := FatRuns.Logical(t);
      FirstFree(l, root, start) != BAD && Blocked(l, root, start, FirstFree(l, root, start)) == b
  }

  /** The proposal of a coherent bitmap is not behind the first free cluster, so either it is that
      cluster or the scan decides. */
  lemma {:induction false} ProposalOrScan(t: FatTable.Table, start: nat)
    requires FatRuns.Coherent(t) && 0 < t.root && t.total <= BAD
    requires FirstFree(FatRuns.Logical(t), t.root, start) != BAD
    ensures var l := FatRuns.Logical(t);
      Chosen(t, start) == FirstFree(l, t.root, start) || Chosen(t, start) == Scan(l, t.root, start, 0)
  {
    hide FatTable.DecodeValue, Elect, Scan, FatMap.FirstRun;
    var l := FatRuns.Logical(t);
    var f := FirstFree(l, t.root, start);
    FirstFreeIsLeast(l, t.root, start);
    if t.mapped {
      FatMap.FirstRunIsLeast(t.taken, start, 1);
      assert FatRuns.CoherentAt(t, f);
      assert FatMap.FreeRun(t.taken, f, 1);
    }
  }

  /** A bitmap that marks nothing proposes the start itself. */
  lemma {:induction false} ClearMapScans(t: FatTable.Table, start: nat)
    requires t.Valid() && 0 < start < t.total && (forall c | 0 <= c < t.total :: !t.taken[c])
    requires Status(FatRuns.Logical(t), t.root, start) != FREE
    ensures Chosen(t, start) == Scan(FatRuns.Logical(t), t.root, start, 0)
  {
    hide Scan, FatRuns.Logical;
    assert FatMap.FreeRun(t.taken, start, 1);
  }

  lemma {:induction false} FreshMisses(root: nat, b: nat, mapped: bool) returns (t: FatTable.Table)
    requires 0 < root && 2 <= b && root + |Sieve(b)| <= BAD
    ensures Facing(t, root, root, b, mapped) && Chosen(t, root) == BAD
  {
    hide Scan, FirstFree, Blocked, Chosen, Sieve, FatRuns.Coherent, FatRuns.Logical, FatTable.EncodeValue;
    var l := seq(root, _ => END) + Sieve(b);
    SieveHolds(b);
    FatRuns.PlainIs(l, root, mapped);
    ScanCanMiss(root, b);
    FirstFreeIsLeast(l, root, root);
    t := FatRuns.Plain(l, root, mapped);
    CoherentIsValid(t);
    ClearMapScans(t, root);
  }

  lemma SieveHolds(b: nat)
    requires 2 <= b
    ensures |Sieve(b)| >= 2 && forall k | 0 <= k < |Sieve(b)| :: Sieve(b)[k] < FatTable.VALUES
  {
    SieveValues(0, b);
  }

  lemma CoherentIsValid(t: FatTable.Table)
    requires FatRuns.Coherent(t)
    ensures t.Valid()
  {
  }

  /** On coherent tables, with or without a bitmap, the allocator is sure to choose the first free
      cluster if and only if at most one blocked cluster lies before it. */
  lemma {:induction false} ChosenIsFirstIff(root: nat, b: nat, mapped: bool)
    requires 0 < root && root + |Sieve(b)| <= BAD
    ensures (forall t: FatTable.Table, start: nat | Facing(t, root, start, b, mapped) ::
               Chosen(t, start) == FirstFree(FatRuns.Logical(t), root, start)) <==> b <= 1
  {
    hide Scan, FirstFree, Blocked, Chosen, FatRuns.Logical, Sieve;
    if b <= 1 {
      forall t: FatTable.Table, start: nat | Facing(t, root, start, b, mapped)
        ensures Chosen(t, start) == FirstFree(FatRuns.Logical(t), root, start)
      {
        ProposalOrScan(t, start);
        ScanFindsFirst(FatRuns.Logical(t), root, start, 0);
      }
    } else {
      var t := FreshMisses(root, b, mapped);
    }
  }

  lemma {:induction false} SieveValues(i: nat, b: nat)
    requires i < b
    ensures forall k | 0 <= k < |SieveFrom(i, b)| :: SieveFrom(i, b)[k] < FatTable.VALUES
    decreases b - i
  {
    if i < b - 1 {
      SieveValues(i + 1, b);
    }
  }

  // ----- the whole volume under damage

  /** `t2` is a fresh mount of what is left of `t`: for every cluster a strict majority of the copies
      is within one flipped bit in each word of the value that the users of `t` saw. */
  ghost predicate Remounted(t: FatTable.Table, t2: FatTable.Table) {
    && FatRuns.Coherent(t) && t2.Valid() && |t2.disk| == |t.disk| && t2.root == t.root && t2.total == t.total
    && AllAre(t2.cache, BAD) && (forall ca | 0 <= ca < t2.total :: !t2.taken[ca])
    && forall ca: nat | t.InRange(ca) :: 2 * |FatTable.Sound(t2, ca, t.Stored(ca), t2.AllOk())| > |t.disk|
  }

  /** Every value survives. */
  lemma {:induction false} ValuesSurvive(t: FatTable.Table, t2: FatTable.Table)
    requires Remounted(t, t2)
    ensures FatRuns.Coherent(t2)
    ensures forall ca: nat :: Status(FatRuns.Logical(t2), t.root, ca) == Status(FatRuns.Logical(t), t.root, ca)
  {
    hide FatTable.DecodeValue, FatTable.EncodeValue, Elect, FatTable.Sound;
    FatRuns.FreshIsCoherent(t2);
    forall ca: nat | t.InRange(ca) ensures t2.Stored(ca) == t.Stored(ca) {
      FatTable.ReadBound(t, ca, t.AllOk());
      FatTable.SurvivesFaults(t2, ca, t.Stored(ca), t2.AllOk());
    }
  }

  /** So do all chains, and all families of chains. */
  lemma {:induction false} FamiliesSurvive(t: FatTable.Table, t2: FatTable.Table, chains: seq<seq<nat>>)
    requires t.Valid() && t2.Valid() && Remounted(t, t2)
    ensures Family(FatRuns.Logical(t2), t.root, chains) <==> Family(FatRuns.Logical(t), t.root, chains)
  {
    hide FatRuns.Coherent, FatTable.Sound, FatTable.DecodeValue, FatTable.EncodeValue, Elect, IsChain;
    ValuesSurvive(t, t2);
    var l, l2 := FatRuns.Logical(t), FatRuns.Logical(t2);
    forall i | 0 <= i < |chains| ensures IsChain(l2, t.root, chains[i]) <==> IsChain(l, t.root, chains[i]) {
      ChainByStatus(l, l2, t.root, chains[i]);
      ChainByStatus(l2, l, t.root, chains[i]);
    }
  }

  lemma {:induction false} ChainByStatus(l: seq<nat>, l2: seq<nat>, root: nat, c: seq<nat>)
    requires |l2| == |l| && forall ca: nat :: Status(l2, root, ca) == Status(l, root, ca)
    ensures IsChain(l, root, c) ==> IsChain(l2, root, c)
  {
    if IsChain(l, root, c) {
      forall i | 0 <= i < |c| ensures l2[c[i]] == l[c[i]] {
        assert Status(l2, root, c[i]) == Status(l, root, c[i]);
      }
    }
  }

  // ----- the place of a cluster on the disk

  /** The first sector of a cluster. */
  function StartOf(root: nat, first: nat, spc: nat, ca: nat): nat
    requires root <= ca
  {
    (ca - root) * spc + first
  }

  lemma {:induction false} StartsApart(root: nat, first: nat, spc: nat, a: nat, b: nat)
    requires root <= a < b
    ensures StartOf(root, first, spc, a) + spc <= StartOf(root, first, spc, b)
    decreases b
  {
    assert (b - root) * spc == (b - 1 - root) * spc + spc;
    if a < b - 1 {
      StartsApart(root, first, spc, a, b - 1);
    }
  }

  /** The bytes of every cluster; there are none before the root. */
  ghost function Carved(sectors: seq<seq<Byte>>, root: nat, total: nat, first: nat, spc: nat): (m: seq<seq<Byte>>)
    requires root < total && first + (total - root) * spc <= |sectors|
    ensures |m| == total
  {
    seq(total, ca requires 0 <= ca < total => CarvedAt(sectors, root, total, first, spc, ca))
  }

  ghost function CarvedAt(sectors: seq<seq<Byte>>, root: nat, total: nat, first: nat, spc: nat, ca: nat): seq<Byte>
    requires root < total && first + (total - root) * spc <= |sectors| && ca < total
  {
    if ca < root then []
    else
      StartsApart(root, first, spc, ca, total);
      var start := StartOf(root, first, spc, ca);
      Flat(sectors[start..start + spc])
  }

  /** The bytes of a cluster are those of its sectors, counted from the first data sector on. */
  lemma {:induction false} CarvedIs(s: seq<seq<Byte>>, root: nat, total: nat, first: nat, spc: nat, ca: nat)
    requires root <= ca < total && first + (total - root) * spc <= |s|
    ensures var a := first + (ca - root) * spc;
      a + spc <= first + (total - root) * spc && Carved(s, root, total, first, spc)[ca] == Flat(s[a..a + spc])
  {
    StartsApart(root, first, spc, ca, total);
  }

  /** No sector changed before `lo` or from `hi` on. */
  ghost predicate Confined(s0: seq<seq<Byte>>, s: seq<seq<Byte>>, lo: nat, hi: int) {
    lo <= hi <= |s| == |s0| && s[..lo] == s0[..lo] && s[hi..] == s0[hi..]
  }

  lemma ConfinedSelf(s: seq<seq<Byte>>, lo: nat, hi: int)
    requires lo <= hi <= |s|
    ensures Confined(s, s, lo, hi)
  {
  }

  /** The data was written over the bytes of the `n` sectors from `a` on, and no other sector changed. */
  ghost predicate Patched(s0: seq<seq<Byte>>, s: seq<seq<Byte>>, a: nat, n: nat, offset: nat, d: seq<Byte>) {
    Confined(s0, s, a, a + n) && Flat(s[a..a + n]) == Overlay(Flat(s0[a..a + n]), offset, d)
  }

  lemma {:induction false} ConfinedWider(s0: seq<seq<Byte>>, s: seq<seq<Byte>>, a: nat, b: nat, lo: nat, hi: nat)
    requires Confined(s0, s, a, b) && lo <= a && b <= hi <= |s|
    ensures Confined(s0, s, lo, hi)
  {
    SameSlice(s0, s, 0, a, 0, lo);
    SameSlice(s0, s, b, |s|, hi, |s|);
  }

  lemma SameSlice<T>(s: seq<T>, s': seq<T>, a: nat, b: nat, lo: nat, hi: nat)
    requires a <= lo <= hi <= b <= |s| == |s'| && s[a..b] == s'[a..b]
    ensures s[lo..hi] == s'[lo..hi]
  {
    forall k | lo <= k < hi ensures s[k] == s'[k] {
      assert s[k] == s[a..b][k - a] && s'[k] == s'[a..b][k - a];
    }
  }

  /** A write inside one cluster changes no other cluster. */
  lemma {:induction false} CarvedUpdate(s: seq<seq<Byte>>, s': seq<seq<Byte>>, root: nat, total: nat, first: nat,
    spc: nat, ca: nat)
    requires root <= ca < total && first + (total - root) * spc <= |s| == |s'|
    requires var start := StartOf(root, first, spc, ca);
      start + spc <= |s| && s[..start] == s'[..start] && s[start + spc..] == s'[start + spc..]
    ensures var start := StartOf(root, first, spc, ca);
      Carved(s', root, total, first, spc) == Carved(s, root, total, first, spc)[ca := Flat(s'[start..start + spc])]
  {
    var start := StartOf(root, first, spc, ca);
    forall c | root <= c < total && c != ca
      ensures CarvedAt(s', root, total, first, spc, c) == CarvedAt(s, root, total, first, spc, c)
    {
      StartsApart(root, first, spc, c, total);
      var at := StartOf(root, first, spc, c);
      if c < ca {
        StartsApart(root, first, spc, c, ca);
        SameSlice(s, s', 0, start, at, at + spc);
      } else {
        StartsApart(root, first, spc, ca, c);
        SameSlice(s, s', start + spc, |s|, at, at + spc);
      }
    }
  }

  /** No cluster could be had from `start` on: the scan has left the table without looking at a free
      one, and with an exact bitmap none is free. */
  ghost predicate Exhausted(l: seq<nat>, root: nat, start: nat, exact: bool) {
    && (exists n: nat :: LooksUntil(l, root, start, n) && Position(l, root, start, n) >= |l|)
    && (exact ==> forall k: nat | start <= k :: Status(l, root, k) != FREE)
  }

  lemma ExhaustedAnyway(l: seq<nat>, root: nat, start: nat, exact: bool, mapped: bool)
    requires Exhausted(l, root, start, exact) && (mapped ==> exact)
    ensures Exhausted(l, root, start, mapped)
  {
  }

  lemma {:induction false} NoneIsExhausted(t: FatTable.Table, start: nat)
    requires t.Valid() && 0 < t.root && t.total <= BAD && Chosen(t, start) == BAD
    ensures Exhausted(FatRuns.Logical(t), t.root, start, Mapped(t))
  {
    hide FatRuns.Logical, Scan, FirstFree;
    var l := FatRuns.Logical(t);
    FatMap.FirstRunIsLeast(t.taken, start, 1);
    ScanIs(l, t.root, start);
    if Mapped(t) {
      ChosenIsFirst(t, start);
      FirstFreeIsLeast(l, t.root, start);
    }
  }

  class Clusters {
    const fat: Fat.Fat
    const disk: Disk.Disk
    const spc: nat
    const first: nat
    const step: int
    var last: nat

    ghost predicate Valid()
      reads fat, fat.cache, fat.bitmap.words, disk, disk.areas.slots
    {
      && fat.Valid() && FatRuns.Coherent(fat.Table()) && 0 < fat.root < fat.total <= BAD
      && disk.Valid() && Active(disk.areas.slots[..]) == multiset{}
      && 0 < spc < 0x1_0000 && first + (fat.total - fat.root) * spc <= |disk.sectors| < U32
    }

    /** The values of all clusters. */
    ghost function Entries(): (l: seq<nat>)
      requires fat.Valid()
      reads fat, fat.cache, fat.bitmap.words
      ensures |l| == fat.total
    {
      FatRuns.Logical(fat.Table())
    }

    constructor (fat: Fat.Fat, disk: Disk.Disk, spc: nat, first: nat, step: int)
      requires fat.Valid() && FatRuns.Coherent(fat.Table()) && 0 < fat.root < fat.total <= BAD
      requires disk.Valid() && Active(disk.areas.slots[..]) == multiset{}
      requires 0 < spc < 0x1_0000 && first + (fat.total - fat.root) * spc <= |disk.sectors| < U32
      ensures Valid() && this.fat == fat && this.disk == disk && this.spc == spc && this.first == first
    {
      hide FatRuns.Coherent, Active, Uniform;
      this.fat, this.disk, this.spc, this.first, this.step, this.last := fat, disk, spc, first, step, CLUSTER_OFFSET;
    }

    // ----- the table, without faults

    method Next(ca: nat) returns (v: nat)
      requires Valid()
      modifies fat`disk, fat.cache, fat.bitmap.words
      ensures Valid() && Entries() == old(Entries()) && v == Status(Entries(), fat.root, ca)
      ensures old(Mapped(fat.Table())) ==> Mapped(fat.Table())
    {
      hide FatTable.DecodeValue, FatTable.EncodeValue, Elect;
      ghost var t := fat.Table();
      var all := seq(fat.count, _ => true);
      assert all == t.AllOk();
      FatRuns.ReadKeeps(t, ca);
      v := fat.ReadFat(ca, all, all);
    }

    method Put(ca: nat, v: nat) returns (ok: bool)
      requires Valid() && v < FatTable.VALUES
      modifies fat`disk, fat.cache, fat.bitmap.words
      ensures Valid() && ok == (fat.root <= ca < fat.total)
      ensures Entries() == if ok then old(Entries())[ca := v] else old(Entries())
      ensures old(Mapped(fat.Table())) ==> Mapped(fat.Table())
    {
      hide FatTable.DecodeValue, FatTable.EncodeValue, Elect;
      ghost var t := fat.Table();
      var all := seq(fat.count, _ => true);
      assert all == t.AllOk();
      FatRuns.WriteKeeps(t, ca, v);
      ok := fat.WriteFat(ca, v, all);
    }
  
    // ----- allocation and release

    /** Where the next allocation starts to search. */
    function NextStart(): nat
      requires fat.root < fat.total
      reads this
    {
      if step == -1 then last else Scattered((last + step) % U32, fat.total - fat.root)
    }

    /** `get_cluster_offset` */
    method GetClusterOffset() returns (offt: nat)
      requires Valid()
      modifies this`last
      ensures last == if step == -1 then old(last) else (old(last) + step) % U32
      ensures (if offt == NO_CLUSTER_OFFSET then last else offt) == old(NextStart())
      ensures offt == NO_CLUSTER_OFFSET <==> step == -1
      ensures step != -1 ==> offt == (last + 11) * 3024953 % 0x1_0000_0000 / 2 % (fat.total - fat.root)
      ensures step != -1 ==> offt < fat.total - fat.root
    {
      hide FatRuns.Coherent, Active, Uniform;
      if step == -1 {
        return NO_CLUSTER_OFFSET;
      }
      last := (last + step) % U32;
      return Scattered(last, fat.total - fat.root);
    }

    /** `alloc_cluster`: reserve a free cluster, or change nothing and return BAD. */
    method AllocCluster(offt: nat) returns (ca: nat)
      requires Valid()
      modifies this`last, fat`disk, fat.cache, fat.bitmap.words
      ensures Valid() && (old(Mapped(fat.Table())) ==> Mapped(fat.Table()))
      ensures ca == Chosen(old(fat.Table()), if offt == NO_CLUSTER_OFFSET then old(last) else offt)
      ensures ca != BAD ==> fat.root <= ca < fat.total && old(Entries())[ca] == FREE
      ensures Entries() == if ca == BAD then old(Entries()) else old(Entries())[ca := RESERVED]
      ensures last == if offt != NO_CLUSTER_OFFSET then old(last) else if ca == BAD then fat.root else ca + 1
    {
      hide Mapped, FatRuns.Coherent, FatRuns.Logical, Active, Uniform, FatMap.FirstRun;
      var start := if offt == NO_CLUSTER_OFFSET then last else offt;
      ChosenIsFree(fat.Table(), start);
      ghost var l := Entries();
      var cluster := Propose(start);
      ghost var chosen := Chosen(fat.Table(), start);
      assert chosen ==
        if cluster != 0 && Status(l, fat.root, cluster) == FREE then cluster else Scan(l, fat.root, start, 0);
      hide Chosen, Scan;
      if cluster != 0 {
        var status := Next(cluster);
        if status == FREE {
          ca := Reserve(cluster, offt);
          return;
        }
      }
      ca := AllocByScan(start, offt);
    }

    /** What the bitmap proposes. */
    method Propose(start: nat) returns (cluster: nat)
      requires Valid()
      ensures var t := fat.Table(); cluster == if t.mapped then FatMap.FirstRun(t.taken, start, 1) else 0
    {
      cluster := fat.bitmap.FindFree(start, 1);
    }

    /** The fallback scan of `alloc_cluster`. */
    method AllocByScan(start: nat, offt: nat) returns (ca: nat)
      requires Valid()
      modifies this`last, fat`disk, fat.cache, fat.bitmap.words
      ensures Valid() && (old(Mapped(fat.Table())) ==> Mapped(fat.Table()))
      ensures ca == Scan(old(Entries()), fat.root, start, 0) && (ca != BAD ==> ca < fat.total)
      ensures Entries() == if ca == BAD then old(Entries()) else old(Entries())[ca := RESERVED]
      ensures last == if offt != NO_CLUSTER_OFFSET then old(last) else if ca == BAD then fat.root else ca + 1
    {
      hide Mapped, FatRuns.Coherent, FatRuns.Logical, Active, Uniform;
      ghost var l := Entries();
      var cluster, skip: nat := start, 0;
      while cluster < fat.total
        invariant Valid() && Entries() == l && last == old(last)
        invariant old(Mapped(fat.Table())) ==> Mapped(fat.Table())
        invariant Scan(l, fat.root, start, 0) == Scan(l, fat.root, cluster, skip)
        decreases fat.total - cluster
      {
        var status := Next(cluster);
        if status == FREE {
          ca := Reserve(cluster, offt);
          return;
        }
        if status == BAD || status == RESERVED {
          cluster := cluster + skip;
          skip := skip + 1;
        }
        cluster := cluster + 1;
      }
      if offt == NO_CLUSTER_OFFSET {
        last := fat.root;
      }
      return BAD;
    }

    method Reserve(cluster: nat, offt: nat) returns (ca: nat)
      requires Valid() && fat.root <= cluster < fat.total
      modifies this`last, fat`disk, fat.cache, fat.bitmap.words
      ensures Valid() && (old(Mapped(fat.Table())) ==> Mapped(fat.Table()))
      ensures ca == cluster && Entries() == old(Entries())[ca := RESERVED]
      ensures last == if offt == NO_CLUSTER_OFFSET then ca + 1 else old(last)
    {
      hide Mapped, FatRuns.Coherent, FatRuns.Logical, Active, Uniform;
      ca := BAD;
      var ok := Put(cluster, RESERVED);
      if ok {
        ca := cluster;
        if offt == NO_CLUSTER_OFFSET {
          last := cluster + 1;
        }
      }
    }

    /** `dealloc_cluster` */
    method DeallocCluster(ca: nat) returns (ok: bool)
      requires Valid()
      modifies fat`disk, fat.cache, fat.bitmap.words
      ensures Valid() && (old(Mapped(fat.Table())) ==> Mapped(fat.Table()))
      ensures ok == (fat.root <= ca < fat.total)
      ensures Entries() == if ok then old(Entries())[ca := FREE] else old(Entries())
    {
      hide Mapped, FatRuns.Coherent, FatRuns.Logical, Active, Uniform;
      var status := Next(ca);
      if status == FREE {
        return true;
      }
      ok := Put(ca, FREE);
    }

    /** `dealloc_chain` */
    method DeallocChain(head: nat) returns (ok: bool)
      requires Valid()
      modifies fat`disk, fat.cache, fat.bitmap.words
      ensures Valid() && (old(Mapped(fat.Table())) ==> Mapped(fat.Table()))
      ensures (Entries(), ok) == Drain(old(Entries()), fat.root, head)
      ensures forall chains, i: nat |
        Family(old(Entries()), fat.root, chains) && i < |chains| && chains[i] != [] && chains[i][0] == head ::
        ok && Follows(old(Entries()), fat.root, chains, Release(i), Entries())
    {
      hide Mapped, FatRuns.Coherent, FatRuns.Logical, Active, Uniform, Family, Follows;
      ReleaseFollows(Entries(), fat.root, head);
      var ca, more := head, true;
      while more
        invariant Valid() && (old(Mapped(fat.Table())) ==> Mapped(fat.Table()))
        invariant (if more then Drain(Entries(), fat.root, ca) else (Entries(), true)) ==
          Drain(old(Entries()), fat.root, head)
        decreases more, InUse(Entries())
      {
        ghost var l := Entries();
        var next := Next(ca);
        ok := DeallocCluster(ca);
        if !ok {
          return false;
        }
        if next == FREE {
          assert l[ca := FREE] == l;
        } else {
          InUseUpdate(l, ca, FREE);
        }
        ca := next;
        more := ca != END && ca != BAD && ca != FREE;
      }
      return true;
    }
  
    // ----- reads and writes inside a cluster

    /** The bytes of all clusters. */
    ghost function Data(): (m: seq<seq<Byte>>)
      requires fat.root < fat.total && first + (fat.total - fat.root) * spc <= |disk.sectors|
      reads disk
      ensures |m| == fat.total
    {
      Carved(disk.sectors, fat.root, fat.total, first, spc)
    }

    /** `readoff_cluster` */
    method ReadoffCluster(ca: nat, offset: nat, buffer: array<Byte>, at: nat, size: nat) returns (ok: bool)
      requires Valid() && fat.root <= ca < fat.total && at + size <= buffer.Length
      modifies buffer, disk.areas.slots
      ensures Valid() && ok
      ensures buffer[..] == Overlay(old(buffer[..]), at, Piece(Data()[ca], offset, size))
      ensures var a := first + (ca - fat.root) * spc;
        && a + spc <= |disk.sectors|
        && buffer[..] == Overlay(old(buffer[..]), at, Piece(Flat(disk.sectors[a..a + spc]), offset, size))
    {
      hide Mapped, FatRuns.Coherent, FatRuns.Logical, Overlay, Piece, Flat, Grantable, Granted, Released;
      CarvedIs(disk.sectors, fat.root, fat.total, first, spc, ca);
      StartsApart(fat.root, first, spc, ca, fat.total);
      var start := (ca - fat.root) * spc + first;
      AloneIsGranted(disk.areas.slots[..], Area(start, spc, true));
      Disk.Succeeds(disk.sectorSize, offset, size, _ => true, spc);
      ok := disk.ReadoffSectors(start, offset, buffer, at, size, spc, _ => true, true, true);
    }

    /** `writeoff_cluster` */
    method WriteoffCluster(ca: nat, offset: nat, data: seq<Byte>) returns (ok: bool)
      requires Valid() && fat.root <= ca < fat.total
      modifies disk`sectors, disk.areas.slots
      ensures Valid() && ok
      ensures Data() == old(Data())[ca := Overlay(old(Data())[ca], offset, data)]
      ensures Patched(old(disk.sectors), disk.sectors, first + (ca - fat.root) * spc, spc, offset, data)
    {
      hide Mapped, FatRuns.Coherent, FatRuns.Logical, Overlay, Piece, Flat, Grantable, Granted, Released;
      CarvedIs(disk.sectors, fat.root, fat.total, first, spc, ca);
      StartsApart(fat.root, first, spc, ca, fat.total);
      var start := (ca - fat.root) * spc + first;
      AloneIsGranted(disk.areas.slots[..], Area(start, spc, false));
      ghost var before := disk.sectors;
      Disk.Succeeds(disk.sectorSize, offset, |data|, _ => true, spc);
      assert data[..|data|] == data;
      ok := disk.WriteoffSectors(start, offset, data, spc, _ => true, true, true);
      CarvedUpdate(before, disk.sectors, fat.root, fat.total, first, spc, ca);
    }
  }
}
