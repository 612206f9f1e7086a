/** The block list of the allocator in `std/mm.c` as a value: the blocks tile the buffer from its
    start, each behind a header. First fit with splitting, release, and coalescing. */
module Blocks {
  /** The size of a header, `sizeof(mm_block_t)` on a 64-bit platform. */
  const HEADER := 24
  const ALIGNMENT := 8
  const U64 := 0x1_0000_0000_0000_0000

  datatype Block = Block(size: nat, free: bool)

  /** Where the header of block `i` is. */
  ghost function Addr(bs: seq<Block>, i: nat): nat
    requires i <= |bs|
  {
    if i == 0 then 0 else Addr(bs, i - 1) + HEADER + bs[i - 1].size
  }

  ghost function Extent(bs: seq<Block>): nat {
    Addr(bs, |bs|)
  }

  lemma AddrStep(bs: seq<Block>, i: nat)
    requires i < |bs|
    ensures Addr(bs, i + 1) == Addr(bs, i) + HEADER + bs[i].size
  {
  }

  lemma {:induction false} AddrAscends(bs: seq<Block>, i: nat, j: nat)
    requires i < j <= |bs|
    ensures Addr(bs, i) + HEADER + bs[i].size <= Addr(bs, j)
  {
    if i < j - 1 {
      AddrAscends(bs, i, j - 1);
    }
  }

  lemma {:induction false} AddrConcat(a: seq<Block>, b: seq<Block>, k: nat)
    ensures k <= |a| ==> Addr(a + b, k) == Addr(a, k)
    ensures k <= |b| ==> Addr(a + b, |a| + k) == Extent(a) + Addr(b, k)
  {
    if k > 0 {
      AddrConcat(a, b, k - 1);
    } else {
      AddrPrefix(a, b, |a|);
    }
  }

  lemma {:induction false} AddrPrefix(a: seq<Block>, b: seq<Block>, k: nat)
    requires k <= |a|
    ensures Addr(a + b, k) == Addr(a, k)
  {
    if k > 0 {
      AddrPrefix(a, b, k - 1);
    }
  }

  /** Replacing some blocks by others of the same extent moves no other block. */
  lemma {:induction false} AddrReplaced(a: seq<Block>, mid: seq<Block>, mid': seq<Block>, c: seq<Block>, k: nat)
    requires Extent(mid) == Extent(mid')
    ensures k <= |a| ==> Addr(a + mid + c, k) == Addr(a + mid' + c, k) == Addr(a, k)
    ensures k <= |c| ==> Addr(a + mid + c, |a| + |mid| + k) == Addr(a + mid' + c, |a| + |mid'| + k)
  {
    AddrConcat(a + mid, c, k);
    AddrConcat(a + mid', c, k);
    AddrConcat(a, mid, k);
    AddrConcat(a, mid', k);
    AddrConcat(a, mid, |mid|);
    AddrConcat(a, mid', |mid'|);
  }

  // ----- the operations

  /** The first free block that holds `size` bytes, or the number of blocks. */
  ghost function FirstFit(bs: seq<Block>, size: nat): (i: nat)
    ensures i <= |bs| && (i < |bs| ==> bs[i].free && bs[i].size >= size)
    ensures forall k | 0 <= k < i :: !bs[k].free || bs[k].size < size
  {
    if bs == [] || (bs[0].free && bs[0].size >= size) then 0 else 1 + FirstFit(bs[1..], size)
  }

  /** What block `i` becomes when `size` bytes are taken: the rest becomes a free block if it has
      room for a header. */
  ghost function Parts(b: Block, size: nat): (mid: seq<Block>)
    requires b.size >= size
  {
    if b.size >= size + HEADER then [Block(size, false), Block(b.size - size - HEADER, true)]
    else [Block(b.size, false)]
  }

  ghost function Taken(bs: seq<Block>, i: nat, size: nat): seq<Block>
    requires i < |bs| && bs[i].size >= size
  {
    bs[..i] + Parts(bs[i], size) + bs[i + 1..]
  }

  ghost function Freed(bs: seq<Block>, i: nat): seq<Block>
    requires i < |bs|
  {
    bs[..i] + [Block(bs[i].size, true)] + bs[i + 1..]
  }

  /** Blocks `i` and `i + 1` become one, which also takes the second header. */
  ghost function Joined(bs: seq<Block>, i: nat): (r: seq<Block>)
    requires i + 1 < |bs|
    ensures |r| == |bs| - 1
  {
    bs[..i] + [Block(bs[i].size + HEADER + bs[i + 1].size, true)] + bs[i + 2..]
  }

  ghost predicate Mergeable(bs: seq<Block>, i: nat) {
    i + 1 < |bs| && bs[i].free && bs[i + 1].free
  }

  /** Free neighbours joined until there are none. */
  ghost function Merged(bs: seq<Block>): seq<Block>
    decreases |bs|
  {
    if |bs| < 2 then bs
    else if Mergeable(bs, 0) then Merged(Joined(bs, 0))
    else [bs[0]] + Merged(bs[1..])
  }

  lemma {:induction false} JoinedTwice(bs: seq<Block>, i: nat)
    requires 0 < i && Mergeable(bs, i) && Mergeable(bs, 0)
    ensures Mergeable(Joined(bs, i), 0) && Mergeable(Joined(bs, 0), i - 1)
    ensures Joined(Joined(bs, i), 0) == Joined(Joined(bs, 0), i - 1)
  {
  }

  lemma {:induction false} JoinedRest(bs: seq<Block>, i: nat)
    requires 0 < i && Mergeable(bs, i) && !Mergeable(bs, 0)
    ensures !Mergeable(Joined(bs, i), 0) && Mergeable(bs[1..], i - 1)
    ensures Joined(bs, i) == [bs[0]] + Joined(bs[1..], i - 1)
  {
  }

  /** Joining any two free neighbours first makes no difference. */
  lemma {:induction false} MergedJoined(bs: seq<Block>, i: nat)
    requires Mergeable(bs, i)
    ensures Merged(Joined(bs, i)) == Merged(bs)
    decreases |bs|
  {
    if i > 0 {
      if Mergeable(bs, 0) {
        JoinedTwice(bs, i);
        MergedJoined(Joined(bs, 0), i - 1);
      } else {
        JoinedRest(bs, i);
        MergedJoined(bs[1..], i - 1);
        assert ([bs[0]] + Joined(bs[1..], i - 1))[1..] == Joined(bs[1..], i - 1);
      }
    }
  }

  lemma {:induction false} MergedFix(bs: seq<Block>)
    requires forall i: nat :: !Mergeable(bs, i)
    ensures Merged(bs) == bs
    decreases |bs|
  {
    if |bs| >= 2 {
      assert !Mergeable(bs, 0);
      forall i: nat ensures !Mergeable(bs[1..], i) {
        assert !Mergeable(bs, i + 1);
      }
      MergedFix(bs[1..]);
    }
  }

  /** After coalescing, no two neighbours are free. */
  lemma {:induction false} MergedApart(bs: seq<Block>)
    ensures forall i: nat :: !Mergeable(Merged(bs), i)
    ensures |bs| > 0 ==> |Merged(bs)| > 0 && Merged(bs)[0].free == bs[0].free
    decreases |bs|
  {
    if |bs| >= 2 {
      if Mergeable(bs, 0) {
        MergedApart(Joined(bs, 0));
      } else {
        MergedApart(bs[1..]);
        var m := Merged(bs);
        forall i: nat ensures !Mergeable(m, i) {
          if i > 0 {
            assert !Mergeable(Merged(bs[1..]), i - 1);
          }
        }
      }
    }
  }

  // ----- what the operations keep

  ghost predicate Aligned(bs: seq<Block>) {
    forall i | 0 <= i < |bs| :: bs[i].size % ALIGNMENT == 0
  }

  /** Bytes in use, headers included. */
  ghost function Used(bs: seq<Block>): nat {
    if bs == [] then 0 else (if bs[0].free then 0 else HEADER + bs[0].size) + Used(bs[1..])
  }

  lemma {:induction false} UsedConcat(a: seq<Block>, b: seq<Block>)
    ensures Used(a + b) == Used(a) + Used(b)
  {
    if a == [] {
      assert a + b == b;
    } else {
      UsedConcat(a[1..], b);
      assert (a + b)[1..] == a[1..] + b && (a + b)[0] == a[0];
    }
  }

  /** Address and size of what a caller gets with block `i`. */
  ghost function Payload(bs: seq<Block>, i: nat): (nat, nat)
    requires i < |bs|
  {
    (Addr(bs, i) + HEADER, bs[i].size)
  }

  /** The payloads in use. */
  ghost function Live(bs: seq<Block>): set<(nat, nat)> {
    set i | 0 <= i < |bs| && !bs[i].free :: Payload(bs, i)
  }

  /** Live payloads lie within the buffer and do not overlap. */
  lemma {:induction false} LiveDisjoint(bs: seq<Block>, p: (nat, nat), q: (nat, nat))
    requires p in Live(bs) && q in Live(bs)
    ensures HEADER <= p.0 && p.0 + p.1 <= Extent(bs)
    ensures p == q || p.0 + p.1 + HEADER <= q.0 || q.0 + q.1 + HEADER <= p.0
  {
    var i :| 0 <= i < |bs| && !bs[i].free && p == Payload(bs, i);
    var j :| 0 <= j < |bs| && !bs[j].free && q == Payload(bs, j);
    AddrAscends(bs, i, |bs|);
    if i < j {
      AddrAscends(bs, i, j);
    } else if j < i {
      AddrAscends(bs, j, i);
    }
  }

  lemma AlignedAt(bs: seq<Block>, i: nat)
    requires i < |bs|
    ensures Aligned(bs) ==> bs[i].size % ALIGNMENT == 0
  {
  }

  lemma {:induction false} AlignedAddr(bs: seq<Block>, i: nat)
    requires Aligned(bs) && i <= |bs|
    ensures Addr(bs, i) % ALIGNMENT == 0
  {
    if i > 0 {
      AlignedAddr(bs, i - 1);
    }
  }

  /** Where `was` gives way to `mid` of the same extent, the other live payloads stay. */
  lemma {:induction false} OutsideStays(a: seq<Block>, was: seq<Block>, mid: seq<Block>, c: seq<Block>, k: nat)
    requires Extent(was) == Extent(mid) && k < |a + was + c| && (k < |a| || |a| + |was| <= k)
    requires !(a + was + c)[k].free
    ensures Payload(a + was + c, k) in Live(a + mid + c)
    ensures Payload(a + was + c, k).0 != Extent(a) + HEADER || Extent(mid) == 0
  {
    var k' := if k < |a| then k else k - |was| + |mid|;
    AddrReplaced(a, was, mid, c, if k < |a| then k else k - |a| - |was|);
    assert (a + was + c)[k] == (a + mid + c)[k'];
    assert Payload(a + was + c, k) == Payload(a + mid + c, k');
    AddrReplaced(a, was, mid, c, |a|);
    AddrReplaced(a, was, mid, c, 0);
    AddrConcat(a, was, |was|);
    AddrConcat(a + was, c, 0);
    if k < |a| {
      AddrAscends(a + was + c, k, |a|);
    } else if |a| + |was| < k {
      AddrAscends(a + was + c, |a| + |was|, k);
    }
  }

  lemma {:induction false} Cut(bs: seq<Block>, i: nat, j: nat)
    requires i <= j <= |bs|
    ensures bs == bs[..i] + bs[i..j] + bs[j..]
    ensures Extent(bs[..i]) == Addr(bs, i) && Extent(bs[i..j]) == Addr(bs, j) - Addr(bs, i)
  {
    var a, mid, c := bs[..i], bs[i..j], bs[j..];
    AddrConcat(a, mid + c, i);
    assert bs == a + (mid + c) && bs == (a + mid) + c;
    AddrConcat(a + mid, c, j);
    AddrConcat(a, mid, j - i);
  }

  lemma {:induction false} Swapped(bs: seq<Block>, i: nat, j: nat, mid: seq<Block>)
    requires i < j <= |bs| && Extent(mid) == Addr(bs, j) - Addr(bs, i)
    ensures var bs' := bs[..i] + mid + bs[j..];
      && Extent(bs') == Extent(bs) && Addr(bs', i) == Addr(bs, i) && Used(bs') - Used(mid) == Used(bs) - Used(bs[i..j])
      && (Aligned(bs) && Aligned(mid) ==> Aligned(bs'))
  {
    hide Used;
    var a, was, c := bs[..i], bs[i..j], bs[j..];
    Cut(bs, i, j);
    AddrReplaced(a, was, mid, c, |c|);
    AddrReplaced(a, was, mid, c, i);
    UsedConcat(a + was, c);
    UsedConcat(a, was);
    UsedConcat(a + mid, c);
    UsedConcat(a, mid);
  }

  lemma {:induction false} OneBlock(b: Block)
    ensures Extent([b]) == HEADER + b.size && Used([b]) == if b.free then 0 else HEADER + b.size
  {
    assert Addr([b], 0) == 0 && [b][1..] == [];
  }

  lemma {:induction false} PartsSame(b: Block, size: nat)
    requires b.free && b.size >= size
    ensures Extent(Parts(b, size)) == HEADER + b.size && Used(Parts(b, size)) == HEADER + Parts(b, size)[0].size
    ensures Used([b]) == 0
    ensures b.size % ALIGNMENT == 0 && size % ALIGNMENT == 0 ==> Aligned(Parts(b, size))
  {
    var mid := Parts(b, size);
    hide Addr, Used;
    OneBlock(b);
    OneBlock(mid[0]);
    if |mid| == 2 {
      OneBlock(mid[1]);
      assert mid == [mid[0]] + [mid[1]];
      AddrConcat([mid[0]], [mid[1]], 1);
      UsedConcat([mid[0]], [mid[1]]);
    } else {
      assert mid == [mid[0]];
    }
  }

  /** Where free blocks give way to `mid`, the live payloads are those of before and of `mid`. */
  lemma {:induction false} LiveSwapped(bs: seq<Block>, i: nat, j: nat, mid: seq<Block>)
    requires i < j <= |bs| && Extent(mid) == Addr(bs, j) - Addr(bs, i) && mid != []
    requires forall k | i <= k < j :: bs[k].free
    requires forall k | 0 < k < |mid| :: mid[k].free
    ensures var p := (Addr(bs, i) + HEADER, mid[0].size);
      Live(bs[..i] + mid + bs[j..]) == if mid[0].free then Live(bs) else Live(bs) + {p}
  {
    hide Addr;
    var a, was, c := bs[..i], bs[i..j], bs[j..];
    var bs', p := a + mid + c, (Addr(bs, i) + HEADER, mid[0].size);
    Cut(bs, i, j);
    forall q | q in Live(bs) ensures q in Live(bs') {
      var k :| 0 <= k < |bs| && !bs[k].free && q == Payload(bs, k);
      OutsideStays(a, was, mid, c, k);
    }
    forall q | q in Live(bs') ensures q in Live(bs) || (q == p && !mid[0].free) {
      var k :| 0 <= k < |bs'| && !bs'[k].free && q == Payload(bs', k);
      if k == i {
        AddrReplaced(a, was, mid, c, i);
      } else {
        OutsideStays(a, mid, was, c, k);
      }
    }
    if !mid[0].free {
      AddrReplaced(a, was, mid, c, i);
      assert Payload(bs', i) == p;
    }
  }

  /** Taking a block adds one live payload, of the size asked for and less than a header more. */
  lemma {:induction false} TakenKeeps(bs: seq<Block>, i: nat, size: nat)
    requires i < |bs| && bs[i].free && bs[i].size >= size
    ensures var bs', got := Taken(bs, i, size), Parts(bs[i], size)[0].size;
      && size <= got < size + HEADER && Extent(bs') == Extent(bs) && Used(bs') == Used(bs) + HEADER + got
      && Live(bs') == Live(bs) + {(Addr(bs, i) + HEADER, got)}
      && (Aligned(bs) && size % ALIGNMENT == 0 ==> Aligned(bs'))
  {
    hide Live, Used, Aligned;
    var mid := Parts(bs[i], size);
    assert Addr(bs, i + 1) == Addr(bs, i) + HEADER + bs[i].size;
    assert Aligned(bs) ==> bs[i].size % ALIGNMENT == 0 by {
      AlignedAt(bs, i);
    }
    PartsSame(bs[i], size);
    Swapped(bs, i, i + 1, mid);
    LiveSwapped(bs, i, i + 1, mid);
    assert bs[i..i + 1] == [bs[i]];
  }

  /** Freeing a block in use removes its payload and nothing else. */
  lemma {:induction false} FreedKeeps(bs: seq<Block>, i: nat)
    requires i < |bs| && !bs[i].free
    ensures var bs' := Freed(bs, i);
      && Extent(bs') == Extent(bs) && Used(bs') == Used(bs) - HEADER - bs[i].size
      && Payload(bs, i) in Live(bs) && Live(bs') == Live(bs) - {Payload(bs, i)}
      && (Aligned(bs) ==> Aligned(bs'))
  {
    var a, was, mid, c := bs[..i], bs[i..i + 1], [Block(bs[i].size, true)], bs[i + 1..];
    var bs' := Freed(bs, i);
    Cut(bs, i, i + 1);
    assert was == [bs[i]];
    OneBlock(bs[i]);
    OneBlock(mid[0]);
    Swapped(bs, i, i + 1, mid);
    forall q | q in Live(bs) && q != Payload(bs, i) ensures q in Live(bs') {
      var k :| 0 <= k < |bs| && !bs[k].free && q == Payload(bs, k);
      OutsideStays(a, was, mid, c, k);
    }
    forall q | q in Live(bs') ensures q in Live(bs) && q != Payload(bs, i) {
      var k :| 0 <= k < |bs'| && !bs'[k].free && q == Payload(bs', k);
      OutsideStays(a, mid, was, c, k);
    }
  }

  /** Joining free neighbours touches no live payload. */
  lemma {:induction false} JoinedKeeps(bs: seq<Block>, i: nat)
    requires Mergeable(bs, i)
    ensures var bs' := Joined(bs, i);
      && Extent(bs') == Extent(bs) && Live(bs') == Live(bs) && Used(bs') == Used(bs) && (Aligned(bs) ==> Aligned(bs'))
  {
    hide Live, Addr, Aligned;
    var x, y := bs[i], bs[i + 1];
    PairSame(x, y);
    assert bs[i..i + 2] == [x, y];
    Cut(bs, i, i + 2);
    AlignedAt(bs, i);
    AlignedAt(bs, i + 1);
    Swapped(bs, i, i + 2, [Block(x.size + HEADER + y.size, true)]);
    LiveSwapped(bs, i, i + 2, [Block(x.size + HEADER + y.size, true)]);
  }

  lemma {:induction false} PairSame(x: Block, y: Block)
    requires x.free && y.free
    ensures var mid := [Block(x.size + HEADER + y.size, true)];
      && Extent([x, y]) == Extent(mid) && Used([x, y]) == 0 == Used(mid)
      && (x.size % ALIGNMENT == 0 && y.size % ALIGNMENT == 0 ==> Aligned(mid))
  {
    var mid := [Block(x.size + HEADER + y.size, true)];
    hide Addr, Used;
    OneBlock(x);
    OneBlock(y);
    OneBlock(mid[0]);
    assert [x, y] == [x] + [y];
    AddrConcat([x], [y], 1);
    UsedConcat([x], [y]);
  }

  // ----- coalescing finds all the room there is

  /** The free blocks from `i` up to `j` hold `size` bytes once they are one block. */
  ghost predicate FreeRun(bs: seq<Block>, i: nat, j: nat, size: nat) {
    i < j <= |bs| && (forall k | i <= k < j :: bs[k].free) && Addr(bs, j) - Addr(bs, i) - HEADER >= size
  }

  ghost predicate HasRun(bs: seq<Block>, size: nat) {
    exists i: nat, j: nat :: FreeRun(bs, i, j, size)
  }

  lemma {:induction false} JoinedAddr(bs: seq<Block>, k: nat, x: nat)
    requires Mergeable(bs, k) && x <= |bs| && x != k + 1
    ensures Addr(bs, x) == Addr(Joined(bs, k), if x <= k then x else x - 1)
  {
    hide Addr;
    var was, mid := bs[k..k + 2], [Block(bs[k].size + HEADER + bs[k + 1].size, true)];
    assert was == [bs[k], bs[k + 1]];
    Cut(bs, k, k + 2);
    PairSame(bs[k], bs[k + 1]);
    AddrReplaced(bs[..k], was, mid, bs[k + 2..], if x <= k then x else x - k - 2);
  }

  /** The lowest address at which a run starts that holds `size` bytes. */
  ghost predicate LowestRun(bs: seq<Block>, at: nat, size: nat) {
    && (exists i: nat, j: nat :: FreeRun(bs, i, j, size) && Addr(bs, i) == at)
    && forall i: nat, j: nat | FreeRun(bs, i, j, size) :: at <= Addr(bs, i)
  }

  /** A run after two blocks were joined is a run from before. */
  lemma {:induction false} RunBefore(bs: seq<Block>, k: nat, i: nat, j: nat, size: nat) returns (i': nat, j': nat)
    requires Mergeable(bs, k) && FreeRun(Joined(bs, k), i, j, size)
    ensures FreeRun(bs, i', j', size) && Addr(bs, i') == Addr(Joined(bs, k), i)
  {
    hide Addr;
    var bs' := Joined(bs, k);
    i', j' := if i <= k then i else i + 1, if j <= k then j else j + 1;
    JoinedAddr(bs, k, i');
    JoinedAddr(bs, k, j');
    forall x | i' <= x < j' ensures bs[x].free {
      assert x <= k ==> bs'[x].free;
      assert x > k + 1 ==> bs'[x - 1] == bs[x];
    }
  }

  /** A run from before is part of a run after two blocks were joined. */
  lemma {:induction false} RunAfter(bs: seq<Block>, k: nat, i: nat, j: nat, size: nat) returns (i': nat, j': nat)
    requires Mergeable(bs, k) && FreeRun(bs, i, j, size)
    ensures FreeRun(Joined(bs, k), i', j', size) && Addr(Joined(bs, k), i') <= Addr(bs, i)
  {
    hide Addr;
    var bs' := Joined(bs, k);
    var i1, j1 := if i == k + 1 then k else i, if j == k + 1 then k + 2 else j;
    if i == k + 1 {
      AddrAscends(bs, k, i);
    }
    if j == k + 1 {
      AddrAscends(bs, j, j1);
    }
    JoinedAddr(bs, k, i1);
    JoinedAddr(bs, k, j1);
    i', j' := if i1 <= k then i1 else i1 - 1, if j1 <= k then j1 else j1 - 1;
    forall x | i' <= x < j' ensures bs'[x].free {
      assert x < k ==> bs'[x] == bs[x];
      assert x > k ==> bs'[x] == bs[x + 1];
    }
  }

  lemma {:induction false} JoinedRuns(bs: seq<Block>, k: nat, size: nat)
    requires Mergeable(bs, k)
    ensures HasRun(Joined(bs, k), size) <==> HasRun(bs, size)
    ensures forall at: nat | LowestRun(Joined(bs, k), at, size) :: LowestRun(bs, at, size)
  {
    hide Addr, Joined;
    var bs' := Joined(bs, k);
    if HasRun(bs', size) {
      var i: nat, j: nat :| FreeRun(bs', i, j, size);
      var i', j' := RunBefore(bs, k, i, j, size);
    }
    if HasRun(bs, size) {
      var i: nat, j: nat :| FreeRun(bs, i, j, size);
      var i', j' := RunAfter(bs, k, i, j, size);
    }
    forall at: nat | LowestRun(bs', at, size) ensures LowestRun(bs, at, size) {
      var i: nat, j: nat :| FreeRun(bs', i, j, size) && Addr(bs', i) == at;
      var i', j' := RunBefore(bs, k, i, j, size);
      forall x: nat, y: nat | FreeRun(bs, x, y, size) ensures at <= Addr(bs, x) {
        var x', y' := RunAfter(bs, k, x, y, size);
      }
    }
  }

  /** Coalescing keeps every live payload, the count of bytes in use, and the runs. */
  lemma {:induction false} MergedKeeps(bs: seq<Block>, size: nat)
    ensures var m := Merged(bs);
      && Extent(m) == Extent(bs) && Live(m) == Live(bs) && Used(m) == Used(bs) && (Aligned(bs) ==> Aligned(m))
      && (HasRun(m, size) <==> HasRun(bs, size))
      && forall at: nat | LowestRun(m, at, size) :: LowestRun(bs, at, size)
    decreases |bs|
  {
    hide Addr, Live, Used, Aligned, HasRun, LowestRun;
    if k: nat :| Mergeable(bs, k) {
      JoinedKeeps(bs, k);
      JoinedRuns(bs, k, size);
      MergedJoined(bs, k);
      MergedKeeps(Joined(bs, k), size);
    } else {
      MergedFix(bs);
    }
  }

  /** Where no free blocks are neighbours, first fit fails exactly when there is no run. */
  lemma {:induction false} FitIffRun(bs: seq<Block>, size: nat)
    ensures FirstFit(bs, size) < |bs| ==> HasRun(bs, size)
    ensures HasRun(bs, size) && (forall k: nat :: !Mergeable(bs, k)) ==> FirstFit(bs, size) < |bs|
  {
    var f := FirstFit(bs, size);
    if f < |bs| {
      assert FreeRun(bs, f, f + 1, size);
    }
    if HasRun(bs, size) && forall k: nat :: !Mergeable(bs, k) {
      var i: nat, j: nat :| FreeRun(bs, i, j, size);
      assert bs[i].free && !Mergeable(bs, i);
      assert j == i + 1;
    }
  }

  /** ... and what it finds is then the lowest run. */
  lemma {:induction false} FitIsLowest(bs: seq<Block>, size: nat)
    requires FirstFit(bs, size) < |bs| && forall k: nat :: !Mergeable(bs, k)
    ensures LowestRun(bs, Addr(bs, FirstFit(bs, size)), size)
  {
    hide Addr;
    var f := FirstFit(bs, size);
    AddrStep(bs, f);
    assert FreeRun(bs, f, f + 1, size);
    forall i: nat, j: nat | FreeRun(bs, i, j, size) ensures Addr(bs, f) <= Addr(bs, i) {
      assert !Mergeable(bs, i);
      assert j == i + 1;
      AddrStep(bs, i);
      if f < i {
        AddrAscends(bs, f, i);
      }
    }
  }

  // ----- one call

  /** The size in whole units of the alignment, in 64-bit arithmetic. */
  function RoundedUp(size: nat): nat {
    (size + ALIGNMENT - 1) % U64 / ALIGNMENT * ALIGNMENT
  }

  /** Rounding yields less than was asked for exactly for the seven sizes at the top. */
  lemma {:induction false} RoundedUpIs(size: nat)
    requires size < U64
    ensures RoundedUp(size) % ALIGNMENT == 0
    ensures RoundedUp(size) >= size <==> size + ALIGNMENT <= U64
    ensures RoundedUp(size) >= size ==> RoundedUp(size) < size + ALIGNMENT
  {
    var x := (size + ALIGNMENT - 1) % U64;
    assert x / ALIGNMENT * ALIGNMENT + x % ALIGNMENT == x;
  }

  /** Block `k` is free and holds `n` bytes. */
  predicate Fitting(bs: seq<Block>, k: nat, n: nat) {
    k < |bs| && bs[k].free && bs[k].size >= n
  }

  datatype Outcome = Outcome(blocks: seq<Block>, got: seq<(nat, nat)>)

  /** First fit among the blocks as they are. */
  ghost function Fitted(bs: seq<Block>, n: nat): Outcome {
    var i := FirstFit(bs, n);
    if i < |bs| then Outcome(Taken(bs, i, n), [(Addr(bs, i) + HEADER, Parts(bs[i], n)[0].size)]) else Outcome(bs, [])
  }

  /** `_malloc_s`: what becomes of the blocks, and the payload handed out, if any. A request that
      rounds to zero is not tried again after coalescing. */
  ghost function Allocated(bs: seq<Block>, size: nat): Outcome {
    var n := RoundedUp(size);
    if size == 0 then Outcome(bs, [])
    else if FirstFit(bs, n) < |bs| || n == 0 then Fitted(bs, n)
    else Fitted(Merged(bs), n)
  }

  /** A request is met exactly when some run of free blocks has room for its rounded size. What is
      handed out is aligned, apart from all live payloads, and not a header larger than need be. It
      is as large as was asked for unless rounding lost the request; and a refusal leaves no free
      neighbours unless the request rounds to zero. */
  lemma {:induction false} AllocatedIs(bs: seq<Block>, size: nat)
    requires 0 < size < U64 && Aligned(bs)
    ensures var n, r := RoundedUp(size), Allocated(bs, size);
      && (r.got != [] <==> HasRun(bs, n))
      && Extent(r.blocks) == Extent(bs) && Aligned(r.blocks)
      && (r.got == [] ==> Live(r.blocks) == Live(bs) && Used(r.blocks) == Used(bs))
      && (r.got == [] && n > 0 ==> forall k: nat :: !Mergeable(r.blocks, k))
      && (r.got == [] && n == 0 ==> r.blocks == bs)
      && (r.got != [] ==>
            && |r.got| == 1 && n <= r.got[0].1 < n + HEADER && r.got[0].0 % ALIGNMENT == 0
            && (size <= n <==> size <= U64 - ALIGNMENT)
            && Live(r.blocks) == Live(bs) + {r.got[0]} && Used(r.blocks) == Used(bs) + HEADER + r.got[0].1)
  {
    hide Addr, Live, Used, Aligned, HasRun, Merged, RoundedUp;
    var n := RoundedUp(size);
    RoundedUpIs(size);
    FitIffRun(bs, n);
    AnyFreeFits(bs);
    MergedKeeps(bs, n);
    MergedApart(bs);
    FitIffRun(Merged(bs), n);
    var from := if FirstFit(bs, n) < |bs| || n == 0 then bs else Merged(bs);
    var i := FirstFit(from, n);
    if i < |from| {
      TakenKeeps(from, i, n);
      AlignedAddr(from, i);
    }
  }

  /** Which block is handed out: the first free one that holds the rounded size as it is; if there is
      none, the lowest run of free blocks that does. */
  lemma {:induction false} AllocatedWhere(bs: seq<Block>, size: nat)
    requires 0 < size < U64 && Allocated(bs, size).got != []
    ensures var n, at := RoundedUp(size), Allocated(bs, size).got[0].0 - HEADER;
      && (forall k: nat | Fitting(bs, k, n) && (forall i: nat | i < k :: !Fitting(bs, i, n)) :: at == Addr(bs, k))
      && ((forall k: nat :: !Fitting(bs, k, n)) ==> at >= 0 && LowestRun(bs, at, n))
  {
    hide Addr, Merged, RoundedUp, LowestRun, HasRun;
    var n := RoundedUp(size);
    var f := FirstFit(bs, n);
    if f < |bs| {
      assert Fitting(bs, f, n);
      forall k: nat | Fitting(bs, k, n) && (forall i: nat | i < k :: !Fitting(bs, i, n)) ensures k == f {
        assert !(f < k) && !(k < f);
      }
    } else {
      forall k: nat ensures !Fitting(bs, k, n) {
      }
      MergedKeeps(bs, n);
      MergedApart(bs);
      FitIsLowest(Merged(bs), n);
    }
  }

  /** A request for no bytes fits into any free block. */
  lemma {:induction false} AnyFreeFits(bs: seq<Block>)
    ensures HasRun(bs, 0) ==> FirstFit(bs, 0) < |bs|
  {
    if HasRun(bs, 0) {
      var i: nat, j: nat :| FreeRun(bs, i, j, 0);
      assert bs[i].free;
    }
  }

  // ----- runs of calls

  datatype Call = Malloc(size: nat) | Free(p: (nat, nat))

  /** The block behind a live payload. */
  ghost function BlockOf(bs: seq<Block>, p: (nat, nat)): (i: nat)
    requires p in Live(bs)
    ensures i < |bs| && !bs[i].free && Payload(bs, i) == p
  {
    var i :| 0 <= i < |bs| && !bs[i].free && p == Payload(bs, i);
    i
  }

  /** Callers ask for 64-bit sizes and free what they hold. */
  ghost predicate Proper(held: set<(nat, nat)>, call: Call) {
    if call.Malloc? then call.size < U64 else call.p in held
  }

  /** The buffer is tiled by blocks, and the live payloads are those that callers hold. */
  ghost predicate Accounts(bs: seq<Block>, capacity: nat, held: set<(nat, nat)>) {
    Extent(bs) == capacity && Aligned(bs) && Live(bs) == held
  }

  ghost function After(bs: seq<Block>, held: set<(nat, nat)>, call: Call): (seq<Block>, set<(nat, nat)>)
    requires Live(bs) == held && Proper(held, call)
  {
    match call
    case Malloc(size) =>
      var r := Allocated(bs, size);
      (r.blocks, held + set p | p in r.got)
    case Free(p) =>
      // A payload at the end of the buffer is refused as out of range, and stays.
      if p.0 < Extent(bs) then (Freed(bs, BlockOf(bs, p)), held - {p}) else (bs, held)
  }

  lemma {:induction false} CallKeeps(bs: seq<Block>, capacity: nat, held: set<(nat, nat)>, call: Call)
    requires Accounts(bs, capacity, held) && Proper(held, call)
    ensures var (bs', held') := After(bs, held, call); Accounts(bs', capacity, held')
  {
    hide Addr, Aligned, HasRun, Merged, RoundedUp, FirstFit;
    match call
    case Malloc(size) =>
      if size > 0 {
        AllocatedIs(bs, size);
      }
    case Free(p) => FreedKeeps(bs, BlockOf(bs, p));
  }

  ghost predicate ProperRun(bs: seq<Block>, capacity: nat, held: set<(nat, nat)>, calls: seq<Call>)
    requires Accounts(bs, capacity, held)
    decreases |calls|
  {
    calls == [] || (
      && Proper(held, calls[0])
      && (CallKeeps(bs, capacity, held, calls[0]);
          var (bs', held') := After(bs, held, calls[0]);
          ProperRun(bs', capacity, held', calls[1..])))
  }

  ghost function AfterRun(bs: seq<Block>, capacity: nat, held: set<(nat, nat)>, calls: seq<Call>)
    : (r: (seq<Block>, set<(nat, nat)>))
    requires Accounts(bs, capacity, held) && ProperRun(bs, capacity, held, calls)
    ensures Accounts(r.0, capacity, r.1)
    decreases |calls|
  {
    if calls == [] then (bs, held)
    else
      CallKeeps(bs, capacity, held, calls[0]);
      var (bs', held') := After(bs, held, calls[0]);
      AfterRun(bs', capacity, held', calls[1..])
  }

  /** After every run of calls, what callers hold lies within the buffer, aligned and apart. */
  lemma {:induction false} RunsKeepApart(bs: seq<Block>, capacity: nat, calls: seq<Call>, p: (nat, nat), q: (nat, nat))
    requires Accounts(bs, capacity, {}) && ProperRun(bs, capacity, {}, calls)
    requires var (bs', held) := AfterRun(bs, capacity, {}, calls); p in held && q in held
    ensures HEADER <= p.0 && p.0 + p.1 <= capacity && p.0 % ALIGNMENT == 0
    ensures p == q || p.0 + p.1 <= q.0 || q.0 + q.1 <= p.0
  {
    hide Addr, Live, Aligned, AfterRun, ProperRun;
    var (bs', held) := AfterRun(bs, capacity, {}, calls);
    LiveDisjoint(bs', p, q);
    AlignedAddr(bs', BlockOf(bs', p));
  }
}
