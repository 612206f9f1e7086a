/** The allocator of `std/mm.c`: block headers inside one buffer, linked by address. */
module Mm {
  import opened Blocks

  datatype Link = Null | To(at: nat)

  datatype Header = Header(size: nat, free: bool, next: Link)

  ghost function HeaderOf(bs: seq<Block>, i: nat): Header
    requires i < |bs|
  {
    Header(bs[i].size, bs[i].free, if i + 1 < |bs| then To(Addr(bs, i + 1)) else Null)
  }

  ghost predicate IsHead(bs: seq<Block>, x: int) {
    exists i :: 0 <= i < |bs| && Addr(bs, i) == x
  }

  /** Every block has its header in memory. Other headers, left behind by coalescing, are free. */
  ghost predicate Stores(h: map<int, Header>, bs: seq<Block>) {
    && (forall i | 0 <= i < |bs| :: Addr(bs, i) in h && h[Addr(bs, i)] == HeaderOf(bs, i))
    && (forall x | x in h && !h[x].free :: IsHead(bs, x))
  }

  /** Outside the replaced blocks, every header stays where it is and as it is. */
  lemma {:induction false} HeaderStays(a: seq<Block>, was: seq<Block>, mid: seq<Block>, c: seq<Block>, k: nat)
    requires Extent(was) == Extent(mid) && was != [] && mid != []
    requires k < |a + mid + c| && (k < |a| || |a| + |mid| <= k)
    ensures var k' := if k < |a| then k else k - |mid| + |was|;
      && k' < |a + was + c|
      && Addr(a + mid + c, k) == Addr(a + was + c, k') && HeaderOf(a + mid + c, k) == HeaderOf(a + was + c, k')
    ensures Addr(a + mid + c, k) < Extent(a) || Addr(a + mid + c, k) >= Extent(a) + Extent(was)
  {
    hide Addr;
    var x := if k < |a| then k else k - |a| - |mid|;
    AddrReplaced(a, was, mid, c, x);
    AddrReplaced(a, was, mid, c, x + 1);
    AddrReplaced(a, was, mid, c, |a|);
    AddrReplaced(a, was, mid, c, 0);
    AddrConcat(a, mid, |mid|);
    AddrConcat(a + mid, c, 0);
    if k < |a| {
      AddrAscends(a + mid + c, k, |a|);
    } else if |a| + |mid| < k {
      AddrAscends(a + mid + c, |a| + |mid|, k);
    }
  }

  lemma {:induction false} HeadInside(a: seq<Block>, was: seq<Block>, c: seq<Block>, k: nat)
    requires |a| < k < |a| + |was|
    ensures Extent(a) < Addr(a + was + c, k) < Extent(a) + Extent(was)
  {
    AddrConcat(a + was, c, k);
    AddrConcat(a, was, k - |a|);
    AddrAscends(was, 0, k - |a|);
    AddrAscends(was, k - |a|, |was|);
  }

  /** The headers in `upd` replace those of `was` in memory; all blocks but the first of either
      are free. */
  lemma {:induction false} StoresSwapped(h: map<int, Header>, upd: map<int, Header>, a: seq<Block>, was: seq<Block>,
    mid: seq<Block>, c: seq<Block>)
    requires Extent(was) == Extent(mid) && was != [] && mid != [] && Stores(h, a + was + c)
    requires forall k | |a| < k < |a| + |was| :: (a + was + c)[k].free
    requires forall x | x in upd :: Extent(a) <= x < Extent(a) + Extent(was) && (upd[x].free || x == Extent(a))
    requires forall k | |a| <= k < |a| + |mid| ::
      Addr(a + mid + c, k) in upd && upd[Addr(a + mid + c, k)] == HeaderOf(a + mid + c, k)
    ensures Stores(h + upd, a + mid + c)
  {
    hide Addr, IsHead, HeaderOf;
    var h', bs, bs' := h + upd, a + was + c, a + mid + c;
    forall k | 0 <= k < |bs'| ensures Addr(bs', k) in h' && h'[Addr(bs', k)] == HeaderOf(bs', k) {
      if k < |a| || |a| + |mid| <= k {
        HeaderStays(a, was, mid, c, k);
      }
    }
    forall x | x in h' && !h'[x].free ensures IsHead(bs', x) {
      HeadStays(a, was, mid, c, x);
      if x !in upd {
        NotInside(h, a, was, c, x);
      }
    }
  }

  lemma {:induction false} NotInside(h: map<int, Header>, a: seq<Block>, was: seq<Block>, c: seq<Block>, x: int)
    requires Stores(h, a + was + c) && was != [] && x in h && !h[x].free
    requires forall k | |a| < k < |a| + |was| :: (a + was + c)[k].free
    ensures IsHead(a + was + c, x) && (x <= Extent(a) || x >= Extent(a) + Extent(was))
  {
    hide Addr, HeaderOf;
    var bs := a + was + c;
    var k: nat :| k < |bs| && Addr(bs, k) == x;
    assert h[x] == HeaderOf(bs, k);
    HeaderFields(bs, k);
    HeadOutside(a, was, c, k);
  }

  lemma {:induction false} HeadOutside(a: seq<Block>, was: seq<Block>, c: seq<Block>, k: nat)
    requires k < |a + was + c|
    ensures k <= |a| ==> Addr(a + was + c, k) <= Extent(a)
    ensures k >= |a| + |was| ==> Addr(a + was + c, k) >= Extent(a) + Extent(was)
  {
    var bs := a + was + c;
    AddrConcat(a + was, c, |a|);
    AddrConcat(a, was, |a|);
    AddrConcat(a, was, |was|);
    AddrConcat(a + was, c, |a| + |was|);
    if k < |a| {
      AddrAscends(bs, k, |a|);
    } else if |a| + |was| < k {
      AddrAscends(bs, |a| + |was|, k);
    }
  }

  lemma HeaderFields(bs: seq<Block>, i: nat)
    requires i < |bs|
    ensures HeaderOf(bs, i).size == bs[i].size && HeaderOf(bs, i).free == bs[i].free
  {
  }

  lemma {:induction false} HeadStays(a: seq<Block>, was: seq<Block>, mid: seq<Block>, c: seq<Block>, x: int)
    requires Extent(was) == Extent(mid) && was != [] && mid != []
    ensures x == Extent(a) ==> IsHead(a + mid + c, x)
    ensures IsHead(a + was + c, x) && (x < Extent(a) || x >= Extent(a) + Extent(was)) ==> IsHead(a + mid + c, x)
  {
    hide Addr;
    var bs, bs' := a + was + c, a + mid + c;
    AddrReplaced(a, was, mid, c, |a|);
    assert Addr(bs', |a|) == Extent(a);
    if IsHead(bs, x) && (x < Extent(a) || x >= Extent(a) + Extent(was)) {
      var k :| 0 <= k < |bs| && Addr(bs, k) == x;
      if |a| < k < |a| + |was| {
        HeadInside(a, was, c, k);
      } else if k != |a| {
        HeaderStays(a, mid, was, c, k);
      }
    }
  }

  /** The headers that taking, freeing or joining writes. */
  ghost function TakenHeaders(at: nat, b: Header, n: nat): map<int, Header> {
    if b.size >= n + HEADER
    then map[at + HEADER + n := Header(b.size - n - HEADER, true, b.next), at := Header(n, false, To(at + HEADER + n))]
    else map[at := b.(free := false)]
  }

  /** What `mid` in place of the blocks from `i` up to `j` needs in memory. */
  lemma {:induction false} HeadersOfMid(bs: seq<Block>, i: nat, j: nat, mid: seq<Block>, bs': seq<Block>)
    requires i < j <= |bs| && mid != [] && Extent(mid) == Addr(bs, j) - Addr(bs, i)
    requires bs' == bs[..i] + mid + bs[j..]
    ensures var last := HeaderOf(bs, j - 1);
      && Extent(bs[..i]) == Addr(bs, i) == Addr(bs', i)
      && HeaderOf(bs', i + |mid| - 1) == Header(mid[|mid| - 1].size, mid[|mid| - 1].free, last.next)
      && (|mid| == 2 ==> Addr(bs', i + 1) == Addr(bs, i) + HEADER + mid[0].size
                         && HeaderOf(bs', i) == Header(mid[0].size, mid[0].free, To(Addr(bs', i + 1))))
  {
    hide Addr;
    Cut(bs, i, j);
    Swapped(bs, i, j, mid);
    AddrReplaced(bs[..i], bs[i..j], mid, bs[j..], 0);
    AddrStep(bs', i);
    assert bs'[i] == mid[0] && bs'[i + |mid| - 1] == mid[|mid| - 1];
  }

  lemma TakenHeadersAre(h: map<int, Header>, at: nat, b: Header, n: nat)
    ensures h + TakenHeaders(at, b, n) ==
      if b.size >= n + HEADER
      then h[at + HEADER + n := Header(b.size - n - HEADER, true, b.next)][at := Header(n, false, To(at + HEADER + n))]
      else h[at := b.(free := false)]
  {
  }

  lemma Written(h: map<int, Header>, at: nat, b: Header)
    ensures h + map[at := b] == h[at := b]
  {
  }

  /** The header of block `i`. */
  lemma InMemory(h: map<int, Header>, bs: seq<Block>, i: nat)
    requires Stores(h, bs) && i < |bs|
    ensures Addr(bs, i) in h
    ensures h[Addr(bs, i)] == Header(bs[i].size, bs[i].free, if i + 1 < |bs| then To(Addr(bs, i + 1)) else Null)
  {
    hide Addr;
  }

  lemma {:induction false} StoresTaken(h: map<int, Header>, bs: seq<Block>, i: nat, n: nat)
    requires Stores(h, bs) && i < |bs| && bs[i].free && bs[i].size >= n
    ensures Stores(h + TakenHeaders(Addr(bs, i), h[Addr(bs, i)], n), Taken(bs, i, n))
  {
    hide Addr, HeaderOf, IsHead;
    var at, mid, bs' := Addr(bs, i), Parts(bs[i], n), Taken(bs, i, n);
    assert h[at] == HeaderOf(bs, i) == Header(bs[i].size, true, HeaderOf(bs, i).next) by {
      HeaderFields(bs, i);
    }
    PartsSame(bs[i], n);
    OneBlock(bs[i]);
    Cut(bs, i, i + 1);
    assert bs[i..i + 1] == [bs[i]];
    AddrStep(bs, i);
    HeadersOfMid(bs, i, i + 1, mid, bs');
    StoresSwapped(h, TakenHeaders(at, h[at], n), bs[..i], [bs[i]], mid, bs[i + 1..]);
  }

  lemma {:induction false} StoresFreed(h: map<int, Header>, bs: seq<Block>, i: nat)
    requires Stores(h, bs) && i < |bs|
    ensures Stores(h + map[Addr(bs, i) := h[Addr(bs, i)].(free := true)], Freed(bs, i))
  {
    hide Addr, HeaderOf, IsHead;
    var at, mid := Addr(bs, i), [Block(bs[i].size, true)];
    assert h[at] == HeaderOf(bs, i);
    HeaderFields(bs, i);
    OneBlock(bs[i]);
    OneBlock(mid[0]);
    Cut(bs, i, i + 1);
    assert bs[i..i + 1] == [bs[i]];
    AddrStep(bs, i);
    HeadersOfMid(bs, i, i + 1, mid, Freed(bs, i));
    StoresSwapped(h, map[at := h[at].(free := true)], bs[..i], [bs[i]], mid, bs[i + 1..]);
  }

  lemma {:induction false} StoresJoined(h: map<int, Header>, bs: seq<Block>, i: nat)
    requires Stores(h, bs) && Mergeable(bs, i)
    ensures var b, c := h[Addr(bs, i)], h[Addr(bs, i + 1)];
      Stores(h + map[Addr(bs, i) := Header(b.size + HEADER + c.size, b.free, c.next)], Joined(bs, i))
  {
    hide Addr, HeaderOf, IsHead;
    var at, x, y := Addr(bs, i), bs[i], bs[i + 1];
    var mid := [Block(x.size + HEADER + y.size, true)];
    assert h[at] == HeaderOf(bs, i) && h[Addr(bs, i + 1)] == HeaderOf(bs, i + 1);
    HeaderFields(bs, i);
    HeaderFields(bs, i + 1);
    PairSame(x, y);
    OneBlock(mid[0]);
    Cut(bs, i, i + 2);
    assert bs[i..i + 2] == [x, y];
    HeadersOfMid(bs, i, i + 2, mid, Joined(bs, i));
    StoresSwapped(h, map[at := Header(x.size + HEADER + y.size, true, h[Addr(bs, i + 1)].next)],
      bs[..i], [x, y], mid, bs[i + 2..]);
  }

  lemma {:induction false} JoinedApart(bs: seq<Block>, i: nat)
    requires Mergeable(bs, i) && forall k | 0 <= k < i :: !Mergeable(bs, k)
    ensures forall k | 0 <= k < i :: !Mergeable(Joined(bs, i), k)
  {
    forall k | 0 <= k < i ensures !Mergeable(Joined(bs, i), k) {
      assert !Mergeable(bs, k);
    }
  }

  lemma AddrStart(bs: seq<Block>)
    ensures Addr(bs, 0) == 0
  {
  }

  datatype Pointer = NullPointer | Pointer(at: int)

  /** The pointer was handed out with block `i`, which is in use. */
  ghost predicate Owned(bs: seq<Block>, i: nat, ptr: Pointer) {
    i < |bs| && !bs[i].free && ptr == Pointer(Payload(bs, i).0)
  }

  /** The header in front of a pointer tells whether the pointer is owned, and by which block. */
  lemma {:induction false} OwnedIs(h: map<int, Header>, bs: seq<Block>, ptr: Pointer)
    requires Stores(h, bs)
    ensures (exists i: nat :: Owned(bs, i, ptr)) <==> ptr.Pointer? && ptr.at - HEADER in h && !h[ptr.at - HEADER].free
    ensures forall i: nat, j: nat | Owned(bs, i, ptr) && Owned(bs, j, ptr) :: i == j
    ensures forall i: nat | Owned(bs, i, ptr) :: h[ptr.at - HEADER].size == bs[i].size && ptr.at >= HEADER
  {
    hide Addr;
    forall i: nat, j: nat | Owned(bs, i, ptr) && Owned(bs, j, ptr) ensures i == j {
      if i < j {
        AddrAscends(bs, i, j);
      } else if j < i {
        AddrAscends(bs, j, i);
      }
    }
    if ptr.Pointer? && ptr.at - HEADER in h && !h[ptr.at - HEADER].free {
      var i: nat :| i < |bs| && Addr(bs, i) == ptr.at - HEADER;
      assert Owned(bs, i, ptr);
    }
  }

  /** A payload in use lies past the end of the buffer, where `_free_s` refuses it, exactly when it
      is the last one and has no bytes. */
  lemma {:induction false} RefusedIff(bs: seq<Block>, i: nat)
    requires i < |bs|
    ensures Payload(bs, i).0 >= Extent(bs) <==> i == |bs| - 1 && bs[i].size == 0
  {
    AddrStep(bs, i);
    if i < |bs| - 1 {
      AddrAscends(bs, i + 1, |bs|);
    }
  }

  /** Such a payload can be had: one request takes all but a header, and then one of the seven
      largest sizes takes the block of no bytes behind it. */
  lemma {:induction false} RefusedIsReached(capacity: nat, size: nat)
    requires 2 * HEADER + ALIGNMENT <= capacity < 0x8000_0000 && capacity % ALIGNMENT == 0
    requires U64 - ALIGNMENT < size < U64
    ensures var r := Allocated(Allocated([Block(capacity - HEADER, true)], capacity - 2 * HEADER).blocks, size);
      r.got == [(capacity, 0)] && Owned(r.blocks, 1, Pointer(capacity))
  {
    hide Merged;
    var n := capacity - 2 * HEADER;
    var bs := [Block(capacity - HEADER, true)];
    var bs' := [Block(n, false), Block(0, true)];
    assert RoundedUp(n) == n && RoundedUp(size) == 0;
    assert FirstFit(bs, n) == 0 && Taken(bs, 0, n) == bs';
    assert FirstFit(bs', 0) == 1 by {
      assert bs'[1..][0] == Block(0, true);
    }
    assert Addr(bs', 0) == 0 && Addr(bs', 1) == HEADER + n;
    var bs'' := Taken(bs', 1, 0);
    assert bs'' == [Block(n, false), Block(0, false)];
    assert Addr(bs'', 0) == 0 && Addr(bs'', 1) == HEADER + n;
  }

  class Heap {
    const capacity: nat
    var headers: map<int, Header>
    var taken: int
    ghost var blocks: seq<Block>

    /** The blocks tile the buffer, and `taken`, the source's `_allocated`, counts what is in use. */
    ghost predicate Valid()
      reads this
    {
      && blocks != [] && Extent(blocks) == capacity < 0x8000_0000 && Aligned(blocks)
      && Stores(headers, blocks) && taken == Used(blocks)
    }

    /** `_mm_init`: one free block. */
    constructor (capacity: nat)
      requires HEADER <= capacity < 0x8000_0000 && capacity % ALIGNMENT == 0
      ensures Valid() && this.capacity == capacity && blocks == [Block(capacity - HEADER, true)]
      ensures Accounts(blocks, capacity, {})
    {
      this.capacity := capacity;
      headers := map[0 := Header(capacity - HEADER, true, Null)];
      taken := 0;
      blocks := [Block(capacity - HEADER, true)];
      new;
      OneBlock(blocks[0]);
      assert Addr(blocks, 0) == 0;
    }

    /** Block `i` is handed out, and split if the rest has room for a header. */
    method Take(at: nat, size: nat, ghost i: nat) returns (ptr: Pointer)
      requires Valid() && i < |blocks| && at == Addr(blocks, i)
      requires blocks[i].free && blocks[i].size >= size && size % ALIGNMENT == 0
      modifies this
      ensures Valid() && blocks == Taken(old(blocks), i, size) && ptr == Pointer(at + HEADER)
    {
      hide Addr, Aligned, Used, Live, Stores, TakenHeaders, Extent;
      InMemory(headers, blocks, i);
      StoresTaken(headers, blocks, i, size);
      TakenKeeps(blocks, i, size);
      TakenHeadersAre(headers, at, headers[at], size);
      var b := headers[at];
      if b.size >= size + HEADER {
        headers := headers[at + HEADER + size := Header(b.size - size - HEADER, true, b.next)];
        b := Header(size, b.free, To(at + HEADER + size));
      }
      headers := headers[at := b.(free := false)];
      taken := taken + b.size + HEADER;
      blocks := Taken(blocks, i, size);
      ptr := Pointer(at + HEADER);
    }

    /** The walk of `__malloc_s` over the blocks. */
    method Fit(size: nat) returns (ptr: Pointer)
      requires Valid() && size % ALIGNMENT == 0
      modifies this
      ensures Valid() && blocks == Fitted(old(blocks), size).blocks
      ensures var got := Fitted(old(blocks), size).got; ptr == if got == [] then NullPointer else Pointer(got[0].0)
    {
      hide Aligned, Used;
      ghost var i: nat := 0;
      var current := To(0);
      assert Addr(blocks, 0) == 0;
      while current != Null
        invariant current == if i < |blocks| then To(Addr(blocks, i)) else Null
        invariant i <= FirstFit(blocks, size) && Valid() && blocks == old(blocks)
        decreases |blocks| - i
      {
        var b := headers[current.at];
        assert b == HeaderOf(blocks, i);
        if b.free && b.size >= size {
          ptr := Take(current.at, size, i);
          return;
        }
        current := b.next;
        i := i + 1;
      }
      return NullPointer;
    }

    /** Free neighbours become one. */
    method Join(at: nat, ghost i: nat)
      requires Valid() && Mergeable(blocks, i) && at == Addr(blocks, i)
      modifies this
      ensures Valid() && blocks == Joined(old(blocks), i)
    {
      hide Addr, Aligned, Used, Live, Stores, Extent;
      InMemory(headers, blocks, i);
      InMemory(headers, blocks, i + 1);
      StoresJoined(headers, blocks, i);
      JoinedKeeps(blocks, i);
      var b := headers[at];
      var n := headers[b.next.at];
      Written(headers, at, Header(b.size + HEADER + n.size, b.free, n.next));
      headers := headers[at := Header(b.size + HEADER + n.size, b.free, n.next)];
      blocks := Joined(blocks, i);
    }

    /** `__coalesce_memory` */
    method Coalesce()
      requires Valid()
      modifies this
      ensures Valid() && blocks == Merged(old(blocks))
    {
      var merged := true;
      while merged
        invariant Valid() && Merged(blocks) == Merged(old(blocks))
        invariant !merged ==> forall k: nat :: !Mergeable(blocks, k)
        decreases |blocks|, merged
      {
        merged := Sweep();
      }
      MergedFix(blocks);
    }

    /** One walk over the blocks; reports whether it joined any. */
    method Sweep() returns (merged: bool)
      requires Valid()
      modifies this
      ensures Valid() && Merged(blocks) == Merged(old(blocks)) && forall k: nat :: !Mergeable(blocks, k)
      ensures if merged then |blocks| < |old(blocks)| else blocks == old(blocks)
    {
      hide Aligned, Used, Merged, Addr, Stores, Joined;
      AddrStart(blocks);
      InMemory(headers, blocks, 0);
      merged := false;
      var current: nat := 0;
      ghost var i: nat := 0;
      while headers[current].next != Null
        invariant Valid() && i < |blocks| && current == Addr(blocks, i) && current in headers
        invariant headers[current] == Header(blocks[i].size, blocks[i].free,
          if i + 1 < |blocks| then To(Addr(blocks, i + 1)) else Null)
        invariant Merged(blocks) == Merged(old(blocks))
        invariant forall k | 0 <= k < i :: !Mergeable(blocks, k)
        invariant if merged then |blocks| < |old(blocks)| else blocks == old(blocks)
        decreases |blocks| - i
      {
        var next := headers[current].next.at;
        InMemory(headers, blocks, i + 1);
        if headers[current].free && headers[next].free {
          MergedJoined(blocks, i);
          JoinedAddr(blocks, i, i);
          JoinedApart(blocks, i);
          Join(current, i);
          InMemory(headers, blocks, i);
          merged := true;
        } else {
          current := next;
          i := i + 1;
        }
      }
    }

    /** `_malloc_s`, with the lock of the allocator at hand. */
    method Malloc(size: nat) returns (ptr: Pointer)
      requires Valid() && size < U64
      modifies this
      ensures Valid() && blocks == Allocated(old(blocks), size).blocks
      ensures var got := Allocated(old(blocks), size).got; ptr == if got == [] then NullPointer else Pointer(got[0].0)
      ensures size == 0 ==> ptr == NullPointer && blocks == old(blocks)
    {
      hide Addr, Aligned, Used, Merged;
      if size == 0 {
        return NullPointer;
      }
      var n := RoundedUp(size);
      RoundedUpIs(size);
      ptr := Fit(n);
      if ptr == NullPointer && n != 0 {
        Coalesce();
        ptr := Fit(n);
      }
    }

    /** `_free_s`: a pointer to a live payload frees its block; any other pointer changes nothing. */
    method Free(ptr: Pointer)
      requires Valid()
      modifies this
      ensures Valid()
      ensures forall i | Owned(old(blocks), i, ptr) && ptr.at < capacity :: blocks == Freed(old(blocks), i)
      ensures (forall i :: !Owned(old(blocks), i, ptr)) || ptr.at >= capacity ==>
        blocks == old(blocks) && headers == old(headers)
    {
      hide Addr, Aligned, Used, Live, Extent, Stores;
      OwnedIs(headers, blocks, ptr);
      if ptr == NullPointer || ptr.at < 0 || ptr.at >= capacity {
        return;
      }
      var at := ptr.at - HEADER;
      if at !in headers || headers[at].free {
        return;
      }
      ghost var i: nat :| Owned(blocks, i, ptr);
      StoresFreed(headers, blocks, i);
      FreedKeeps(blocks, i);
      var b := headers[at];
      Written(headers, at, b.(free := true));
      headers := headers[at := b.(free := true)];
      taken := taken - (b.size + HEADER);
      blocks := Freed(blocks, i);
    }
  }
}
