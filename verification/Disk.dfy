/** Reads and writes of a range of sectors (`src/disk.c`). The platform's callbacks are modelled
    as copies; parameters tell which of them fail, and whether the lock of the table of areas could
    be taken. */
module Disk {
  import opened Arith
  import opened Hamming
  import opened Streams
  import opened AreaLocks

  /** The loops call the platform for sector `i` of the range when they transfer `n` bytes from
      `offset` on. The last sector before the first byte is called too, for no bytes. */
  predicate Called(sectorSize: nat, offset: nat, n: nat, i: nat) {
    n > 0 && i * sectorSize < offset + n && offset <= (i + 1) * sectorSize
  }

  /** The first sector from `i` on whose call fails, or `sc`. */
  function FirstFailure(sectorSize: nat, offset: nat, n: nat, io: nat -> bool, i: nat, sc: nat): (k: nat)
    requires i <= sc
    ensures i <= k <= sc && (k < sc ==> Called(sectorSize, offset, n, k) && !io(k))
    ensures forall j | i <= j < k :: Called(sectorSize, offset, n, j) ==> io(j)
    decreases sc - i
  {
    if i == sc || (Called(sectorSize, offset, n, i) && !io(i)) then i
    else FirstFailure(sectorSize, offset, n, io, i + 1, sc)
  }

  /** How many bytes are transferred before a call fails. */
  function Transferred(sectorSize: nat, offset: nat, n: nat, io: nat -> bool, sc: nat): (r: nat)
    ensures r <= n
  {
    var k := FirstFailure(sectorSize, offset, n, io, 0, sc);
    if k == sc then n else if k * sectorSize <= offset then 0 else k * sectorSize - offset
  }

  /** Every call succeeds. */
  ghost predicate NoFailure(sectorSize: nat, offset: nat, n: nat, io: nat -> bool, sc: nat) {
    forall i | 0 <= i < sc && Called(sectorSize, offset, n, i) :: io(i)
  }

  /** A loop that stands at sector `i` and has done `total` of `n` bytes. */
  ghost predicate At(sectorSize: nat, offset: nat, n: nat, i: nat, skip: nat, total: nat) {
    && total <= n && (total < n ==> i * sectorSize + skip == offset + total && (total > 0 ==> skip == 0))
    && (total > 0 ==> offset + total <= i * sectorSize)
  }

  lemma AtStart(sectorSize: nat, offset: nat, n: nat)
    ensures At(sectorSize, offset, n, 0, offset, 0)
  {
  }

  lemma {:induction false} AtSkips(sectorSize: nat, offset: nat, n: nat, i: nat, skip: nat, total: nat)
    requires At(sectorSize, offset, n, i, skip, total) && total < n && skip > sectorSize
    ensures At(sectorSize, offset, n, i + 1, skip - sectorSize, total)
  {
    assert (i + 1) * sectorSize == i * sectorSize + sectorSize;
  }

  lemma {:induction false} AtMoves(sectorSize: nat, offset: nat, n: nat, i: nat, skip: nat, total: nat, part: nat)
    requires At(sectorSize, offset, n, i, skip, total) && total < n && skip <= sectorSize
    requires part == if n - total > sectorSize - skip then sectorSize - skip else n - total
    ensures i * sectorSize + skip == offset + total && At(sectorSize, offset, n, i + 1, 0, total + part)
  {
    assert (i + 1) * sectorSize == i * sectorSize + sectorSize;
  }

  /** What a loop that has passed all sectors has done. */
  lemma {:induction false} AtEnd(sectorSize: nat, offset: nat, n: nat, sc: nat, skip: nat, total: nat)
    requires At(sectorSize, offset, n, sc, skip, total) && total < n
    ensures offset + total >= sc * sectorSize && (total > 0 ==> offset + total == sc * sectorSize)
  {
  }

  /** The loop calls the platform for the sectors that `Called` names, and no others. */
  lemma {:induction false} CalledIff(sectorSize: nat, offset: nat, n: nat, i: nat, skip: nat, total: nat)
    requires At(sectorSize, offset, n, i, skip, total)
    ensures total < n ==> (Called(sectorSize, offset, n, i) <==> skip <= sectorSize)
    ensures total == n ==> forall j: nat | i <= j :: !Called(sectorSize, offset, n, j)
  {
    assert (i + 1) * sectorSize == i * sectorSize + sectorSize;
    if total == n > 0 {
      forall j: nat | i <= j ensures !Called(sectorSize, offset, n, j) {
        MulMonotone(sectorSize, i, j);
      }
    }
  }

  /** What a failure at sector `i` means for the transfer. */
  lemma {:induction false} FailsAt(sectorSize: nat, offset: nat, n: nat, i: nat, skip: nat, total: nat, io: nat -> bool,
    sc: nat)
    requires At(sectorSize, offset, n, i, skip, total) && total < n
    requires i < sc && Called(sectorSize, offset, n, i) && !io(i)
    requires forall j | 0 <= j < i && Called(sectorSize, offset, n, j) :: io(j)
    ensures !NoFailure(sectorSize, offset, n, io, sc) && Transferred(sectorSize, offset, n, io, sc) == total
  {
    var k := FirstFailure(sectorSize, offset, n, io, 0, sc);
    assert k == i;
  }

  lemma {:induction false} Succeeds(sectorSize: nat, offset: nat, n: nat, io: nat -> bool, sc: nat)
    ensures NoFailure(sectorSize, offset, n, io, sc) ==> Transferred(sectorSize, offset, n, io, sc) == n
  {
  }

  /** Byte `j` is transferred exactly when no call fails up to the sector that it is in. */
  lemma {:induction false} TransferredIff(sectorSize: nat, offset: nat, n: nat, io: nat -> bool, sc: nat, j: nat)
    requires j < n
    ensures j < Transferred(sectorSize, offset, n, io, sc) <==>
      forall i | 0 <= i < sc && Called(sectorSize, offset, n, i) && i * sectorSize <= offset + j :: io(i)
  {
    hide Called;
    var k := FirstFailure(sectorSize, offset, n, io, 0, sc);
    forall i | k <= i < sc ensures k * sectorSize <= i * sectorSize {
      MulMonotone(sectorSize, k, i);
    }
  }

  class Disk {
    const sectorSize: nat
    const areas: AreaTable
    var sectors: seq<seq<Byte>>

    ghost predicate Valid()
      reads this
    {
      areas.Valid() && sectorSize > 0 && Uniform(sectors, sectorSize)
    }

    constructor (sectors: seq<seq<Byte>>, sectorSize: nat)
      requires sectorSize > 0 && Uniform(sectors, sectorSize)
      ensures Valid() && fresh(areas.slots) && Active(areas.slots[..]) == multiset{}
      ensures this.sectors == sectors && this.sectorSize == sectorSize
    {
      this.sectors, this.sectorSize := sectors, sectorSize;
      areas := new AreaTable();
      new;
      IdleTable(areas.slots[..]);
    }

    ghost function Range(sa: nat, sc: nat): (f: seq<Byte>)
      requires Valid() && sa + sc <= |sectors|
      reads this
      ensures |f| == sc * sectorSize
    {
      FlatLength(sectors[sa..sa + sc], sectorSize);
      Flat(sectors[sa..sa + sc])
    }

    // The callbacks `read_sector` and `write_sector`.

    method ReadSector(sa: nat, offset: nat, buffer: array<Byte>, at: nat, size: nat)
      requires Valid() && sa < |sectors| && offset + size <= sectorSize && at + size <= buffer.Length
      modifies buffer
      ensures buffer[..] == Overlay(old(buffer[..]), at, sectors[sa][offset..offset + size])
    {
      forall k | 0 <= k < size {
        buffer[at + k] := sectors[sa][offset + k];
      }
    }

    method WriteSector(sa: nat, offset: nat, data: seq<Byte>)
      requires Valid() && sa < |sectors| && offset + |data| <= sectorSize
      modifies this`sectors
      ensures Valid() && sectors == old(sectors)[sa := Overlay(old(sectors)[sa], offset, data)]
    {
      var s := sectors[sa];
      sectors := sectors[sa := s[..offset] + data + s[offset + |data|..]];
      assert sectors[sa] == Overlay(s, offset, data);
    }

    /** `DSK_readoff_sectors`: if the range can be locked, the bytes from `offset` on, at most
        `size` of them, are put into the buffer, up to the first call that fails. */
    method ReadoffSectors(sa: nat, offset: nat, buffer: array<Byte>, at: nat, size: nat, sc: nat,
                          io: nat -> bool, locked: bool, unlocked: bool) returns (ok: bool)
      requires Valid() && sa + sc <= |sectors| && at + size <= buffer.Length
      modifies buffer, areas.slots
      ensures Valid()
      ensures ok ==
        (locked && Grantable(old(areas.slots[..]), Area(sa, sc, true))
        && NoFailure(sectorSize, offset, size, io, sc))
      ensures var granted := locked && Grantable(old(areas.slots[..]), Area(sa, sc, true));
        && buffer[..] == (if granted
          then Overlay(old(buffer[..]), at, Piece(Range(sa, sc), offset, Transferred(sectorSize, offset, size, io, sc)))
          else old(buffer[..]))
        && areas.slots[..] == (if granted
          then After(old(areas.slots[..]), Area(sa, sc, true), unlocked)
          else old(areas.slots[..]))
    {
      hide Grantable, Granted, Released, Overlay, Piece, Flat, NoFailure, Transferred;
      ok := areas.Lock(sa, sc, true, locked);
      if ok {
        ok := ReadRange(sa, offset, buffer, at, size, sc, io);
        var _ := areas.Unlock(sa, sc, unlocked);
      }
    }

    method ReadRange(sa: nat, offset: nat, buffer: array<Byte>, at: nat, size: nat, sc: nat, io: nat -> bool)
      returns (ok: bool)
      requires Valid() && sa + sc <= |sectors| && at + size <= buffer.Length
      modifies buffer
      ensures ok == NoFailure(sectorSize, offset, size, io, sc)
      ensures buffer[..] ==
        Overlay(old(buffer[..]), at, Piece(Range(sa, sc), offset, Transferred(sectorSize, offset, size, io, sc)))
    {
      hide Overlay, Transferred, Called, At;
      ghost var f := Range(sa, sc);
      OverlayNothing(buffer[..]);
      Succeeds(sectorSize, offset, size, io, sc);
      var i: nat, skip: nat, left: nat, total: nat := 0, offset, size, 0;
      AtStart(sectorSize, offset, size);
      while i < sc && left > 0
        invariant i <= sc && total + left == size && At(sectorSize, offset, size, i, skip, total)
        invariant total > 0 ==> offset + total <= |f|
        invariant buffer[..] == Overlay(old(buffer[..]), at, Upto(f, offset, total))
        invariant forall j | 0 <= j < i && Called(sectorSize, offset, size, j) :: io(j)
      {
        CalledIff(sectorSize, offset, size, i, skip, total);
        if skip > sectorSize {
          AtSkips(sectorSize, offset, size, i, skip, total);
          skip := skip - sectorSize;
        } else {
          var part := if left > sectorSize - skip then sectorSize - skip else left;
          if !io(i) {
            FailsAt(sectorSize, offset, size, i, skip, total, io, sc);
            assert Piece(f, offset, total) == Upto(f, offset, total);
            return false;
          }
          AtMoves(sectorSize, offset, size, i, skip, total, part);
          ReadSector(sa + i, skip, buffer, at + total, part);
          ReadStep(sectors[sa..sa + sc], sectorSize, i, skip, part, old(buffer[..]), at, offset, total);
          total, left, skip := total + part, left - part, 0;
        }
        i := i + 1;
      }
      CalledIff(sectorSize, offset, size, i, skip, total);
      if left > 0 {
        AtEnd(sectorSize, offset, size, i, skip, total);
      }
      assert Piece(f, offset, size) == Upto(f, offset, total);
      return true;
    }

    /** `DSK_writeoff_sectors`: if the range can be locked, the data is written over it from
        `offset` on, up to the first call that fails; no other sector changes. */
    method WriteoffSectors(sa: nat, offset: nat, data: seq<Byte>, sc: nat, io: nat -> bool,
      locked: bool, unlocked: bool)
      returns (ok: bool)
      requires Valid() && sa + sc <= |sectors|
      modifies this`sectors, areas.slots
      ensures Valid() && |sectors| == |old(sectors)|
      ensures ok ==
        (locked && Grantable(old(areas.slots[..]), Area(sa, sc, false))
        && NoFailure(sectorSize, offset, |data|, io, sc))
      ensures sectors[..sa] == old(sectors)[..sa] && sectors[sa + sc..] == old(sectors)[sa + sc..]
      ensures var granted := locked && Grantable(old(areas.slots[..]), Area(sa, sc, false));
        && Range(sa, sc) == (if granted
          then Overlay(old(Range(sa, sc)), offset, data[..Transferred(sectorSize, offset, |data|, io, sc)])
          else old(Range(sa, sc)))
        && areas.slots[..] == (if granted
          then After(old(areas.slots[..]), Area(sa, sc, false), unlocked)
          else old(areas.slots[..]))
    {
      hide Grantable, Granted, Released, Overlay, Flat, NoFailure, Transferred;
      ok := areas.Lock(sa, sc, false, locked);
      if ok {
        ok := WriteRange(sa, offset, data, sc, io);
        var _ := areas.Unlock(sa, sc, unlocked);
      }
    }

    method WriteRange(sa: nat, offset: nat, data: seq<Byte>, sc: nat, io: nat -> bool) returns (ok: bool)
      requires Valid() && sa + sc <= |sectors|
      modifies this`sectors
      ensures Valid() && |sectors| == |old(sectors)| && ok == NoFailure(sectorSize, offset, |data|, io, sc)
      ensures sectors[..sa] == old(sectors)[..sa] && sectors[sa + sc..] == old(sectors)[sa + sc..]
      ensures Range(sa, sc) ==
        Overlay(old(Range(sa, sc)), offset, data[..Transferred(sectorSize, offset, |data|, io, sc)])
    {
      hide Transferred, Called, At, Overlay, Flat;
      ghost var f, n := Range(sa, sc), |data|;
      Succeeds(sectorSize, offset, n, io, sc);
      var i: nat, skip: nat, left: nat, total: nat := 0, offset, |data|, 0;
      AtStart(sectorSize, offset, n);
      OverlayNothing(f);
      assert data[..0] == [];
      while i < sc && left > 0
        invariant Valid() && |sectors| == |old(sectors)|
        invariant i <= sc && total + left == n && At(sectorSize, offset, n, i, skip, total)
        invariant sectors[..sa] == old(sectors)[..sa] && sectors[sa + sc..] == old(sectors)[sa + sc..]
        invariant Range(sa, sc) == Overlay(f, offset, data[..total])
        invariant forall j | 0 <= j < i && Called(sectorSize, offset, n, j) :: io(j)
      {
        CalledIff(sectorSize, offset, n, i, skip, total);
        if skip > sectorSize {
          AtSkips(sectorSize, offset, n, i, skip, total);
          skip := skip - sectorSize;
        } else {
          var part := if left > sectorSize - skip then sectorSize - skip else left;
          if !io(i) {
            FailsAt(sectorSize, offset, n, i, skip, total, io, sc);
            return false;
          }
          AtMoves(sectorSize, offset, n, i, skip, total, part);
          ghost var before := sectors[sa..sa + sc];
          WriteSector(sa + i, skip, data[total..total + part]);
          assert sectors[sa..sa + sc] == before[i := Overlay(before[i], skip, data[total..total + part])];
          WriteStep(before, sectorSize, i, skip, part, f, data, offset, total);
          total, left, skip := total + part, left - part, 0;
        }
        i := i + 1;
      }
      CalledIff(sectorSize, offset, n, i, skip, total);
      if left > 0 {
        AtEnd(sectorSize, offset, n, i, skip, total);
        OverlayBeyond(f, offset, data, total);
      }
      assert data[..n] == data;
      return true;
    }
  }
}
