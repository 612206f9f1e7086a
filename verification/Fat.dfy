/** `src/fat.c`: the table in memory and on disk, changed in place. Each method is proved to do to
    the abstract table what the functions of `FatTable` say. The outcomes of the disk accesses are
    parameters: `rd[i]` and `wr[i]` tell whether copy `i` can be read and written. */
module Fat {
  import opened Hamming
  import opened Vote
  import opened FatTable
  import FatMap
  import FatRuns

  function Store(copy: seq<Cell>, ca: nat, cell: Cell): seq<Cell>
    requires ca < |copy|
  {
    copy[ca := cell]
  }

  class Fat {
    const count: nat
    const root: nat
    const total: nat
    const cached: bool
    const cache: array<nat>
    const bitmap: FatMap.FatMap
    var disk: seq<seq<Cell>>

    ghost predicate Valid()
      reads this
    {
      && bitmap.Valid() && bitmap.total == total && cache.Length == total
      && |disk| == count && forall i | 0 <= i < count :: |disk[i]| == total
    }

    ghost function Table(): (t: Table)
      requires Valid()
      reads this, cache, bitmap.words
      ensures t.Valid()
    {
      FatTable.Table(root, total, cached, bitmap.present, disk, cache[..], bitmap.Taken())
    }

    /** `fat_cache_init` and `fatmap_init`: nothing is cached, and no cluster is marked. */
    constructor (disk: seq<seq<Cell>>, root: nat, total: nat, cached: bool, mapped: bool)
      requires disk != [] && forall i | 0 <= i < |disk| :: |disk[i]| == total
      ensures Valid() && fresh(cache) && fresh(bitmap.words) && this.disk == disk
      ensures this.root == root && this.total == total && this.cached == cached && bitmap.present == mapped
      ensures FatRuns.Coherent(Table())
    {
      hide FatRuns.Coherent;
      this.count, this.root, this.total, this.cached, this.disk := |disk|, root, total, cached, disk;
      cache := new nat[total];
      bitmap := new FatMap.FatMap(total, mapped);
      new;
      ClearCache();
      FatRuns.FreshIsCoherent(Table());
    }

    method ClearCache()
      requires Valid()
      modifies cache
      ensures AllAre(cache[..], BAD)
    {
      for ca := 0 to total
        invariant forall k | 0 <= k < ca :: cache[k] == BAD
      {
        cache[ca] := BAD;
      }
    }

    // `__read_fat__`
    method ReadCopy(ca: nat, i: nat, ok: bool) returns (v: nat)
      requires Valid() && i < count && ca < total
      ensures v == if ok then DecodeValue(disk[i][ca]) else BAD
      ensures ok ==> var c := disk[i][ca];
        v == (Digit(c, 0) + 0x100 * Digit(c, 1) + 0x1_0000 * Digit(c, 2) + 0x100_0000 * Digit(c, 3)) % 0x1000_0000
    {
      hide Decode, Encode, Digit;
      CellIs(disk[i][ca], 0);
      if !ok {
        return BAD;
      }
      var cell := disk[i][ca];
      var words := new Word[4](k requires 0 <= k < 4 => cell[k]);
      var bytes := new Byte[4](_ => ZERO);
      UnpackMemory(words, bytes, 4);
      assert words[..4] == cell && bytes[..4] == bytes[..];
      v := BytesValue(bytes[..]);
    }

    // `__write_fat__`
    method WriteCopy(ca: nat, v: nat, i: nat, ok: bool) returns (res: bool)
      requires Valid() && i < count && ca < total
      modifies this`disk
      ensures Valid() && res == ok
      ensures disk == if ok then old(disk)[i := Store(old(disk)[i], ca, EncodeValue(v))] else old(disk)
      ensures ok ==> var c := disk[i][ca];
        && Digit(c, 0) == v % 0x100 && Digit(c, 1) == v / 0x100 % 0x100
        && Digit(c, 2) == v / 0x1_0000 % 0x100 && Digit(c, 3) == v / 0x100_0000 % 0x100
    {
      hide Decode, Encode, Digit;
      CellIs(EncodeValue(v), v);
      var memory := ValueBytes(v);
      var bytes := new Byte[4](k requires 0 <= k < 4 => memory[k]);
      var words := new Word[4](_ => EncodeByte(ZERO));
      PackMemory(bytes, words, 4);
      assert bytes[..4] == memory && words[..4] == words[..];
      if ok {
        disk := disk[i := Store(disk[i], ca, words[..])];
      }
      res := ok;
    }

    /** The cache and the bitmap take note of a value. */
    method Remember(ca: nat, v: nat)
      requires Valid() && ca < total
      modifies cache, bitmap.words
      ensures Table() == old(Table()).Note(ca, v)
    {
      if cached {
        cache[ca] := v;
      }
      Mark(ca, v);
    }

    /** `fatmap_set` or `fatmap_unset`, by the value. */
    method Mark(ca: nat, v: nat)
      requires Valid() && ca < total
      modifies bitmap.words
      ensures Table() == FatRuns.Marked(old(Table()), ca, v)
    {
      if v == FREE {
        var _ := bitmap.Set(ca);
      } else {
        var _ := bitmap.Unset(ca);
      }
    }

    method WriteCopies(ca: nat, v: nat, wr: seq<bool>) returns (result: bool)
      requires Valid() && ca < total && |wr| == count
      modifies this`disk
      ensures Valid() && Table() == old(Table()).Put(ca, v, wr)
      ensures result <==> forall i | 0 <= i < count :: wr[i]
    {
      hide DecodeValue, EncodeValue, Digit;
      result := true;
      for i := 0 to count
        invariant Valid()
        invariant forall k | 0 <= k < i ::
          disk[k] == if wr[k] then Store(old(disk)[k], ca, EncodeValue(v)) else old(disk)[k]
        invariant forall k | i <= k < count :: disk[k] == old(disk)[k]
        invariant result <==> forall k | 0 <= k < i :: wr[k]
      {
        var res := WriteCopy(ca, v, i, wr[i]);
        result := res && result;
      }
      assert disk == old(Table()).Put(ca, v, wr).disk;
    }

    // `_write_fat_locked`
    method WriteLocked(ca: nat, v: nat, wr: seq<bool>) returns (result: bool)
      requires Valid() && ca < total && |wr| == count
      modifies this`disk, cache, bitmap.words
      ensures Valid() && Table() == old(Table()).Note(ca, v).Put(ca, v, wr)
      ensures result <==> forall i | 0 <= i < count :: wr[i]
    {
      Remember(ca, v);
      result := WriteCopies(ca, v, wr);
    }

    method WriteFat(ca: nat, v: nat, wr: seq<bool>) returns (result: bool)
      requires Valid() && |wr| == count
      modifies this`disk, cache, bitmap.words
      ensures Valid() && Table() == old(Table()).AfterWrite(ca, v, wr)
      ensures result <==> root <= ca < total && forall i | 0 <= i < count :: wr[i]
    {
      if ca < root || ca >= total {
        return false;
      }
      result := WriteLocked(ca, v, wr);
    }

    method ReadFat(ca: nat, rd: seq<bool>, wr: seq<bool>) returns (value: nat)
      requires Valid() && |rd| == count && |wr| == count
      modifies this`disk, cache, bitmap.words
      ensures Valid() && value == old(Table()).Read(ca, rd) && Table() == old(Table()).AfterRead(ca, rd, wr)
    {
      hide DecodeValue, EncodeValue, Elect;
      if ca < root || ca >= total {
        return BAD;
      }
      if cached && cache[ca] != BAD {
        return cache[ca];
      }
      var wrong: int;
      value, wrong := Ballot(ca, rd);
      Remember(ca, value);
      if wrong > 0 {
        ghost var noted := Table();
        var _ := WriteLocked(ca, value, wr);
        assert noted.Note(ca, value) == noted;
      }
    }

    /** The vote over the copies. */
    method Ballot(ca: nat, rd: seq<bool>) returns (value: nat, wrong: int)
      requires Valid() && ca < total && |rd| == count
      ensures var t := Elect(Table().Values(ca, rd)); value == t.value && wrong == t.wrong
    {
      hide DecodeValue, Digit;
      var freq := 0;
      value, wrong := BAD, -1;
      ghost var vs := Table().Values(ca, rd);
      assert vs[..0] == [];
      for i := 0 to count
        invariant freq >= 0 && Tally(value, freq, wrong) == Elect(vs[..i])
      {
        var v := ReadCopy(ca, i, rd[i]);
        assert vs[..i + 1][..i] == vs[..i] && vs[..i + 1][i] == v;
        if v == value {
          freq := freq + 1;
        } else {
          freq := freq - 1;
          wrong := wrong + 1;
        }
        if freq < 0 {
          value := v;
          freq := 0;
        }
      }
      assert vs[..count] == vs;
    }

    /** `fat_cache_hload`, on a disk without faults. */
    method CacheHload() returns (ok: bool)
      requires Valid() && FatRuns.Coherent(Table())
      modifies this`disk, cache, bitmap.words
      ensures Valid() && ok == cached
      ensures Table() == if cached then FatRuns.Loaded(old(Table()), total) else old(Table())
    {
      if !cached {
        return false;
      }
      for ca := 0 to total
        invariant Valid() && Table() == FatRuns.Loaded(old(Table()), ca)
      {
        LoadOne(ca);
      }
      ok := true;
    }

    method LoadOne(ca: nat)
      requires Valid() && FatRuns.Coherent(Table()) && ca < total
      modifies this`disk, cache, bitmap.words
      ensures Valid() && Table() == FatRuns.LoadStep(old(Table()), ca)
    {
      hide DecodeValue, EncodeValue, Elect;
      var cls := ReadFat(ca, seq(count, _ => true), seq(count, _ => true));
      Mark(ca, cls);
    }

    /** `fat_repair`, on a disk without faults. */
    method Repair()
      requires Valid() && FatRuns.Coherent(Table())
      modifies this`disk, cache, bitmap.words
      ensures Valid() && Table() == FatRuns.Repaired(old(Table()), total)
    {
      for ca := 0 to total
        invariant Valid() && Table() == FatRuns.Repaired(old(Table()), ca)
      {
        var _ := ReadFat(ca, seq(count, _ => true), seq(count, _ => true));
      }
    }
  }
}
