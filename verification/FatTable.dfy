/** The file allocation table of `src/fat.c` as a value: the copies on disk, the value cache and
    the free-cluster bitmap, and what one read or write does to them. The class `Fat` is proved
    to follow these functions. */
module FatTable {
  import opened Arith
  import opened Bits
  import opened Hamming
  import opened Vote

  /** FAT values are 28 bits wide. */
  const VALUES := 0x1000_0000

  // ----- one value on disk

  /** Four code words: one little-endian 32-bit value. */
  type Cell = ws: seq<Word> | |ws| == 4 witness EncodeBytes([ZERO, ZERO, ZERO, ZERO])

  function ValueBytes(v: nat): (bs: seq<Byte>)
    ensures |bs| == 4
  {
    var b := Low(v, 32);
    [b[..8], b[8..16], b[16..24], b[24..]]
  }

  /** The value in memory, cut to 28 bits. */
  function BytesValue(bs: seq<Byte>): nat
    requires |bs| == 4
  {
    Value(Joined(bs)[..28])
  }

  function Joined(bs: seq<Byte>): (b: Bits)
    requires |bs| == 4
    ensures |b| == 32
  {
    var b0: Bits, b1: Bits, b2: Bits, b3: Bits := bs[0], bs[1], bs[2], bs[3];
    b0 + b1 + b2 + b3
  }

  function EncodeValue(v: nat): Cell {
    EncodeBytes(ValueBytes(v))
  }

  function DecodeValue(c: Cell): nat {
    BytesValue(DecodeBytes(c))
  }

  lemma {:induction false} BytesRoundTrip(v: nat)
    ensures BytesValue(ValueBytes(v)) == v % VALUES
  {
    var b := Low(v, 32);
    assert Joined(ValueBytes(v)) == b;
    LowPrefix(v, 28, 32);
    ValueOfLowMod(v, 28);
    PowerOfValues();
  }

  lemma {:induction false} PowerOfValues()
    ensures Pow2(28) == VALUES
  {
    assert Pow2(7) == 0x80;
    assert Pow2(14) == 0x4000;
    assert Pow2(21) == 0x20_0000;
  }

  lemma {:induction false} PowersOfBytes()
    ensures Pow2(0) == 1 && Pow2(8) == 0x100 && Pow2(16) == 0x1_0000 && Pow2(24) == 0x100_0000
  {
    assert Pow2(8) == 0x100;
    Pow2Add(8, 8);
    Pow2Add(16, 8);
  }

  /** Byte `k` of a value is its digit `k` to the base 256: the least one comes first. */
  lemma {:induction false} ValueBytesAre(v: nat)
    ensures var bs := ValueBytes(v);
      && Value(bs[0]) == v % 0x100 && Value(bs[1]) == v / 0x100 % 0x100
      && Value(bs[2]) == v / 0x1_0000 % 0x100 && Value(bs[3]) == v / 0x100_0000 % 0x100
  {
    hide Low, Value, Pow2;
    var b := Low(v, 32);
    PowersOfBytes();
    assert b[..8] == b[0..8] && b[24..] == b[24..32];
    ByteOfLow(v, 0);
    ByteOfLow(v, 8);
    ByteOfLow(v, 16);
    ByteOfLow(v, 24);
  }

  lemma {:induction false} ByteOfLow(v: nat, m: nat)
    requires m <= 24
    ensures Value(Low(v, 32)[m..m + 8]) == v / Pow2(m) % Pow2(8)
  {
    hide Low, Value, Pow2;
    var h := Halved(v, m);
    LowSplit(v, m, 32 - m);
    LowSplit(h, 8, 24 - m);
    assert Low(v, 32)[m..m + 8] == Low(h, 8);
    HalvedIs(v, m);
    ValueOfLowMod(h, 8);
  }

  /** Four bytes in memory are a number to the base 256, cut to 28 bits. */
  lemma {:induction false} BytesValueIs(bs: seq<Byte>)
    requires |bs| == 4
    ensures BytesValue(bs) ==
      (Value(bs[0]) + 0x100 * Value(bs[1]) + 0x1_0000 * Value(bs[2]) + 0x100_0000 * Value(bs[3])) % 0x1000_0000
  {
    var b0: Bits, b1: Bits, b2: Bits, b3: Bits := bs[0], bs[1], bs[2], bs[3];
    PowersOfBytes();
    PowerOfValues();
    ValueAppend(b0, b1);
    ValueAppend(b0 + b1, b2);
    ValueAppend(b0 + b1 + b2, b3);
    ValuePrefix(Joined(bs), 28);
  }

  /** The byte that word `k` of a cell holds, as a number. */
  ghost function Digit(c: Cell, k: nat): nat
    requires k < 4
  {
    Value(DecodeByte(c[k]))
  }

  /** The code words of a value hold its bytes, the least one first, and read as that number. */
  lemma {:induction false} CellIs(c: Cell, v: nat)
    ensures DecodeValue(c) ==
      (Digit(c, 0) + 0x100 * Digit(c, 1) + 0x1_0000 * Digit(c, 2) + 0x100_0000 * Digit(c, 3)) % 0x1000_0000
    ensures var e := EncodeValue(v);
      && Digit(e, 0) == v % 0x100 && Digit(e, 1) == v / 0x100 % 0x100
      && Digit(e, 2) == v / 0x1_0000 % 0x100 && Digit(e, 3) == v / 0x100_0000 % 0x100
  {
    hide ValueBytes, BytesValue, Value, DecodeByte, EncodeByte;
    BufferSurvives(EncodeValue(v), ValueBytes(v));
    ValueBytesAre(v);
    BytesValueIs(DecodeBytes(c));
    assert forall k | 0 <= k < 4 :: DecodeBytes(EncodeValue(v))[k] == DecodeByte(EncodeValue(v)[k]);
    assert forall k | 0 <= k < 4 :: DecodeBytes(c)[k] == DecodeByte(c[k]);
  }

  /** A stored value survives one flipped bit in each of its four words, cut to 28 bits. */
  lemma {:induction false} CellSurvives(c: Cell, v: nat)
    requires Damaged(c, EncodeValue(v))
    ensures DecodeValue(c) == v % VALUES
  {
    BufferSurvives(c, ValueBytes(v));
    BytesRoundTrip(v);
  }

  lemma {:induction false} CellRoundTrip(v: nat)
    ensures DecodeValue(EncodeValue(v)) == v % VALUES
  {
    CellSurvives(EncodeValue(v), v);
  }

  lemma {:induction false} DecodedBound(c: Cell)
    ensures DecodeValue(c) < VALUES
  {
    ValueBound(Joined(DecodeBytes(c))[..28]);
    PowerOfValues();
  }

  // ----- the table

  /** `root` is the first cluster and `total` the number of clusters; `disk[i][ca]` is the value
      of cluster `ca` in copy `i`. */
  datatype Table = Table(
    root: nat, total: nat, cached: bool, mapped: bool,
    disk: seq<seq<Cell>>, cache: seq<nat>, taken: seq<bool>)
  {
    ghost predicate Valid() {
      && |cache| == total && |taken| == total
      && forall i | 0 <= i < |disk| :: |disk[i]| == total
    }

    predicate InRange(ca: nat) {
      root <= ca < total
    }

    predicate Hit(ca: nat)
      requires ca < |cache|
    {
      cached && cache[ca] != BAD
    }

    /** What the copies yield; `rd[i]` tells whether copy `i` can be read. */
    ghost function Values(ca: nat, rd: seq<bool>): (vs: seq<nat>)
      requires Valid() && ca < total && |rd| == |disk|
      ensures |vs| == |disk|
    {
      seq(|disk|, i requires 0 <= i < |disk| && Valid() => if rd[i] then DecodeValue(disk[i][ca]) else BAD)
    }

    ghost function AllOk(): seq<bool> {
      seq(|disk|, _ => true)
    }

    /** The value that the copies agree on. */
    ghost function Stored(ca: nat): nat
      requires Valid() && ca < total
    {
      Elect(Values(ca, AllOk())).value
    }

    /** The cache and the bitmap take note of the value of a cluster. */
    function Note(ca: nat, v: nat): Table
      requires ca < |cache| && ca < |taken|
    {
      this.(cache := if cached then cache[ca := v] else cache,
            taken := if mapped then taken[ca := v != FREE] else taken)
    }

    /** The copies take a value; `wr[i]` tells whether copy `i` can be written. */
    ghost function Put(ca: nat, v: nat, wr: seq<bool>): Table
      requires Valid() && ca < total && |wr| == |disk|
    {
      this.(disk := seq(|disk|, i requires 0 <= i < |disk| && Valid() =>
        if wr[i] then disk[i][ca := EncodeValue(v)] else disk[i]))
    }

    // `read_fat`
    ghost function Read(ca: nat, rd: seq<bool>): nat
      requires Valid() && |rd| == |disk|
    {
      if !InRange(ca) then BAD
      else if Hit(ca) then cache[ca]
      else Elect(Values(ca, rd)).value
    }

    ghost function AfterRead(ca: nat, rd: seq<bool>, wr: seq<bool>): Table
      requires Valid() && |rd| == |disk| && |wr| == |disk|
    {
      if !InRange(ca) || Hit(ca) then this
      else
        var t := Elect(Values(ca, rd));
        if t.wrong > 0 then Note(ca, t.value).Put(ca, t.value, wr) else Note(ca, t.value)
    }

    // `write_fat`
    ghost function AfterWrite(ca: nat, v: nat, wr: seq<bool>): Table
      requires Valid() && |wr| == |disk|
    {
      if InRange(ca) then Note(ca, v).Put(ca, v, wr) else this
    }
  }

  // ----- fault tolerance

  /** The copies that were left readable and hardly damaged since `v` was written. */
  ghost function Sound(t: Table, ca: nat, v: nat, rd: seq<bool>): set<nat>
    requires t.Valid() && ca < t.total && |rd| == |t.disk|
  {
    set i: nat | i < |t.disk| && rd[i] && Damaged(t.disk[i][ca], EncodeValue(v))
  }

  lemma {:induction false} OccurrencesAtLeast(vs: seq<nat>, m: nat, where: set<nat>)
    requires forall i | i in where :: i < |vs| && vs[i] == m
    ensures Occurrences(vs, m) >= |where|
  {
    if vs == [] {
      assert where == {};
    } else {
      var last := |vs| - 1;
      OccurrencesAtLeast(vs[..last], m, where - {last});
      assert last in where ==> |where - {last}| == |where| - 1;
      assert last !in where ==> where - {last} == where;
    }
  }

  /** Fault tolerance: whatever happened to a minority of the copies, and even if one bit flipped
      in each word of the others, an uncached read returns the value written, cut to 28 bits. */
  lemma {:induction false} SurvivesFaults(t: Table, ca: nat, v: nat, rd: seq<bool>)
    requires t.Valid() && t.InRange(ca) && !t.Hit(ca) && |rd| == |t.disk|
    requires 2 * |Sound(t, ca, v, rd)| > |t.disk|
    ensures t.Read(ca, rd) == v % VALUES
  {
    var vs := t.Values(ca, rd);
    forall i | i in Sound(t, ca, v, rd) ensures vs[i] == v % VALUES {
      CellSurvives(t.disk[i][ca], v);
    }
    OccurrencesAtLeast(vs, v % VALUES, Sound(t, ca, v, rd));
    MajorityWins(vs, v % VALUES);
  }

  /** End to end: `t2` is what became of a table after a write of `v`. If a strict majority of the
      copies took the write, are readable, and have at most one flipped bit in each word, an
      uncached read returns `v`, cut to 28 bits. */
  lemma {:induction false} WriteSurvives(t: Table, ca: nat, v: nat, wr: seq<bool>, t2: Table, rd: seq<bool>,
    good: set<nat>)
    requires t.Valid() && t.InRange(ca) && |wr| == |t.disk|
    requires t2.Valid() && t2.InRange(ca) && !t2.Hit(ca) && |t2.disk| == |t.disk| == |rd|
    requires forall i | i in good ::
      i < |t.disk| && wr[i] && rd[i] && Damaged(t2.disk[i][ca], t.AfterWrite(ca, v, wr).disk[i][ca])
    requires 2 * |good| > |t.disk|
    ensures t2.Read(ca, rd) == v % VALUES
  {
    hide DecodeValue, EncodeValue, Elect;
    var sound := Sound(t2, ca, v, rd);
    forall i | i in good ensures i in sound {
      assert t.AfterWrite(ca, v, wr).disk[i][ca] == EncodeValue(v);
    }
    SubsetSize(good, sound);
    SurvivesFaults(t2, ca, v, rd);
  }

  /** If no copy can be read, an uncached read yields BAD. */
  lemma {:induction false} LostIsBad(t: Table, ca: nat, rd: seq<bool>)
    requires t.Valid() && t.InRange(ca) && !t.Hit(ca) && |rd| == |t.disk|
    requires forall i | 0 <= i < |rd| :: !rd[i]
    ensures t.Read(ca, rd) == BAD
  {
    var vs := t.Values(ca, rd);
    if vs != [] {
      UnanimousElects(vs, BAD);
    }
  }

  /** The cache shields from faults: whatever has become of the copies, a value that was written or
      read and is not BAD is read again from the cache, and the copies are left alone. */
  lemma {:induction false} CacheShields(t: Table, ca: nat, v: nat, rd: seq<bool>, wr: seq<bool>, t2: Table)
    requires t.Valid() && t.InRange(ca) && t.cached && |rd| == |wr| == |t.disk|
    requires t2.Valid() && t2.InRange(ca) && t2.cached && |t2.disk| == |t.disk|
    ensures t2.cache == t.AfterWrite(ca, v, wr).cache && v != BAD ==>
      t2.Read(ca, rd) == v && t2.AfterRead(ca, rd, wr) == t2
    ensures t2.cache == t.AfterRead(ca, rd, wr).cache && t.Read(ca, rd) != BAD ==>
      t2.Read(ca, rd) == t.Read(ca, rd) && t2.AfterRead(ca, rd, wr) == t2
  {
    hide DecodeValue, EncodeValue, Elect;
  }

  // ----- healing

  lemma {:induction false} ReadBound(t: Table, ca: nat, rd: seq<bool>)
    requires t.Valid() && t.InRange(ca) && |rd| == |t.disk|
    ensures Elect(t.Values(ca, rd)).value < VALUES
  {
    var vs := t.Values(ca, rd);
    if vs != [] {
      ElectedIsRead(vs);
      var i :| 0 <= i < |vs| && vs[i] == Elect(vs).value;
      DecodedBound(t.disk[i][ca]);
    }
  }

  /** A value that all copies took is what all copies yield, cut to 28 bits. */
  lemma {:induction false} PutYields(t: Table, ca: nat, v: nat)
    requires t.Valid() && ca < t.total
    ensures var t' := t.Put(ca, v, t.AllOk());
      && t'.Valid() && AllAre(t'.Values(ca, t.AllOk()), v % VALUES)
      && forall c: nat | c < t.total && c != ca :: t'.Values(c, t.AllOk()) == t.Values(c, t.AllOk())
  {
    hide DecodeValue, EncodeValue;
    CellRoundTrip(v);
  }

  /** After an uncached read without I/O faults, all copies decode to the result; the only
      exception is one stray copy when the result is BAD. Copies that agreed are not rewritten. */
  lemma {:induction false} ReadHeals(t: Table, ca: nat)
    requires t.Valid() && t.InRange(ca) && !t.Hit(ca)
    ensures var r, t', vs := t.Read(ca, t.AllOk()), t.AfterRead(ca, t.AllOk(), t.AllOk()), t.Values(ca, t.AllOk());
      && t'.Valid() && |t'.disk| == |t.disk|
      && (AllAre(t'.Values(ca, t.AllOk()), r) || (r == BAD && t'.disk == t.disk && OneStray(vs)))
      && ((forall i, j | 0 <= i < j < |vs| :: vs[i] == vs[j]) ==> t'.disk == t.disk)
  {
    hide DecodeValue, EncodeValue, Elect;
    var vs := t.Values(ca, t.AllOk());
    var r := Elect(vs).value;
    RepairIff(vs);
    ReadBound(t, ca, t.AllOk());
    if Elect(vs).wrong > 0 {
      PutYields(t.Note(ca, r), ca, r);
    } else {
      assert t.Note(ca, r).Values(ca, t.AllOk()) == vs;
    }
  }
}
