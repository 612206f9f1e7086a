/** The Hamming(15,11) code of `std/hamming.c`. Each byte is kept in a 16-bit word whose bits
    0, 1, 3 and 7 are parity bits and whose bit 15 is unused. */
module Hamming {
  import opened Bits

  type Word = w: Bits | |w| == 16 witness seq(16, _ => false)

  /** The places 0, 1, 3 and 7 of a word hold parity bits, the other places below 15 data. */
  predicate DataPlace(p: nat) {
    p == 2 || 4 <= p <= 6 || 8 <= p <= 14
  }

  /** A list of distinct data places. */
  type Cover = ps: seq<nat> |
    (forall p | p in ps :: DataPlace(p)) && (forall i, j | 0 <= i < j < |ps| :: ps[i] != ps[j])

  /** The bits that each parity bit covers, itself excluded. */
  const COVER1: Cover := [2, 4, 6, 8, 10, 12, 14]
  const COVER2: Cover := [2, 5, 6, 9, 10, 13, 14]
  const COVER4: Cover := [4, 5, 6, 11, 12, 13, 14]
  const COVER8: Cover := [8, 9, 10, 11, 12, 13, 14]

  /** The exclusive or of the bits in the list. */
  function Parity(w: Word, ps: Cover): bool {
    if ps == [] then false else w[ps[0]] != Parity(w, ps[1..])
  }

  /** The parity check of the parity bit `i`: true if it fails. */
  function Fails(w: Word, i: nat, ps: Cover): bool
    requires i < 15
  {
    w[i] != Parity(w, ps)
  }

  /** The eleven data bits in their places, the parity bits clear. */
  function Spread(data: Word): Word {
    [false, false, data[0], false, data[1], data[2], data[3], false,
     data[4], data[5], data[6], data[7], data[8], data[9], data[10], false]
  }

  /** `_encode_hamming_15_11` */
  function Encode(data: Word): Word {
    var e := Spread(data);
    e[0 := Parity(e, COVER1)][1 := Parity(e, COVER2)][3 := Parity(e, COVER4)][7 := Parity(e, COVER8)]
  }

  function Accused(s1: bool, s2: bool, s4: bool, s8: bool): (pos: nat)
    ensures pos < 16
  {
    (if s1 then 1 else 0) + (if s2 then 2 else 0) + (if s4 then 4 else 0) + (if s8 then 8 else 0)
  }

  /** The four parity checks read as a number: the place, counted from 1, of the bit that they
      accuse, or 0. */
  function Syndrome(w: Word): (pos: nat)
    ensures pos < 16
  {
    Accused(Fails(w, 0, COVER1), Fails(w, 1, COVER2), Fails(w, 3, COVER4), Fails(w, 7, COVER8))
  }

  function Toggle(w: Word, i: nat): Word
    requires i < 16
  {
    w[i := !w[i]]
  }

  function Extract(w: Word): Word {
    [w[2], w[4], w[5], w[6], w[8], w[9], w[10], w[11], w[12], w[13], w[14], false, false, false, false, false]
  }

  function Corrected(w: Word): Word {
    var pos := Syndrome(w);
    if pos != 0 then Toggle(w, pos - 1) else w
  }

  /** `_decode_hamming_15_11` */
  function Decode(w: Word): Word {
    Extract(Corrected(w))
  }

  /** A word that carries eleven bits of data. */
  predicate IsData(w: Word) {
    forall i | 11 <= i < 16 :: !w[i]
  }

  /** At most one of the bits 0 to 14 differs; bit 15 does not matter. */
  predicate Near(a: Word, b: Word) {
    forall i, j | 0 <= i < j < 15 :: a[i] == b[i] || a[j] == b[j]
  }

  // ----- parities

  lemma {:induction false} ParityAgree(a: Word, b: Word, ps: Cover)
    requires forall p | p in ps :: a[p] == b[p]
    ensures Parity(a, ps) == Parity(b, ps)
  {
    if ps != [] {
      ParityAgree(a, b, ps[1..]);
    }
  }

  lemma {:induction false} ParityToggle(w: Word, k: nat, ps: Cover)
    requires k < 16
    ensures Parity(Toggle(w, k), ps) == (Parity(w, ps) != (k in ps))
  {
    if ps != [] {
      ParityToggle(w, k, ps[1..]);
      assert k in ps <==> k == ps[0] || k in ps[1..];
    }
  }

  lemma {:induction false} FailsToggle(w: Word, k: nat, i: nat, ps: Cover, covered: bool)
    requires k < 15 && i < 15 && i !in ps
    requires covered <==> k == i || k in ps
    ensures Fails(Toggle(w, k), i, ps) == (Fails(w, i, ps) != covered)
  {
    ParityToggle(w, k, ps);
  }

  /** The parity bits that cover bit `k` are the binary digits of `k + 1`. */
  lemma {:induction false} CoveredBy(k: nat)
    requires k < 15
    ensures (k == 0 || k in COVER1) <==> (k + 1) % 2 == 1
    ensures (k == 1 || k in COVER2) <==> (k + 1) / 2 % 2 == 1
    ensures (k == 3 || k in COVER4) <==> (k + 1) / 4 % 2 == 1
    ensures (k == 7 || k in COVER8) <==> (k + 1) / 8 == 1
  {
    CoveredLow(k);
    CoveredHigh(k);
  }

  lemma CoveredLow(k: nat)
    requires k < 15
    ensures (k == 0 || k in COVER1) <==> (k + 1) % 2 == 1
    ensures (k == 1 || k in COVER2) <==> (k + 1) / 2 % 2 == 1
  {
  }

  lemma CoveredHigh(k: nat)
    requires k < 15
    ensures (k == 3 || k in COVER4) <==> (k + 1) / 4 % 2 == 1
    ensures (k == 7 || k in COVER8) <==> (k + 1) / 8 == 1
  {
  }

  lemma {:induction false} AccusedDigits(k: nat, s1: bool, s2: bool, s4: bool, s8: bool)
    requires k < 15
    ensures var t := Accused(s1 != ((k + 1) % 2 == 1), s2 != ((k + 1) / 2 % 2 == 1),
        s4 != ((k + 1) / 4 % 2 == 1), s8 != ((k + 1) / 8 == 1));
      && (Accused(s1, s2, s4, s8) == 0 ==> t == k + 1)
      && (Accused(s1, s2, s4, s8) == k + 1 ==> t == 0)
  {
  }

  /** Toggling bit `k` makes the checks accuse bit `k`, or stop accusing it. */
  lemma {:induction false} SyndromeToggle(w: Word, k: nat)
    requires k < 15
    ensures Syndrome(w) == 0 ==> Syndrome(Toggle(w, k)) == k + 1
    ensures Syndrome(w) == k + 1 ==> Syndrome(Toggle(w, k)) == 0
  {
    CoveredBy(k);
    FailsToggle(w, k, 0, COVER1, (k + 1) % 2 == 1);
    FailsToggle(w, k, 1, COVER2, (k + 1) / 2 % 2 == 1);
    FailsToggle(w, k, 3, COVER4, (k + 1) / 4 % 2 == 1);
    FailsToggle(w, k, 7, COVER8, (k + 1) / 8 == 1);
    AccusedDigits(k, Fails(w, 0, COVER1), Fails(w, 1, COVER2), Fails(w, 3, COVER4), Fails(w, 7, COVER8));
  }

  lemma {:induction false} SyndromeAgree(a: Word, b: Word)
    requires forall i | 0 <= i < 15 :: a[i] == b[i]
    ensures Syndrome(a) == Syndrome(b)
  {
    ParityAgree(a, b, COVER1);
    ParityAgree(a, b, COVER2);
    ParityAgree(a, b, COVER4);
    ParityAgree(a, b, COVER8);
  }

  // ----- code words

  /** The checks of two words with the same data bits fail together, if the parity bits agree. */
  lemma {:induction false} ParityOfData(a: Word, b: Word, ps: Cover)
    requires forall p | 0 <= p < 15 && DataPlace(p) :: a[p] == b[p]
    ensures Parity(a, ps) == Parity(b, ps)
  {
    ParityAgree(a, b, ps);
  }

  lemma {:induction false} CodeWord(data: Word)
    requires IsData(data)
    ensures Syndrome(Encode(data)) == 0 && Extract(Encode(data)) == data && !Encode(data)[15]
  {
    hide Parity;
    var e, c := Spread(data), Encode(data);
    ParityOfData(e, c, COVER1);
    ParityOfData(e, c, COVER2);
    ParityOfData(e, c, COVER4);
    ParityOfData(e, c, COVER8);
  }

  type Place = p: nat | p < 16

  /** How many of the bits in the places are set. */
  function Ones(w: Word, places: seq<Place>): nat {
    if places == [] then 0 else (if w[places[0]] then 1 else 0) + Ones(w, places[1..])
  }

  /** A parity check fails if an odd number of the bits that it covers is set, itself included. */
  lemma {:induction false} FailsIfOdd(w: Word, i: nat, ps: Cover, places: seq<Place>)
    requires i < 15 && i !in ps && places == [i] + ps
    ensures Fails(w, i, ps) <==> Ones(w, places) % 2 == 1
  {
    ParityCounts(w, ps, places[1..]);
  }

  lemma {:induction false} ParityCounts(w: Word, ps: Cover, places: seq<Place>)
    requires places == ps
    ensures Parity(w, ps) <==> Ones(w, places) % 2 == 1
  {
    if ps != [] {
      ParityCounts(w, ps[1..], places[1..]);
    }
  }

  lemma GroupsAre()
    ensures [0, 2, 4, 6, 8, 10, 12, 14] == [0] + COVER1 && [1, 2, 5, 6, 9, 10, 13, 14] == [1] + COVER2
    ensures [3, 4, 5, 6, 11, 12, 13, 14] == [3] + COVER4 && [7, 8, 9, 10, 11, 12, 13, 14] == [7] + COVER8
    ensures 0 !in COVER1 && 1 !in COVER2 && 3 !in COVER4 && 7 !in COVER8
  {
  }

  /** A word that passes the checks has an even number of set bits in each of the four groups. */
  lemma {:induction false} EvenIfClean(w: Word)
    requires Syndrome(w) == 0
    ensures Ones(w, [0, 2, 4, 6, 8, 10, 12, 14]) % 2 == 0 && Ones(w, [1, 2, 5, 6, 9, 10, 13, 14]) % 2 == 0
    ensures Ones(w, [3, 4, 5, 6, 11, 12, 13, 14]) % 2 == 0 && Ones(w, [7, 8, 9, 10, 11, 12, 13, 14]) % 2 == 0
  {
    hide Parity, Ones, Fails;
    GroupsAre();
    FailsIfOdd(w, 0, COVER1, [0, 2, 4, 6, 8, 10, 12, 14]);
    FailsIfOdd(w, 1, COVER2, [1, 2, 5, 6, 9, 10, 13, 14]);
    FailsIfOdd(w, 3, COVER4, [3, 4, 5, 6, 11, 12, 13, 14]);
    FailsIfOdd(w, 7, COVER8, [7, 8, 9, 10, 11, 12, 13, 14]);
  }

  /** The layout of a code word: where the data bits are, and an even number of set bits in each of
      the four groups. */
  lemma {:induction false} EncodeIs(data: Word)
    requires IsData(data)
    ensures var c := Encode(data);
      && c[2] == data[0] && c[4] == data[1] && c[5] == data[2] && c[6] == data[3] && c[8] == data[4]
      && c[9] == data[5] && c[10] == data[6] && c[11] == data[7] && c[12] == data[8] && c[13] == data[9]
      && c[14] == data[10] && !c[15]
    ensures var c := Encode(data);
      && Ones(c, [0, 2, 4, 6, 8, 10, 12, 14]) % 2 == 0 && Ones(c, [1, 2, 5, 6, 9, 10, 13, 14]) % 2 == 0
      && Ones(c, [3, 4, 5, 6, 11, 12, 13, 14]) % 2 == 0 && Ones(c, [7, 8, 9, 10, 11, 12, 13, 14]) % 2 == 0
  {
    hide Encode, Syndrome, Ones;
    CodeWord(data);
    EvenIfClean(Encode(data));
  }

  /** A word that passes the parity checks is a code word, up to the unused bit. */
  lemma {:induction false} CleanWord(w: Word)
    requires Syndrome(w) == 0
    ensures IsData(Extract(w)) && forall i | 0 <= i < 15 :: Encode(Extract(w))[i] == w[i]
  {
    hide Parity;
    var e := Spread(Extract(w));
    ParityOfData(e, w, COVER1);
    ParityOfData(e, w, COVER2);
    ParityOfData(e, w, COVER4);
    ParityOfData(e, w, COVER8);
  }

  lemma {:induction false} DecodesIfNear(w: Word, data: Word)
    requires IsData(data) && Near(w, Encode(data))
    ensures Decode(w) == data
  {
    hide Encode, Syndrome, Parity;
    var c := Encode(data);
    CodeWord(data);
    if k :| 0 <= k < 15 && w[k] != c[k] {
      SyndromeAgree(w, Toggle(c, k));
      SyndromeToggle(c, k);
    } else {
      SyndromeAgree(w, c);
    }
  }

  lemma {:induction false} NearIfDecodes(w: Word)
    ensures IsData(Decode(w)) && Near(w, Encode(Decode(w)))
  {
    if Syndrome(w) != 0 {
      SyndromeToggle(w, Syndrome(w) - 1);
    }
    CleanWord(Corrected(w));
  }

  /** Single-error correction, both ways: `w` decodes to `data` exactly when it is the code word
      of `data` with at most one of its fifteen bits flipped (the code is perfect). */
  lemma {:induction false} DecodesIff(w: Word, data: Word)
    requires IsData(data)
    ensures Decode(w) == data <==> Near(w, Encode(data))
  {
    if Near(w, Encode(data)) {
      DecodesIfNear(w, data);
    }
    NearIfDecodes(w);
  }

  // ----- buffers

  type Byte = b: Bits | |b| == 8 witness seq(8, _ => false)

  const ZERO: Byte := seq(8, _ => false)

  function Widen(b: Byte): Word {
    b + [false, false, false, false, false, false, false, false]
  }

  /** `_set_byte` */
  function EncodeByte(b: Byte): Word {
    Encode(Widen(b))
  }

  /** `_get_byte`: the decoded data, cut to a byte. */
  function DecodeByte(w: Word): Byte {
    Decode(w)[..8]
  }

  function EncodeBytes(bs: seq<Byte>): (ws: seq<Word>)
    ensures |ws| == |bs|
  {
    seq(|bs|, i requires 0 <= i < |bs| => EncodeByte(bs[i]))
  }

  function DecodeBytes(ws: seq<Word>): (bs: seq<Byte>)
    ensures |bs| == |ws|
  {
    seq(|ws|, i requires 0 <= i < |ws| => DecodeByte(ws[i]))
  }

  /** At most one flipped bit in each word; the unused bits do not matter. */
  ghost predicate Damaged(ws: seq<Word>, original: seq<Word>) {
    |ws| == |original| && forall i | 0 <= i < |ws| :: Near(ws[i], original[i])
  }

  /** A buffer survives one flipped bit in each of its words. */
  lemma {:induction false} BufferSurvives(ws: seq<Word>, bs: seq<Byte>)
    requires Damaged(ws, EncodeBytes(bs))
    ensures DecodeBytes(ws) == bs
  {
    forall i | 0 <= i < |bs| ensures DecodeBytes(ws)[i] == bs[i] {
      assert Near(ws[i], EncodeBytes(bs)[i]);
      DecodesIfNear(ws[i], Widen(bs[i]));
      assert Widen(bs[i])[..8] == bs[i];
    }
  }

  /** `nft32_pack_memory` */
  method PackMemory(src: array<Byte>, dst: array<Word>, l: nat)
    requires l <= src.Length && l <= dst.Length
    modifies dst
    ensures dst[..l] == EncodeBytes(src[..l]) && dst[l..] == old(dst[l..])
  {
    for i := 0 to l
      invariant forall k | 0 <= k < i :: dst[k] == EncodeByte(src[k])
      invariant dst[l..] == old(dst[l..])
    {
      dst[i] := EncodeByte(src[i]);
    }
  }

  /** `nft32_unpack_memory` */
  method UnpackMemory(src: array<Word>, dst: array<Byte>, l: nat)
    requires l <= src.Length && l <= dst.Length
    modifies dst
    ensures dst[..l] == DecodeBytes(src[..l]) && dst[l..] == old(dst[l..])
  {
    for i := 0 to l
      invariant forall k | 0 <= k < i :: dst[k] == DecodeByte(src[k])
      invariant dst[l..] == old(dst[l..])
    {
      dst[i] := DecodeByte(src[i]);
    }
  }
}
