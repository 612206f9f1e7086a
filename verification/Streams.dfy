/** Byte streams cut into blocks of one size: how a read or a write inside one block shows in the
    concatenation of all blocks. Sectors make up clusters and clusters make up contents. */
module Streams {
  /** The blocks one after the other. */
  ghost function Flat<T>(blocks: seq<seq<T>>): seq<T> {
    if blocks == [] then [] else blocks[0] + Flat(blocks[1..])
  }

  ghost predicate Uniform<T>(blocks: seq<seq<T>>, size: nat) {
    forall i | 0 <= i < |blocks| :: |blocks[i]| == size
  }

  /** What a stream holds from `o` on, at most `n` elements. */
  ghost function Piece<T>(f: seq<T>, o: nat, n: nat): seq<T> {
    if o >= |f| then [] else if o + n >= |f| then f[o..] else f[o..o + n]
  }

  lemma PieceIs<T>(f: seq<T>, o: nat, n: nat)
    ensures |Piece(f, o, n)| == if |f| <= o then 0 else if |f| - o < n then |f| - o else n
    ensures forall k | 0 <= k < |Piece(f, o, n)| :: Piece(f, o, n)[k] == f[o + k]
  {
  }

  /** The first `total` elements of what the stream holds from `o` on. */
  ghost function Upto<T>(f: seq<T>, o: nat, total: nat): seq<T>
    requires total > 0 ==> o + total <= |f|
  {
    if total > 0 then f[o..o + total] else []
  }

  /** `d` written over the stream from `o` on; what does not fit is lost. */
  ghost function Overlay<T>(f: seq<T>, o: nat, d: seq<T>): (r: seq<T>)
    ensures |r| == |f|
  {
    seq(|f|, k requires 0 <= k < |f| => if o <= k < o + |d| then d[k - o] else f[k])
  }

  lemma {:induction false} FlatLength<T>(blocks: seq<seq<T>>, size: nat)
    requires Uniform(blocks, size)
    ensures |Flat(blocks)| == |blocks| * size
  {
    if blocks != [] {
      FlatLength(blocks[1..], size);
      assert |blocks| * size == size + (|blocks| - 1) * size;
    }
  }

  lemma {:induction false} Sliced<T>(a: seq<T>, b: seq<T>, c: seq<T>, o: nat, n: nat)
    requires o + n <= |b|
    ensures (a + b + c)[|a| + o..|a| + o + n] == b[o..o + n]
  {
  }

  /** A stream in three parts: the blocks before block `i`, block `i`, and the rest. */
  lemma {:induction false} FlatCut<T>(blocks: seq<seq<T>>, size: nat, i: nat)
    requires Uniform(blocks, size) && i < |blocks|
    ensures Flat(blocks) == Flat(blocks[..i]) + blocks[i] + Flat(blocks[i + 1..])
    ensures |Flat(blocks[..i])| == i * size
  {
    hide Flat;
    FlatLength(blocks[..i], size);
    FlatAppend(blocks[..i], blocks[i..]);
    assert blocks == blocks[..i] + blocks[i..];
    FlatFirst(blocks[i..]);
    Assoc(Flat(blocks[..i]), blocks[i], Flat(blocks[i + 1..]));
    assert blocks[i..][1..] == blocks[i + 1..];
  }

  lemma Assoc<T>(a: seq<T>, b: seq<T>, c: seq<T>)
    ensures a + (b + c) == a + b + c
  {
  }

  /** Where the bytes of block `i` are in the stream. */
  lemma {:induction false} FlatPiece<T>(blocks: seq<seq<T>>, size: nat, i: nat, o: nat, n: nat)
    requires Uniform(blocks, size) && i < |blocks| && o + n <= size
    ensures i * size + o + n <= |Flat(blocks)|
    ensures Flat(blocks)[i * size + o..i * size + o + n] == blocks[i][o..o + n]
  {
    hide Flat;
    FlatCut(blocks, size, i);
    Sliced(Flat(blocks[..i]), blocks[i], Flat(blocks[i + 1..]), o, n);
  }

  lemma FlatFirst<T>(blocks: seq<seq<T>>)
    requires blocks != []
    ensures Flat(blocks) == blocks[0] + Flat(blocks[1..])
  {
  }

  lemma {:induction false} OverlayFront<T>(a: seq<T>, b: seq<T>, o: nat, d: seq<T>)
    requires o + |d| <= |a|
    ensures Overlay(a + b, o, d) == Overlay(a, o, d) + b
  {
  }

  lemma {:induction false} OverlayBack<T>(a: seq<T>, b: seq<T>, o: nat, d: seq<T>)
    ensures Overlay(a + b, |a| + o, d) == a + Overlay(b, o, d)
  {
  }

  /** Writing inside block `i` is writing at its place in the stream. */
  lemma {:induction false} FlatOverlay<T>(blocks: seq<seq<T>>, size: nat, i: nat, o: nat, d: seq<T>)
    requires Uniform(blocks, size) && i < |blocks| && o + |d| <= size
    ensures Flat(blocks[i := Overlay(blocks[i], o, d)]) == Overlay(Flat(blocks), i * size + o, d)
  {
    hide Flat;
    var after := blocks[i := Overlay(blocks[i], o, d)];
    FlatFirst(blocks);
    FlatFirst(after);
    var rest := Flat(blocks[1..]);
    if i == 0 {
      assert after[1..] == blocks[1..];
      OverlayFront(blocks[0], rest, o, d);
    } else {
      FlatOverlay(blocks[1..], size, i - 1, o, d);
      assert after[1..] == blocks[1..][i - 1 := Overlay(blocks[i], o, d)];
      var p := (i - 1) * size;
      assert i * size == size + p;
      OverlayBack(blocks[0], rest, p + o, d);
    }
  }

  lemma {:induction false} FlatAppend<T>(a: seq<seq<T>>, b: seq<seq<T>>)
    ensures Flat(a + b) == Flat(a) + Flat(b)
  {
    if a == [] {
      assert a + b == b;
    } else {
      FlatAppend(a[1..], b);
      assert (a + b)[1..] == a[1..] + b && (a + b)[0] == a[0];
    }
  }

  lemma {:induction false} OverlayNothing<T>(f: seq<T>)
    ensures forall o: nat :: Overlay(f, o, []) == f
  {
    forall o: nat ensures Overlay(f, o, []) == f {
    }
  }

  lemma OverlayBeyond<T>(f: seq<T>, o: nat, d: seq<T>, n: nat)
    requires n <= |d| && o + n >= |f|
    ensures Overlay(f, o, d[..n]) == Overlay(f, o, d)
  {
  }

  /** Two writes, the second where the first ends, are one write. */
  lemma {:induction false} OverlayJoins<T>(f: seq<T>, o: nat, d: seq<T>, e: seq<T>)
    ensures Overlay(Overlay(f, o, d), o + |d|, e) == Overlay(f, o, d + e)
  {
  }

  /** What was written is read back; the rest reads as before. */
  lemma {:induction false} ReadAfterWrite<T>(f: seq<T>, o: nat, d: seq<T>, p: nat, n: nat)
    ensures o + |d| <= |f| ==> Piece(Overlay(f, o, d), o, |d|) == d
    ensures p + n <= o || o + |d| <= p ==> Piece(Overlay(f, o, d), p, n) == Piece(f, p, n)
  {
  }

  lemma PieceOfPrefix<T>(f: seq<T>, g: seq<T>, p: nat, n: nat)
    ensures p + n <= |f| ==> Piece(f + g, p, n) == Piece(f, p, n)
  {
  }

  // One round of a loop that walks over the blocks: `total` elements are done, and the next
  // `part` of them are in block `i` from `skip` on.

  lemma {:induction false} ReadStep<T>(blocks: seq<seq<T>>, size: nat, i: nat, skip: nat, part: nat, b: seq<T>, at: nat,
    o: nat, total: nat)
    requires Uniform(blocks, size) && i < |blocks| && skip + part <= size && i * size + skip == o + total
    ensures var f := Flat(blocks);
      && o + total + part <= |f|
      && Overlay(Overlay(b, at, Upto(f, o, total)), at + total, blocks[i][skip..skip + part]) ==
        Overlay(b, at, Upto(f, o, total + part))
  {
    hide Overlay, Flat, Uniform;
    var f := Flat(blocks);
    FlatPiece(blocks, size, i, skip, part);
    OverlayJoins(b, at, Upto(f, o, total), f[o + total..o + total + part]);
    assert Upto(f, o, total) + f[o + total..o + total + part] == Upto(f, o, total + part);
  }

  lemma {:induction false} WriteStep<T>(blocks: seq<seq<T>>, size: nat, i: nat, skip: nat, part: nat, f: seq<T>,
    d: seq<T>, o: nat, total: nat)
    requires Uniform(blocks, size) && i < |blocks| && skip + part <= size && i * size + skip == o + total
    requires total + part <= |d| && Flat(blocks) == Overlay(f, o, d[..total])
    ensures Flat(blocks[i := Overlay(blocks[i], skip, d[total..total + part])]) == Overlay(f, o, d[..total + part])
  {
    FlatOverlay(blocks, size, i, skip, d[total..total + part]);
    OverlayJoins(f, o, d[..total], d[total..total + part]);
    assert d[..total] + d[total..total + part] == d[..total + part];
  }
}
