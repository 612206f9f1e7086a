/** Machine words as their bits, least significant first: bit `i` of `w` is `w[i]`, so that
    `GET_BIT(w, i)` is `w[i]`, `SET_BIT(w, i, b)` is `w[i := b]` and `TOGGLE_BIT(w, i)` is
    `w[i := !w[i]]`. */
module Bits {
  import opened Arith

  type Bits = seq<bool>

  function Value(bits: Bits): nat {
    if bits == [] then 0 else (if bits[0] then 1 else 0) + 2 * Value(bits[1..])
  }

  /** The low `n` bits of `v`. */
  function Low(v: nat, n: nat): (bits: Bits)
    ensures |bits| == n
  {
    if n == 0 then [] else [v % 2 == 1] + Low(v / 2, n - 1)
  }

  lemma {:induction false} ValueBound(bits: Bits)
    ensures Value(bits) < Pow2(|bits|)
  {
    if bits != [] {
      ValueBound(bits[1..]);
    }
  }

  lemma {:induction false} LowPrefix(v: nat, m: nat, n: nat)
    requires m <= n
    ensures Low(v, n)[..m] == Low(v, m)
  {
    if m > 0 {
      LowPrefix(v / 2, m - 1, n - 1);
    }
  }

  function Halved(v: nat, n: nat): nat {
    if n == 0 then v else Halved(v / 2, n - 1)
  }

  lemma {:induction false} HalvedIs(v: nat, n: nat)
    ensures Halved(v, n) == v / Pow2(n)
  {
    if n > 0 {
      HalvedIs(v / 2, n - 1);
      DivTwice(v, Pow2(n - 1));
    }
  }

  lemma {:induction false} LowSplit(v: nat, m: nat, n: nat)
    ensures Low(v, m + n) == Low(v, m) + Low(Halved(v, m), n)
  {
    if m > 0 {
      LowSplit(v / 2, m - 1, n);
      assert m + n - 1 == m - 1 + n;
    }
  }

  lemma {:induction false} ValueAppend(a: Bits, b: Bits)
    ensures Value(a + b) == Value(a) + Pow2(|a|) * Value(b)
  {
    if a == [] {
      assert a + b == b;
    } else {
      ValueAppend(a[1..], b);
      assert (a + b)[1..] == a[1..] + b;
      assert 2 * (Pow2(|a| - 1) * Value(b)) == Pow2(|a|) * Value(b);
    }
  }

  /** The first bits of a value are its remainder. */
  lemma {:induction false} ValuePrefix(b: Bits, n: nat)
    requires n <= |b|
    ensures Value(b[..n]) == Value(b) % Pow2(n)
  {
    assert b == b[..n] + b[n..];
    ValueAppend(b[..n], b[n..]);
    ValueBound(b[..n]);
    DivModUnique(Value(b), Pow2(n), Value(b[n..]), Value(b[..n]));
  }

  /** Cutting a value to its low `n` bits is the remainder modulo `2^n`. */
  lemma {:induction false} ValueOfLowMod(v: nat, n: nat)
    ensures Value(Low(v, n)) == v % Pow2(n)
  {
    if n > 0 {
      ValueOfLowMod(v / 2, n - 1);
      assert Low(v, n)[1..] == Low(v / 2, n - 1);
      ModDouble(v, Pow2(n - 1));
    }
  }
}
