/** Arithmetic and counting that several models share. */
module Arith {
  function Pow2(n: nat): (r: nat)
    ensures r >= 1
  {
    if n == 0 then 1 else 2 * Pow2(n - 1)
  }

  lemma {:induction false} Pow2Add(a: nat, b: nat)
    ensures Pow2(a + b) == Pow2(a) * Pow2(b)
  {
    if a > 0 {
      Pow2Add(a - 1, b);
      assert a + b - 1 == a - 1 + b;
    }
  }

  lemma {:induction false} Pow2Monotone(a: nat, b: nat)
    requires a <= b
    ensures Pow2(a) <= Pow2(b)
    decreases b
  {
    if a < b {
      Pow2Monotone(a, b - 1);
    }
  }

  lemma {:induction false} Pow2Square(b: nat, steps: nat, n: nat)
    requires steps <= 2 * b && Pow2(b) <= n
    ensures Pow2(steps) <= n * n
  {
    Pow2Monotone(steps, b + b);
    Pow2Add(b, b);
    MulMonotone(Pow2(b), Pow2(b), n);
    MulMonotone(n, Pow2(b), n);
  }

  lemma SubsetSize<T>(a: set<T>, b: set<T>)
    requires a <= b
    ensures |a| <= |b|
  {
    assert b == a + (b - a);
  }

  lemma {:induction false} MulMonotone(c: nat, x: nat, y: nat)
    requires x <= y
    ensures c * x <= c * y
  {
    assert c * y == c * x + c * (y - x);
  }

  lemma MulFar(d: int, e: int)
    requires d >= 0
    ensures (e >= 1 ==> d * e >= d) && (e <= -1 ==> d * e <= -d)
  {
  }

  lemma {:induction false} DivModUnique(v: nat, d: nat, q: nat, r: nat)
    requires r < d && v == d * q + r
    ensures v % d == r && v / d == q
  {
    var e := v / d - q;
    assert d * e == r - v % d by {
      assert v == d * (v / d) + v % d;
      assert d * (q + e) == d * q + d * e;
    }
    MulFar(d, e);
  }

  lemma {:induction false} DivMonotone(a: nat, b: nat, c: nat)
    requires c > 0 && a <= b
    ensures a / c <= b / c
  {
    var p, q := a / c, b / c;
    assert a == c * p + a % c && b == c * q + b % c;
    assert c * (p - q) == c * p - c * q;
    MulFar(c, p - q);
  }

  lemma {:induction false} DivTwice(v: nat, m: nat)
    requires m > 0
    ensures v / 2 / m == v / (2 * m)
  {
    var q, r := v / 2 / m, v / 2 % m;
    assert v / 2 == q * m + r;
    assert v == 2 * m * q + (2 * r + v % 2);
    DivModUnique(v, 2 * m, q, 2 * r + v % 2);
  }

  lemma {:induction false} ModDouble(v: nat, m: nat)
    requires m > 0
    ensures v % (2 * m) == v % 2 + 2 * (v / 2 % m)
  {
    var q, r := v / 2 / m, v / 2 % m;
    assert v / 2 == q * m + r;
    assert v == (2 * m) * q + (v % 2 + 2 * r);
    DivModUnique(v, 2 * m, q, v % 2 + 2 * r);
  }

  lemma {:induction false} DivAtLeast(a: nat, n: int, c: nat)
    requires c > 0
    ensures a / c >= n <==> a >= c * n
  {
    var q := a / c;
    assert a == c * q + a % c;
    assert c * (q - n) == c * q - c * n;
    MulFar(c, q - n);
  }
}
