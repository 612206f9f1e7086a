/** The vote of `read_fat` (`src/fat.c`, lines 177-192) over the values read from the copies of
    the file allocation table. It departs from the Boyer-Moore vote in that a mismatch against a
    candidate of count zero installs the new value at once, and that the first candidate is BAD. */
module Vote {

  const FREE := 0x00000000
  const BAD := 0x0FFFFFF7
  const RESERVED := 0x0FFFFFF8
  const END := 0x0FFFFFFF

  datatype Tally = Tally(value: nat, freq: nat, wrong: int)

  /** One round of the loop. */
  function Count(t: Tally, v: nat): Tally {
    if v == t.value then t.(freq := t.freq + 1)
    else if t.freq > 0 then t.(freq := t.freq - 1, wrong := t.wrong + 1)
    else Tally(v, 0, t.wrong + 1)
  }

  function Elect(vs: seq<nat>): Tally {
    if vs == [] then Tally(BAD, 0, -1) else Count(Elect(vs[..|vs| - 1]), vs[|vs| - 1])
  }

  function Occurrences(vs: seq<nat>, v: nat): nat {
    if vs == [] then 0 else Occurrences(vs[..|vs| - 1], v) + if vs[|vs| - 1] == v then 1 else 0
  }

  /** How far `m` is ahead: its count if it is the candidate, else minus one and the count against it. */
  function Lead(t: Tally, m: nat): int {
    if t.value == m then t.freq else -(t.freq + 1)
  }

  /** A copy with the value `m` moves the lead up by one, any other moves it down by at most one. */
  lemma {:induction false} LeadMoves(vs: seq<nat>, m: nat)
    ensures Lead(Elect(vs), m) >= 2 * Occurrences(vs, m) - |vs| - 1
    ensures m == BAD ==> Lead(Elect(vs), m) >= 2 * Occurrences(vs, m) - |vs|
  {
    if vs != [] {
      LeadMoves(vs[..|vs| - 1], m);
    }
  }

  /** A value held by more than half of the copies is elected; half is enough for BAD. */
  lemma {:induction false} MajorityWins(vs: seq<nat>, m: nat)
    requires 2 * Occurrences(vs, m) > |vs| || (m == BAD && 2 * Occurrences(vs, m) >= |vs|)
    ensures Elect(vs).value == m
  {
    LeadMoves(vs, m);
  }

  function Split(m: nat, k: nat, u: nat, n: nat): (vs: seq<nat>)
    ensures |vs| == k + n
  {
    seq(k, _ => m) + seq(n, _ => u)
  }

  lemma {:induction false} SplitLast(m: nat, k: nat, u: nat, n: nat)
    ensures n > 0 ==> Split(m, k, u, n)[..k + n - 1] == Split(m, k, u, n - 1) && Split(m, k, u, n)[k + n - 1] == u
    ensures k > 0 ==> Split(m, k, u, 0)[..k - 1] == Split(m, k - 1, u, 0) && Split(m, k, u, 0)[k - 1] == m
  {
  }

  /** The vote over `k` copies with `m` followed by `n` copies with `u`. */
  lemma {:induction false} SplitElects(m: nat, k: nat, u: nat, n: nat)
    requires m != BAD && u != m
    ensures Occurrences(Split(m, k, u, n), m) == k
    ensures n < k ==> Elect(Split(m, k, u, n)).value == m && Elect(Split(m, k, u, n)).freq == k - 1 - n
    ensures k <= n ==> Elect(Split(m, k, u, n)).value == if n == 0 then BAD else u
    decreases k + n
  {
    SplitLast(m, k, u, n);
    if n > 0 {
      SplitElects(m, k, u, n - 1);
    } else if k > 0 {
      SplitElects(m, k - 1, u, 0);
    }
  }

  /** For any number of copies: a value other than BAD that `k` of them hold is sure to be elected
      if and only if `k` is a strict majority. */
  lemma {:induction false} MajorityIff(m: nat, total: nat, k: nat)
    requires m != BAD && k <= total
    ensures (forall vs: seq<nat> | |vs| == total && Occurrences(vs, m) == k :: Elect(vs).value == m) <==> 2 * k > total
  {
    if 2 * k > total {
      forall vs: seq<nat> | |vs| == total && Occurrences(vs, m) == k ensures Elect(vs).value == m {
        MajorityWins(vs, m);
      }
    } else {
      SplitElects(m, k, m + 1, total - k);
    }
  }

  /** The elected value is one of the values read. */
  lemma {:induction false} ElectedIsRead(vs: seq<nat>)
    requires vs != []
    ensures Elect(vs).value in vs
  {
    if |vs| > 1 {
      ElectedIsRead(vs[..|vs| - 1]);
    } else {
      assert vs[..0] == [];
    }
  }

  predicate AllAre(vs: seq<nat>, v: nat) {
    forall i | 0 <= i < |vs| :: vs[i] == v
  }

  ghost predicate StrayAt(vs: seq<nat>, k: nat) {
    1 <= k < |vs| && vs[k] != BAD && forall i | 0 <= i < |vs| && i != k :: vs[i] == BAD
  }

  /** BAD, but for exactly one later copy. */
  ghost predicate OneStray(vs: seq<nat>) {
    exists k :: StrayAt(vs, k)
  }

  lemma {:induction false} OneStrayGrows(init: seq<nat>, v: nat)
    ensures OneStray(init + [v]) <==> if v == BAD then OneStray(init) else init != [] && AllAre(init, BAD)
  {
    var vs := init + [v];
    if v == BAD {
      if k: nat :| StrayAt(init, k) {
        assert StrayAt(vs, k);
      }
      if k: nat :| StrayAt(vs, k) {
        assert vs[k] == init[k];
        assert forall i | 0 <= i < |init| :: init[i] == vs[i];
        assert StrayAt(init, k);
      }
    } else {
      if init != [] && AllAre(init, BAD) {
        assert StrayAt(vs, |init|);
      }
      if k: nat :| StrayAt(vs, k) {
        assert vs[|init|] != BAD;
        assert forall i | 0 <= i < |init| :: init[i] == vs[i];
      }
    }
  }

  lemma {:induction false} AllAreGrows(init: seq<nat>, v: nat, u: nat)
    ensures AllAre(init + [v], u) <==> AllAre(init, u) && v == u
  {
    assert forall i | 0 <= i < |init| :: (init + [v])[i] == init[i];
    assert (init + [v])[|init|] == v;
  }

  /** The whole state of the vote while it has seen at most one mismatch. */
  lemma {:induction false} QuietVotes(vs: seq<nat>)
    ensures Elect(vs).wrong >= -1
    ensures Elect(vs).wrong == -1 <==> AllAre(vs, BAD)
    ensures AllAre(vs, BAD) ==> Elect(vs) == Tally(BAD, |vs|, -1)
    ensures Elect(vs).wrong == 0 <==> OneStray(vs) || (vs != [] && vs[0] != BAD && AllAre(vs, vs[0]))
    ensures vs != [] && vs[0] != BAD && AllAre(vs, vs[0]) ==> Elect(vs) == Tally(vs[0], |vs| - 1, 0)
    ensures OneStray(vs) ==> Elect(vs) == Tally(BAD, |vs| - 2, 0)
  {
    if vs != [] {
      var init, v := vs[..|vs| - 1], vs[|vs| - 1];
      QuietVotes(init);
      OneStrayGrows(init, v);
      assert vs == init + [v];
      AllAreGrows(init, v, BAD);
      AllAreGrows(init, v, vs[0]);
    }
  }

  /** `read_fat` rewrites the copies exactly when `wrong > 0`: it keeps quiet when they agree, and
      also when the only difference is one stray copy after a first copy that holds BAD. */
  lemma {:induction false} RepairIff(vs: seq<nat>)
    ensures Elect(vs).wrong > 0 <==> !OneStray(vs) && !(forall i, j | 0 <= i < j < |vs| :: vs[i] == vs[j])
    ensures Elect(vs).wrong <= 0 ==> AllAre(vs, Elect(vs).value) || (OneStray(vs) && Elect(vs).value == BAD)
  {
    QuietVotes(vs);
    if forall i, j | 0 <= i < j < |vs| :: vs[i] == vs[j] {
      if vs != [] {
        assert AllAre(vs, vs[0]);
      }
    }
  }

  lemma {:induction false} AllOccur(vs: seq<nat>, v: nat)
    requires AllAre(vs, v)
    ensures Occurrences(vs, v) == |vs|
  {
    if vs != [] {
      AllOccur(vs[..|vs| - 1], v);
    }
  }

  /** Copies that agree elect their common value. */
  lemma {:induction false} UnanimousElects(vs: seq<nat>, v: nat)
    requires vs != [] && AllAre(vs, v)
    ensures Elect(vs).value == v
  {
    AllOccur(vs, v);
    MajorityWins(vs, v);
  }
}
