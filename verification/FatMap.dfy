/** The free-cluster bitmap of `src/fatmap.c`: an array of 32-bit words in which a set bit marks
    a cluster that is taken. */
module FatMap {
  import opened Bits

  const BITS_PER_WORD := 32

  type Word32 = w: Bits | |w| == BITS_PER_WORD witness seq(BITS_PER_WORD, _ => false)

  /** `size` consecutive clear bits start at `i`. */
  ghost predicate FreeRun(taken: seq<bool>, i: nat, size: nat) {
    i + size <= |taken| && forall j | i <= j < i + size :: !taken[j]
  }

  /** The plain search: try every start from `i` upwards; 0 stands for "none". */
  ghost function FirstRun(taken: seq<bool>, i: nat, size: nat): nat
    decreases |taken| - i
  {
    if i + size > |taken| || i >= |taken| then 0
    else if FreeRun(taken, i, size) then i
    else FirstRun(taken, i + 1, size)
  }

  /** What the plain search finds: the least start of a free run; 0 when there is none, but also
      when the run starts at 0. */
  lemma {:induction false} FirstRunIsLeast(taken: seq<bool>, i: nat, size: nat)
    requires size > 0
    ensures var r := FirstRun(taken, i, size);
      && (r != 0 ==> i <= r && FreeRun(taken, r, size) && forall k | i <= k < r :: !FreeRun(taken, k, size))
      && (r == 0 ==> (i == 0 && FreeRun(taken, 0, size)) || forall k: nat | i <= k :: !FreeRun(taken, k, size))
    decreases |taken| - i
  {
    if i + size <= |taken| && !FreeRun(taken, i, size) {
      FirstRunIsLeast(taken, i + 1, size);
    }
  }

  /** A taken bit at `b` rules out every start from which a run would cover it. */
  lemma {:induction false} SkipAhead(taken: seq<bool>, i: nat, b: nat, size: nat)
    requires i <= b < i + size && b < |taken| && taken[b]
    ensures FirstRun(taken, i, size) == FirstRun(taken, b + 1, size)
    decreases b - i
  {
    if i + size <= |taken| {
      if i < b {
        SkipAhead(taken, i + 1, b, size);
      }
    }
  }

  /** The words with bit `ca % 32` of word `ca / 32` set or cleared. */
  function Flipped(ws: seq<Word32>, ca: nat, bit: bool): seq<Word32>
    requires ca / 32 < |ws|
  {
    ws[ca / 32 := ws[ca / 32][ca % 32 := bit]]
  }

  class FatMap {
    const present: bool
    const total: nat
    const words: array<Word32>

    constructor (total: nat, present: bool)
      ensures Valid() && fresh(words)
      ensures this.total == total && this.present == present
      ensures forall ca | 0 <= ca < total :: !Taken()[ca]
    {
      this.total, this.present := total, present;
      words := new Word32[(total + BITS_PER_WORD - 1) / BITS_PER_WORD](_ => seq(BITS_PER_WORD, _ => false));
    }

    ghost predicate Valid() {
      words.Length == (total + BITS_PER_WORD - 1) / BITS_PER_WORD
    }

    /** The bitmap, one bit for each cluster. */
    ghost function Taken(): (t: seq<bool>)
      requires Valid()
      reads words
      ensures |t| == total
    {
      seq(total, ca requires 0 <= ca < total && Valid() reads words => words[ca / BITS_PER_WORD][ca % BITS_PER_WORD])
    }

    method Put(ca: nat, bit: bool)
      requires Valid() && ca < total
      modifies words
      ensures Taken() == old(Taken())[ca := bit]
      ensures words[..] == Flipped(old(words[..]), ca, bit)
    {
      words[ca / BITS_PER_WORD] := words[ca / BITS_PER_WORD][ca % BITS_PER_WORD := bit];
    }

    /** `fatmap_set`: the cluster is free. */
    method Set(ca: nat) returns (ok: bool)
      requires Valid() && ca < total
      modifies words
      ensures ok == present
      ensures Taken() == if present then old(Taken())[ca := false] else old(Taken())
      ensures words[..] == if present then Flipped(old(words[..]), ca, false) else old(words[..])
    {
      if !present {
        return false;
      }
      Put(ca, false);
      ok := true;
    }

    /** `fatmap_unset`: the cluster is taken. */
    method Unset(ca: nat) returns (ok: bool)
      requires Valid() && ca < total
      modifies words
      ensures ok == present
      ensures Taken() == if present then old(Taken())[ca := true] else old(Taken())
      ensures words[..] == if present then Flipped(old(words[..]), ca, true) else old(words[..])
    {
      if !present {
        return false;
      }
      Put(ca, true);
      ok := true;
    }

    /** The inner loop of `fatmap_find_free`: whether the run is clear, or else its first set bit. */
    method TestRun(i: nat, size: nat) returns (found: bool, bit: nat)
      requires Valid() && i + size <= total
      ensures found <==> FreeRun(Taken(), i, size)
      ensures !found ==> i <= bit < i + size && Taken()[bit] && forall k | i <= k < bit :: !Taken()[k]
    {
      found, bit := true, i;
      while bit < i + size
        invariant i <= bit <= i + size && forall k | i <= k < bit :: !Taken()[k]
      {
        if words[bit / BITS_PER_WORD][bit % BITS_PER_WORD] {
          assert Taken()[bit];
          return false, bit;
        }
        bit := bit + 1;
      }
    }

    /** `fatmap_find_free`: on a taken bit the search resumes after that bit. */
    method FindFree(offset: nat, size: int) returns (start: nat)
      requires Valid()
      ensures start == if present && size > 0 then FirstRun(Taken(), offset, size) else 0
    {
      if !present {
        return 0;
      }
      if size <= 0 || offset >= total || size > total - offset {
        return 0;
      }
      var limit := total - size;
      var i := offset;
      while i <= limit
        invariant offset <= i
        invariant FirstRun(Taken(), offset, size) == FirstRun(Taken(), i, size)
        decreases limit + 1 - i
      {
        var found, bit := TestRun(i, size);
        if found {
          return i;
        }
        SkipAhead(Taken(), i, bit, size);
        i := bit + 1;
      }
      return 0;
    }
  }
}
