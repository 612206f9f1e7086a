/** The cached, mapped and replicated table behaves as one plain array of values: coherence of
    the cache and the bitmap with the copies, over every run of reads and writes whose disk
    accesses succeed. */
module FatRuns {
  import opened Vote
  import opened FatTable

  // ----- coherence

  ghost predicate CoherentAt(t: Table, ca: nat)
    requires t.Valid() && t.InRange(ca)
  {
    && (t.Hit(ca) ==> t.cache[ca] == t.Stored(ca))
    && (t.mapped && t.taken[ca] ==> t.Stored(ca) != FREE)
  }

  /** The cache holds what the copies elect, and no free cluster is marked as taken. */
  ghost predicate Coherent(t: Table) {
    t.Valid() && t.disk != [] && forall ca: nat | t.InRange(ca) :: CoherentAt(t, ca)
  }

  /** The bitmap tells exactly whether the cluster is free. */
  ghost predicate ExactAt(t: Table, ca: nat)
    requires t.Valid() && t.InRange(ca)
  {
    t.mapped && (t.taken[ca] <==> t.Stored(ca) != FREE)
  }

  ghost predicate Exact(t: Table)
    requires t.Valid()
  {
    forall ca: nat | t.InRange(ca) :: ExactAt(t, ca)
  }

  /** The table as its users see it. */
  ghost function Logical(t: Table): (l: seq<nat>)
    requires t.Valid()
    ensures |l| == t.total
  {
    seq(t.total, ca requires 0 <= ca < t.total && t.Valid() => t.Stored(ca))
  }

  /** A mount with an empty cache and an empty bitmap is coherent with any disk. */
  lemma {:induction false} FreshIsCoherent(t: Table)
    requires t.Valid() && t.disk != []
    requires AllAre(t.cache, BAD) && forall ca | 0 <= ca < t.total :: !t.taken[ca]
    ensures Coherent(t)
  {
  }

  /** A fresh mount of one copy of the given values, without a cache. */
  function Plain(l: seq<nat>, root: nat, mapped: bool): Table {
    var copy := seq(|l|, c requires 0 <= c < |l| => EncodeValue(l[c]));
    Table(root, |l|, false, mapped, [copy], seq(|l|, _ => BAD), seq(|l|, _ => false))
  }

  /** Every list of 28-bit values is what the users of some coherent table see. */
  lemma {:induction false} PlainIs(l: seq<nat>, root: nat, mapped: bool)
    requires forall c | 0 <= c < |l| :: l[c] < VALUES
    ensures Coherent(Plain(l, root, mapped)) && Logical(Plain(l, root, mapped)) == l
  {
    hide DecodeValue, EncodeValue, Elect;
    var t := Plain(l, root, mapped);
    forall c | 0 <= c < |l| ensures t.Stored(c) == l[c] {
      CellRoundTrip(l[c]);
      UnanimousElects(t.Values(c, t.AllOk()), l[c]);
    }
  }

  lemma {:induction false} NoteKeepsStored(t: Table, ca: nat, v: nat)
    requires t.Valid() && ca < t.total
    ensures t.Note(ca, v).Valid()
    ensures forall c: nat | c < t.total ::
      t.Note(ca, v).Values(c, t.AllOk()) == t.Values(c, t.AllOk()) && t.Note(ca, v).Stored(c) == t.Stored(c)
  {
    hide DecodeValue, Elect;
    forall c: nat | c < t.total ensures t.Note(ca, v).Values(c, t.AllOk()) == t.Values(c, t.AllOk()) {
    }
  }

  lemma {:induction false} PutStores(t: Table, ca: nat, v: nat)
    requires t.Valid() && ca < t.total && t.disk != []
    ensures var t' := t.Put(ca, v, t.AllOk());
      && t'.Valid() && t'.Stored(ca) == v % VALUES
      && forall c: nat | c < t.total && c != ca :: t'.Stored(c) == t.Stored(c)
  {
    hide DecodeValue, EncodeValue, Elect;
    PutYields(t, ca, v);
    UnanimousElects(t.Put(ca, v, t.AllOk()).Values(ca, t.AllOk()), v % VALUES);
  }

  /** A read returns the elected value and changes no elected value; coherence and exactness stay. */
  lemma {:induction false} ReadKeeps(t: Table, ca: nat)
    requires Coherent(t)
    ensures var t' := t.AfterRead(ca, t.AllOk(), t.AllOk());
      && t.Read(ca, t.AllOk()) == (if t.InRange(ca) then t.Stored(ca) else BAD)
      && Coherent(t') && t'.(disk := t.disk, cache := t.cache, taken := t.taken) == t && |t'.disk| == |t.disk|
      && Logical(t') == Logical(t)
      && forall c: nat | t.InRange(c) && (ExactAt(t, c) || (c == ca && t.mapped && !t.Hit(ca))) :: ExactAt(t', c)
  {
    hide DecodeValue, EncodeValue, Elect;
    if t.InRange(ca) {
      assert CoherentAt(t, ca);
      if !t.Hit(ca) {
        var v := t.Stored(ca);
        var t1 := t.Note(ca, v);
        NoteKeepsStored(t, ca, v);
        PutStores(t1, ca, v);
        ReadBound(t, ca, t.AllOk());
        var t' := t.AfterRead(ca, t.AllOk(), t.AllOk());
        assert forall c: nat | c < t.total :: t'.Stored(c) == t.Stored(c);
        forall c: nat | t.InRange(c)
          ensures CoherentAt(t', c) && (ExactAt(t, c) || (c == ca && t.mapped) ==> ExactAt(t', c))
        {
          assert CoherentAt(t, c);
        }
      }
    }
  }

  /** A write of a 28-bit value stores it, and changes no other value; coherence and exactness stay. */
  lemma {:induction false} WriteKeeps(t: Table, ca: nat, v: nat)
    requires Coherent(t) && v < VALUES
    ensures var t' := t.AfterWrite(ca, v, t.AllOk());
      && Coherent(t') && t'.(disk := t.disk, cache := t.cache, taken := t.taken) == t && |t'.disk| == |t.disk|
      && Logical(t') == (if t.InRange(ca) then Logical(t)[ca := v] else Logical(t))
      && forall c: nat | t.InRange(c) && (ExactAt(t, c) || (c == ca && t.mapped)) :: ExactAt(t', c)
  {
    hide DecodeValue, EncodeValue, Elect;
    if t.InRange(ca) {
      var t' := t.AfterWrite(ca, v, t.AllOk());
      NoteKeepsStored(t, ca, v);
      PutStores(t.Note(ca, v), ca, v);
      forall c: nat | t.InRange(c)
        ensures CoherentAt(t', c) && (ExactAt(t, c) || (c == ca && t.mapped) ==> ExactAt(t', c))
      {
        assert CoherentAt(t, c);
      }
    }
  }

  /** A write keeps the table coherent exactly when the value fits in 28 bits, or there is no cache
      to keep the whole value and no bitmap that takes a stored FREE for a value in use. */
  lemma {:induction false} WriteCoherentIff(t: Table, ca: nat, v: nat)
    requires Coherent(t) && t.InRange(ca)
    ensures Coherent(t.AfterWrite(ca, v, t.AllOk())) <==> v < VALUES || (!t.cached && !(t.mapped && v % VALUES == FREE))
  {
    hide DecodeValue, EncodeValue, Elect;
    if v < VALUES {
      WriteKeeps(t, ca, v);
    } else {
      var t' := t.AfterWrite(ca, v, t.AllOk());
      NoteKeepsStored(t, ca, v);
      PutStores(t.Note(ca, v), ca, v);
      forall c: nat | t.InRange(c) && c != ca ensures CoherentAt(t', c) {
        assert CoherentAt(t, c);
      }
      assert CoherentAt(t', ca) <==> !t.cached && !(t.mapped && v % VALUES == FREE);
    }
  }

  // ----- runs

  datatype Op = ReadOp(ca: nat) | WriteOp(ca: nat, v: nat)

  ghost function Step(t: Table, op: Op): Table
    requires t.Valid()
  {
    match op
    case ReadOp(ca) => t.AfterRead(ca, t.AllOk(), t.AllOk())
    case WriteOp(ca, v) => t.AfterWrite(ca, v, t.AllOk())
  }

  /** A plain array that answers the same operations. */
  function PlainStep(l: seq<nat>, root: nat, op: Op): (l': seq<nat>)
    ensures |l'| == |l|
  {
    if op.WriteOp? && root <= op.ca < |l| then l[op.ca := op.v] else l
  }

  function PlainRead(l: seq<nat>, root: nat, op: Op): seq<nat> {
    if op.ReadOp? then [if root <= op.ca < |l| then l[op.ca] else BAD] else []
  }

  function PlainRun(l: seq<nat>, root: nat, ops: seq<Op>): (seq<nat>, seq<nat>)
    decreases |ops|
  {
    if ops == [] then (l, [])
    else
      var (l', out) := PlainRun(PlainStep(l, root, ops[0]), root, ops[1..]);
      (l', PlainRead(l, root, ops[0]) + out)
  }

  lemma {:induction false} StepKeeps(t: Table, op: Op)
    requires Coherent(t) && (op.WriteOp? ==> op.v < VALUES)
    ensures Coherent(Step(t, op)) && Step(t, op).root == t.root
    ensures Exact(t) ==> Exact(Step(t, op))
    ensures Logical(Step(t, op)) == PlainStep(Logical(t), t.root, op)
    ensures op.ReadOp? ==> [t.Read(op.ca, t.AllOk())] == PlainRead(Logical(t), t.root, op)
  {
    hide DecodeValue, EncodeValue, Elect;
    match op
    case ReadOp(ca) => ReadKeeps(t, ca);
    case WriteOp(ca, v) => WriteKeeps(t, ca, v);
  }

  /** The final table and the values read along the way. */
  ghost function Run(t: Table, ops: seq<Op>): (Table, seq<nat>)
    requires Coherent(t) && forall op | op in ops :: op.WriteOp? ==> op.v < VALUES
    decreases |ops|
  {
    if ops == [] then (t, [])
    else
      StepKeeps(t, ops[0]);
      var (t', out) := Run(Step(t, ops[0]), ops[1..]);
      (t', (if ops[0].ReadOp? then [t.Read(ops[0].ca, t.AllOk())] else []) + out)
  }

  /** Every run of reads and writes gives the answers of a plain array, ends coherent, and keeps an
      exact bitmap exact. */
  lemma {:induction false} RunsLikeAnArray(t: Table, ops: seq<Op>)
    requires Coherent(t) && forall op | op in ops :: op.WriteOp? ==> op.v < VALUES
    ensures var (t', out) := Run(t, ops);
      && Coherent(t') && (Exact(t) ==> Exact(t'))
      && (Logical(t'), out) == PlainRun(Logical(t), t.root, ops)
    decreases |ops|
  {
    hide DecodeValue, EncodeValue, Elect;
    if ops != [] {
      StepKeeps(t, ops[0]);
      RunsLikeAnArray(Step(t, ops[0]), ops[1..]);
    }
  }

  // ----- fat_repair and fat_cache_hload

  /** The same volume with the same values, still coherent. */
  ghost predicate Steady(t: Table, t': Table) {
    && Coherent(t) && Coherent(t') && |t'.disk| == |t.disk|
    && t'.root == t.root && t'.total == t.total && t'.cached == t.cached && t'.mapped == t.mapped
    && Logical(t') == Logical(t)
  }

  /** One round of `fat_repair`. */
  ghost function ReadStep(t: Table, ca: nat): (t': Table)
    requires Coherent(t)
    ensures Steady(t, t')
  {
    ReadKeeps(t, ca);
    t.AfterRead(ca, t.AllOk(), t.AllOk())
  }

  /** The table after `fat_repair` has read the clusters below `k`. */
  ghost function Repaired(t: Table, k: nat): (t': Table)
    requires Coherent(t) && k <= t.total
    ensures Steady(t, t')
  {
    if k == 0 then t
    else
      ReadStep(Repaired(t, k - 1), k - 1)
  }

  /** All copies of a cluster yield its value, or there is one stray copy of a BAD cluster. */
  ghost predicate Healed(t: Table, ca: nat)
    requires t.Valid() && ca < t.total
  {
    AllAre(t.Values(ca, t.AllOk()), t.Stored(ca)) || (t.Stored(ca) == BAD && OneStray(t.Values(ca, t.AllOk())))
  }

  lemma {:induction false} ReadHealsOne(t: Table, ca: nat)
    requires Coherent(t) && t.InRange(ca) && !t.Hit(ca)
    ensures var t' := t.AfterRead(ca, t.AllOk(), t.AllOk());
      && t'.Valid() && |t'.disk| == |t.disk| && Healed(t', ca)
      && forall c: nat | c < t.total && c != ca && Healed(t, c) :: Healed(t', c)
  {
    hide DecodeValue, EncodeValue, Elect;
    var v := t.Stored(ca);
    ReadKeeps(t, ca);
    ReadHeals(t, ca);
    ReadBound(t, ca, t.AllOk());
    NoteKeepsStored(t, ca, v);
    PutYields(t.Note(ca, v), ca, v);
    var t' := t.AfterRead(ca, t.AllOk(), t.AllOk());
    assert Logical(t')[ca] == Logical(t)[ca];
    forall c: nat | c < t.total && c != ca ensures t'.Values(c, t.AllOk()) == t.Values(c, t.AllOk()) {
    }
  }

  /** `fat_repair` on a table without a cache heals every cluster and changes no value. */
  lemma {:induction false} RepairHeals(t: Table, k: nat)
    requires Coherent(t) && !t.cached && k <= t.total
    ensures forall c: nat | c < k && t.InRange(c) :: Healed(Repaired(t, k), c)
  {
    hide DecodeValue, EncodeValue, Elect;
    if k > 0 {
      var p := Repaired(t, k - 1);
      RepairHeals(t, k - 1);
      if t.InRange(k - 1) {
        ReadHealsOne(p, k - 1);
      }
    }
  }

  /** `fatmap_set` or `fatmap_unset`, by the value. */
  function Marked(t: Table, ca: nat, v: nat): Table
    requires ca < |t.taken|
  {
    t.(taken := if t.mapped then t.taken[ca := v != FREE] else t.taken)
  }

  lemma {:induction false} LoadSteady(t: Table, ca: nat)
    requires Coherent(t) && ca < t.total
    ensures var p := t.AfterRead(ca, t.AllOk(), t.AllOk());
      p.Valid() && Steady(t, Marked(p, ca, t.Read(ca, t.AllOk())))
  {
    hide DecodeValue, EncodeValue, Elect;
    ReadKeeps(t, ca);
    MarkKeeps(t.AfterRead(ca, t.AllOk(), t.AllOk()), ca);
  }

  /** One round of `fat_cache_hload`. */
  ghost function LoadStep(t: Table, ca: nat): (t': Table)
    requires Coherent(t) && ca < t.total
    ensures Steady(t, t')
  {
    LoadSteady(t, ca);
    Marked(t.AfterRead(ca, t.AllOk(), t.AllOk()), ca, t.Read(ca, t.AllOk()))
  }

  /** The table after `fat_cache_hload` has visited the clusters below `k`. */
  ghost function Loaded(t: Table, k: nat): (t': Table)
    requires Coherent(t) && k <= t.total
    ensures Steady(t, t')
  {
    if k == 0 then t
    else
      var p := Loaded(t, k - 1);
      LoadStep(p, k - 1)
  }

  lemma {:induction false} MarkKeeps(t: Table, ca: nat)
    requires Coherent(t) && ca < t.total
    ensures var v := if t.InRange(ca) then t.Stored(ca) else BAD; var t' := Marked(t, ca, v);
      && Coherent(t') && Logical(t') == Logical(t)
      && forall c: nat | t.InRange(c) && (ExactAt(t, c) || (c == ca && t.mapped)) :: ExactAt(t', c)
  {
    hide DecodeValue, Elect;
    var v := if t.InRange(ca) then t.Stored(ca) else BAD;
    var t' := Marked(t, ca, v);
    forall c: nat | c < t.total ensures t'.Values(c, t.AllOk()) == t.Values(c, t.AllOk()) {
    }
    forall c: nat | t.InRange(c) ensures CoherentAt(t', c) {
      assert CoherentAt(t, c);
    }
  }

  /** After `fat_cache_hload` the bitmap tells exactly which clusters are free, and the clusters
      before the root count as taken. */
  lemma {:induction false} LoadIsExact(t: Table, k: nat)
    requires Coherent(t) && t.mapped && k <= t.total
    ensures forall c: nat | c < k && t.InRange(c) :: ExactAt(Loaded(t, k), c)
    ensures forall c: nat | c < k && c < t.root :: Loaded(t, k).taken[c]
  {
    hide DecodeValue, EncodeValue, Elect;
    if k > 0 {
      var p := Loaded(t, k - 1);
      LoadIsExact(t, k - 1);
      ReadKeeps(p, k - 1);
      MarkKeeps(p.AfterRead(k - 1, t.AllOk(), t.AllOk()), k - 1);
    }
  }
}
