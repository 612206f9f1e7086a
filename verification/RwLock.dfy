/** The reader/writer lock of `std/threading.c` as a transition system: any number of threads
    share one lock word, and each load and each compare-and-swap of a thread is one step. */
module RwLock {
  // ----- the lock word (`include/std/threading.h`)

  const NO_OWNER := 0xFF
  const MAX_READERS := 255

  /** `LOCK_PACK`: readers in bits 0 to 7, the write flag in bit 8, the owner in bits 16 to 31. */
  function Pack(readers: nat, write: bool, owner: nat): nat {
    readers % 0x100 + (if write then 0x100 else 0) + owner % 0x1_0000 * 0x1_0000
  }

  function Readers(w: nat): nat {
    w % 0x100
  }

  predicate IsWrite(w: nat) {
    w / 0x100 % 2 == 1
  }

  function Owner(w: nat): nat {
    w / 0x1_0000 % 0x1_0000
  }

  const NULL_LOCK := Pack(0, false, NO_OWNER)

  lemma {:induction false} Fields(readers: nat, write: bool, owner: nat)
    requires readers < 0x100
    ensures var w := Pack(readers, write, owner);
      Readers(w) == readers && IsWrite(w) == write && Owner(w) == owner % 0x1_0000
  {
    var o := owner % 0x1_0000;
    var w := Pack(readers, write, owner);
    assert w / 0x1_0000 == o;
    assert w / 0x100 == (if write then 1 else 0) + 0x100 * o;
  }

  // ----- one call

  datatype Call = RequireRead | ReleaseRead | RequireWrite(owner: nat) | ReleaseWrite(owner: nat)

  datatype Decision = Fail | Retry | Swap(newVal: nat)

  /** What a call decides on the value that it loaded. */
  function Decide(call: Call, w: nat): Decision {
    match call
    case RequireRead =>
      if IsWrite(w) then Retry
      else if Readers(w) >= MAX_READERS then Fail
      else Swap(Pack(Readers(w) + 1, false, NO_OWNER))
    case ReleaseRead =>
      if IsWrite(w) || Readers(w) == 0 then Fail
      else if Readers(w) == 1 then Swap(NULL_LOCK)
      else Swap(Pack(Readers(w) - 1, false, NO_OWNER))
    case RequireWrite(owner) =>
      if !IsWrite(w) && Readers(w) == 0 then Swap(Pack(0, true, owner)) else Retry
    case ReleaseWrite(owner) =>
      if !IsWrite(w) || Owner(w) != owner then Fail else Swap(NULL_LOCK)
  }

  // ----- threads

  /** A thread is outside, in a call and about to load, or in a call and about to act on `oldVal`. */
  datatype Phase = Outside | Asking(call: Call) | Loaded(call: Call, oldVal: nat)

  /** `shared` and `exclusive`: what the thread holds. `id` is its owner number. */
  datatype Thread = Thread(id: nat, phase: Phase, shared: nat, exclusive: bool)

  datatype State = State(word: nat, threads: seq<Thread>)

  datatype Event = Begin(t: nat, call: Call) | Load(t: nat) | Act(t: nat) | GiveUp(t: nat)

  /** No other thread has the owner number of thread `t`. */
  ghost predicate PrivateId(ts: seq<Thread>, t: nat)
    requires t < |ts|
  {
    forall u | 0 <= u < |ts| && u != t :: ts[u].id != ts[t].id
  }

  /** A thread is in one call at a time, names itself as the owner, and gives back reads only if it
      holds one. Waiting for a lock may end at any time. */
  ghost predicate Possible(st: State, e: Event) {
    && e.t < |st.threads|
    && var th := st.threads[e.t];
      match e
      case Begin(t, call) =>
        && th.phase.Outside?
        && (call.RequireWrite? || call.ReleaseWrite? ==> call.owner == th.id)
        && (call.ReleaseRead? ==> th.shared > 0)
      case Load(_) => th.phase.Asking?
      case Act(_) => th.phase.Loaded?
      case GiveUp(_) => !th.phase.Outside? && (th.phase.call.RequireRead? || th.phase.call.RequireWrite?)
  }

  /** A thread may try to give back a write lock that it does not hold if no other thread has its
      number. */
  ghost predicate Enabled(st: State, e: Event) {
    && Possible(st, e)
    && (e.Begin? && e.call.ReleaseWrite? ==> st.threads[e.t].exclusive || PrivateId(st.threads, e.t))
  }

  /** The thread after its compare-and-swap has succeeded. */
  function Done(th: Thread, call: Call): Thread {
    var out := th.(phase := Outside);
    match call
    case RequireRead => out.(shared := th.shared + 1)
    case ReleaseRead => out.(shared := if th.shared > 0 then th.shared - 1 else 0)
    case RequireWrite(_) => out.(exclusive := true)
    case ReleaseWrite(_) => out.(exclusive := false)
  }

  ghost function Next(st: State, e: Event): State
    requires Possible(st, e)
  {
    var th := st.threads[e.t];
    match e
    case Begin(t, call) => st.(threads := st.threads[t := th.(phase := Asking(call))])
    case Load(t) => st.(threads := st.threads[t := th.(phase := Loaded(th.phase.call, st.word))])
    case GiveUp(t) => st.(threads := st.threads[t := th.(phase := Outside)])
    case Act(t) =>
      match Decide(th.phase.call, th.phase.oldVal)
      case Fail => st.(threads := st.threads[t := th.(phase := Outside)])
      case Retry => st.(threads := st.threads[t := th.(phase := Asking(th.phase.call))])
      case Swap(newVal) =>
        if st.word == th.phase.oldVal then State(newVal, st.threads[t := Done(th, th.phase.call)])
        else st.(threads := st.threads[t := th.(phase := Asking(th.phase.call))])
  }

  // ----- the invariant

  /** Read locks held, over all threads. */
  ghost function ReadHolds(ts: seq<Thread>): nat {
    if ts == [] then 0 else ts[0].shared + ReadHolds(ts[1..])
  }

  lemma {:induction false} HoldsUpdate(ts: seq<Thread>, t: nat, th: Thread)
    requires t < |ts|
    ensures ReadHolds(ts[t := th]) == ReadHolds(ts) - ts[t].shared + th.shared && ts[t].shared <= ReadHolds(ts)
  {
    if t == 0 {
      assert ts[t := th][1..] == ts[1..];
    } else {
      HoldsUpdate(ts[1..], t - 1, th);
      assert ts[t := th][1..] == ts[1..][t - 1 := th];
    }
  }

  ghost predicate OneWriter(ts: seq<Thread>) {
    forall t, u | 0 <= t < u < |ts| :: !(ts[t].exclusive && ts[u].exclusive)
  }

  ghost predicate NoWriter(ts: seq<Thread>) {
    forall t | 0 <= t < |ts| :: !ts[t].exclusive
  }

  /** The word tells what the threads hold. */
  ghost predicate Tells(word: nat, ts: seq<Thread>) {
    && (NoWriter(ts) ==> ReadHolds(ts) <= MAX_READERS && word == Pack(ReadHolds(ts), false, NO_OWNER))
    && (forall t | 0 <= t < |ts| && ts[t].exclusive :: ReadHolds(ts) == 0 && word == Pack(0, true, ts[t].id))
  }

  /** What is known of a value that a release has loaded. */
  ghost predicate Fresh(word: nat, ts: seq<Thread>, t: nat)
    requires t < |ts|
  {
    var th := ts[t];
    match th.phase
    case Outside => true
    case Asking(call) => Sane(ts, t, call)
    case Loaded(call, oldVal) =>
      && Sane(ts, t, call)
      && (call.ReleaseRead? ==> !IsWrite(oldVal) && Readers(oldVal) > 0)
      && (call.ReleaseWrite? && th.exclusive ==> oldVal == word)
      && (call.ReleaseWrite? && !th.exclusive ==> !IsWrite(oldVal) || Owner(oldVal) != th.id)
  }

  ghost predicate Sane(ts: seq<Thread>, t: nat, call: Call)
    requires t < |ts|
  {
    && (call.RequireWrite? || call.ReleaseWrite? ==> call.owner == ts[t].id)
    && (call.ReleaseRead? ==> ts[t].shared > 0)
    && (call.ReleaseWrite? ==> ts[t].exclusive || PrivateId(ts, t))
  }

  ghost predicate Inv(st: State) {
    && (forall t | 0 <= t < |st.threads| :: st.threads[t].id < 0x1_0000)
    && OneWriter(st.threads) && Tells(st.word, st.threads)
    && forall t | 0 <= t < |st.threads| :: Fresh(st.word, st.threads, t)
  }

  /** What the word says of the holds. */
  lemma {:induction false} WordSays(st: State)
    requires Inv(st)
    ensures !IsWrite(st.word) <==> NoWriter(st.threads)
    ensures Readers(st.word) == ReadHolds(st.threads) <= MAX_READERS
    ensures forall t | 0 <= t < |st.threads| && st.threads[t].exclusive ::
      Owner(st.word) == st.threads[t].id && ReadHolds(st.threads) == 0
  {
    if NoWriter(st.threads) {
      Fields(ReadHolds(st.threads), false, NO_OWNER);
    }
    forall t | 0 <= t < |st.threads| && st.threads[t].exclusive
      ensures IsWrite(st.word) && Readers(st.word) == 0 && Owner(st.word) == st.threads[t].id
    {
      Fields(0, true, st.threads[t].id);
    }
  }

  lemma {:induction false} OthersFresh(st: State, t: nat, th: Thread, word: nat)
    requires Inv(st) && t < |st.threads| && th.id == st.threads[t].id
    requires word == st.word || forall u | 0 <= u < |st.threads| && u != t :: !st.threads[u].exclusive
    ensures var ts' := st.threads[t := th]; forall u | 0 <= u < |ts'| && u != t :: Fresh(word, ts', u)
  {
    var ts' := st.threads[t := th];
    forall u | 0 <= u < |ts'| && u != t ensures Fresh(word, ts', u) {
      assert Fresh(st.word, st.threads, u);
      if PrivateId(st.threads, u) {
        assert PrivateId(ts', u);
      }
    }
  }

  /** A step that moves no lock. */
  lemma {:induction false} PhaseKeeps(st: State, t: nat, phase: Phase)
    requires Inv(st) && t < |st.threads|
    requires Fresh(st.word, st.threads[t := st.threads[t].(phase := phase)], t)
    ensures Inv(st.(threads := st.threads[t := st.threads[t].(phase := phase)]))
  {
    hide Fresh, PrivateId;
    var th := st.threads[t].(phase := phase);
    HoldsUpdate(st.threads, t, th);
    OthersFresh(st, t, th, st.word);
    var ts' := st.threads[t := th];
    assert NoWriter(ts') ==> NoWriter(st.threads) by {
      assert forall u | 0 <= u < |ts'| :: ts'[u].exclusive == st.threads[u].exclusive;
    }
  }

  lemma {:induction false} SaneKeeps(ts: seq<Thread>, t: nat, phase: Phase, call: Call)
    requires t < |ts|
    ensures Sane(ts[t := ts[t].(phase := phase)], t, call) <==> Sane(ts, t, call)
  {
    var ts' := ts[t := ts[t].(phase := phase)];
    assert forall u | 0 <= u < |ts| :: ts'[u].id == ts[u].id;
  }

  /** A loaded value is one that the call can act on. */
  lemma {:induction false} LoadKeeps(st: State, t: nat)
    requires Inv(st) && t < |st.threads| && st.threads[t].phase.Asking?
    ensures Inv(Next(st, Load(t)))
  {
    var th := st.threads[t];
    var phase := Loaded(th.phase.call, st.word);
    assert Fresh(st.word, st.threads, t);
    WordSays(st);
    HoldsUpdate(st.threads, t, th);
    SaneKeeps(st.threads, t, phase, th.phase.call);
    if th.phase.call.ReleaseWrite? && !th.exclusive && IsWrite(st.word) {
      var u :| 0 <= u < |st.threads| && st.threads[u].exclusive;
      assert Owner(st.word) == st.threads[u].id;
    }
    PhaseKeeps(st, t, phase);
  }

  /** A compare-and-swap that succeeds moves exactly one lock. */
  lemma {:induction false} SwapKeeps(st: State, t: nat)
    requires Inv(st) && t < |st.threads| && st.threads[t].phase.Loaded? && st.threads[t].phase.oldVal == st.word
    requires Decide(st.threads[t].phase.call, st.word).Swap?
    ensures Inv(Next(st, Act(t)))
  {
    var ts, th := st.threads, st.threads[t];
    var call := th.phase.call;
    var out, word' := Done(th, call), Decide(call, st.word).newVal;
    WordSays(st);
    HoldsUpdate(ts, t, out);
    HoldsUpdate(ts, t, th);
    assert Fresh(st.word, ts, t);
    if call.ReleaseWrite? {
      assert th.exclusive;
    } else {
      assert NoWriter(ts);
    }
    OthersFresh(st, t, out, word');
    var ts' := ts[t := out];
    assert forall u | 0 <= u < |ts| && u != t :: !ts'[u].exclusive;
    assert OneWriter(ts');
    assert NoWriter(ts') <==> !out.exclusive by {
      assert ts'[t] == out;
    }
    assert Tells(word', ts');
  }

  lemma {:induction false} NextKeeps(st: State, e: Event)
    requires Inv(st) && Enabled(st, e)
    ensures Inv(Next(st, e))
  {
    hide Pack, Readers, IsWrite, Owner, Tells, OneWriter, PrivateId;
    var ts, th := st.threads, st.threads[e.t];
    assert Fresh(st.word, ts, e.t);
    match e
    case Begin(t, call) =>
      SaneKeeps(ts, t, Asking(call), call);
      PhaseKeeps(st, t, Asking(call));
    case Load(t) => LoadKeeps(st, t);
    case GiveUp(t) => PhaseKeeps(st, t, Outside);
    case Act(t) =>
      var call := th.phase.call;
      var decision := Decide(call, th.phase.oldVal);
      if decision.Swap? && st.word == th.phase.oldVal {
        SwapKeeps(st, t);
      } else if decision.Fail? {
        PhaseKeeps(st, t, Outside);
      } else {
        SaneKeeps(ts, t, Asking(call), call);
        PhaseKeeps(st, t, Asking(call));
      }
  }

  // ----- what the invariant means

  /** The lock word counts the readers, and its write bit is set exactly when there is a writer,
      who is then alone and whose number the word holds. */
  lemma {:induction false} Excludes(st: State)
    requires Inv(st)
    ensures Readers(st.word) == ReadHolds(st.threads) <= MAX_READERS
    ensures IsWrite(st.word) <==> exists t :: 0 <= t < |st.threads| && st.threads[t].exclusive
    ensures forall t | 0 <= t < |st.threads| && st.threads[t].exclusive ::
      && Owner(st.word) == st.threads[t].id
      && forall u | 0 <= u < |st.threads| :: st.threads[u].shared == 0 && (st.threads[u].exclusive ==> u == t)
  {
    WordSays(st);
    forall t, u | 0 <= t < |st.threads| && st.threads[t].exclusive && 0 <= u < |st.threads|
      ensures st.threads[u].shared == 0
    {
      HoldsUpdate(st.threads, u, st.threads[u]);
    }
  }

  // ----- what a call does

  /** The thread leaves its call, or asks again, and holds what it held. */
  ghost function Left(st: State, t: nat): State
    requires t < |st.threads|
  {
    st.(threads := st.threads[t := st.threads[t].(phase := Outside)])
  }

  ghost function Again(st: State, t: nat): State
    requires t < |st.threads| && !st.threads[t].phase.Outside?
  {
    st.(threads := st.threads[t := st.threads[t].(phase := Asking(st.threads[t].phase.call))])
  }

  /** A thread that has loaded the present word is granted a read lock exactly when there is no
      writer and fewer than 255 read locks are held; with 255 it is refused, and while there is a
      writer it asks again. */
  lemma {:induction false} RequireReadIs(st: State, t: nat)
    requires Inv(st) && t < |st.threads| && st.threads[t].phase == Loaded(RequireRead, st.word)
    ensures var ts, th, st' := st.threads, st.threads[t], Next(st, Act(t));
      if exists u :: 0 <= u < |ts| && ts[u].exclusive then st' == Again(st, t)
      else if ReadHolds(ts) == 255 then st' == Left(st, t)
      else (
        && ReadHolds(ts) < 255 && ReadHolds(st'.threads) == ReadHolds(ts) + 1
        && st'.threads == ts[t := th.(phase := Outside, shared := th.shared + 1)])
  {
    WordSays(st);
    HoldsUpdate(st.threads, t, Done(st.threads[t], RequireRead));
  }

  /** ... and is granted the write lock exactly when nobody holds anything; else it asks again. */
  lemma {:induction false} RequireWriteIs(st: State, t: nat)
    requires Inv(st) && t < |st.threads| && st.threads[t].phase.Loaded? && st.threads[t].phase.oldVal == st.word
    requires st.threads[t].phase.call.RequireWrite?
    ensures var ts, th, st' := st.threads, st.threads[t], Next(st, Act(t));
      if exists u :: 0 <= u < |ts| && (ts[u].exclusive || ts[u].shared > 0) then st' == Again(st, t)
      else st'.threads == ts[t := th.(phase := Outside, exclusive := true)]
  {
    WordSays(st);
    NobodyReads(st.threads);
  }

  lemma {:induction false} NobodyReads(ts: seq<Thread>)
    ensures ReadHolds(ts) == 0 <==> forall u | 0 <= u < |ts| :: ts[u].shared == 0
  {
    if ts != [] {
      NobodyReads(ts[1..]);
      assert forall u | 0 <= u < |ts| - 1 :: ts[1..][u] == ts[u + 1];
    }
  }

  /** A release that acts on the present word gives back exactly one lock that the thread holds. */
  lemma {:induction false} ReleaseGivesBack(st: State, t: nat)
    requires Inv(st) && t < |st.threads| && st.threads[t].phase.Loaded? && st.threads[t].phase.oldVal == st.word
    ensures var ts, th, st', call := st.threads, st.threads[t], Next(st, Act(t)), st.threads[t].phase.call;
      && (call.ReleaseRead? ==> th.shared > 0 && ReadHolds(st'.threads) == ReadHolds(ts) - 1)
      && (call.ReleaseRead? ==> st'.threads == ts[t := th.(phase := Outside, shared := th.shared - 1)])
      && (call.ReleaseWrite? && th.exclusive ==> st'.threads == ts[t := th.(phase := Outside, exclusive := false)])
      && (call.ReleaseWrite? && !th.exclusive ==> st' == Left(st, t))
  {
    ReleaseIs(st, t);
    assert Fresh(st.word, st.threads, t);
    HoldsUpdate(st.threads, t, Done(st.threads[t], ReleaseRead));
  }

  /** On a word that has changed since it was loaded, no call takes or gives back a lock. */
  lemma {:induction false} StaleIs(st: State, t: nat)
    requires Inv(st) && t < |st.threads| && st.threads[t].phase.Loaded? && st.threads[t].phase.oldVal != st.word
    ensures Next(st, Act(t)) == Left(st, t) || Next(st, Act(t)) == Again(st, t)
    ensures st.threads[t].phase.call.ReleaseRead? ==> Next(st, Act(t)) == Again(st, t)
  {
    ReleaseIs(st, t);
  }

  /** A release by a thread that holds the lock is never refused; a release by a thread that does
      not hold the write lock never changes the word. */
  lemma {:induction false} ReleaseIs(st: State, t: nat)
    requires Inv(st) && t < |st.threads| && st.threads[t].phase.Loaded?
    ensures var call, oldVal := st.threads[t].phase.call, st.threads[t].phase.oldVal;
      && (call.ReleaseRead? ==> Decide(call, oldVal).Swap?)
      && (call.ReleaseWrite? && st.threads[t].exclusive ==>
        Decide(call, oldVal).Swap? && Next(st, Act(t)).word == NULL_LOCK)
      && (call.ReleaseWrite? && !st.threads[t].exclusive ==>
        Decide(call, oldVal).Fail? && Next(st, Act(t)).word == st.word)
  {
    WordSays(st);
    assert Fresh(st.word, st.threads, t);
  }

  /** A write release by another thread is refused exactly when its number differs from the
      holder's; with the default `get_thread_num`, which is zero for every thread, it is not. */
  lemma {:induction false} ForeignReleaseIff(holder: nat, other: nat)
    requires holder < 0x1_0000 && other < 0x1_0000
    ensures Decide(ReleaseWrite(other), Pack(0, true, holder)).Fail? <==> other != holder
  {
    Fields(0, true, holder);
  }

  // ----- runs

  ghost predicate RunPossible(st: State, es: seq<Event>)
    decreases |es|
  {
    es == [] || (Possible(st, es[0]) && RunPossible(Next(st, es[0]), es[1..]))
  }

  ghost predicate RunEnabled(st: State, es: seq<Event>)
    requires RunPossible(st, es)
    decreases |es|
  {
    es == [] || (Enabled(st, es[0]) && RunEnabled(Next(st, es[0]), es[1..]))
  }

  ghost function Run(st: State, es: seq<Event>): State
    requires RunPossible(st, es)
    decreases |es|
  {
    if es == [] then st else Run(Next(st, es[0]), es[1..])
  }

  /** Nobody holds the lock or is in a call. */
  ghost predicate Initial(st: State) {
    && st.word == NULL_LOCK
    && forall t | 0 <= t < |st.threads| ::
      && st.threads[t].id < 0x1_0000 && st.threads[t].phase == Outside
      && st.threads[t].shared == 0 && !st.threads[t].exclusive
  }

  lemma {:induction false} InitialHolds(ts: seq<Thread>)
    requires forall t | 0 <= t < |ts| :: ts[t].shared == 0
    ensures ReadHolds(ts) == 0
  {
    if ts != [] {
      InitialHolds(ts[1..]);
    }
  }

  /** In every run the word counts the read locks, at most 255 of them, and a writer is alone. */
  lemma {:induction false} RunsExclude(st: State, es: seq<Event>)
    requires Inv(st) && RunPossible(st, es) && RunEnabled(st, es)
    ensures var st' := Run(st, es);
      && Inv(st') && Readers(st'.word) == ReadHolds(st'.threads) <= MAX_READERS
      && (IsWrite(st'.word) ==> ReadHolds(st'.threads) == 0)
    decreases |es|
  {
    if es == [] {
      WordSays(st);
      if IsWrite(st.word) {
        var t :| 0 <= t < |st.threads| && st.threads[t].exclusive;
      }
    } else {
      NextKeeps(st, es[0]);
      RunsExclude(Next(st, es[0]), es[1..]);
    }
  }

  lemma {:induction false} InitialInv(st: State)
    requires Initial(st)
    ensures Inv(st)
  {
    InitialHolds(st.threads);
  }

  // ----- write releases at will

  /** A writer is alone. */
  ghost predicate Exclusive(st: State) {
    forall t, u | 0 <= t < |st.threads| && 0 <= u < |st.threads| && st.threads[t].exclusive && u != t ::
      !st.threads[u].exclusive && st.threads[u].shared == 0
  }

  ghost predicate PrivateIds(ts: seq<Thread>) {
    forall t, u | 0 <= t < u < |ts| :: ts[t].id != ts[u].id
  }

  /** Every run that starts here keeps writers alone, although any thread may call for a write
      release at any time. */
  ghost predicate AlwaysExclusive(st: State) {
    forall es | RunPossible(st, es) :: Exclusive(Run(st, es))
  }

  lemma {:induction false} PrivateStays(st: State, e: Event)
    requires Possible(st, e) && PrivateIds(st.threads)
    ensures Enabled(st, e) && PrivateIds(Next(st, e).threads)
  {
    assert forall u | 0 <= u < |st.threads| :: Next(st, e).threads[u].id == st.threads[u].id;
  }

  lemma {:induction false} PrivateRuns(st: State, es: seq<Event>)
    requires Inv(st) && RunPossible(st, es) && PrivateIds(st.threads)
    ensures Exclusive(Run(st, es))
    decreases |es|
  {
    if es == [] {
      Excludes(st);
    } else {
      PrivateStays(st, es[0]);
      NextKeeps(st, es[0]);
      PrivateRuns(Next(st, es[0]), es[1..]);
    }
  }

  /** A call that nobody interrupts, from its beginning to its compare-and-swap. */
  function Alone(t: nat, call: Call): seq<Event> {
    [Begin(t, call), Load(t), Act(t)]
  }

  lemma {:induction false} AloneSucceeds(st: State, t: nat, call: Call, rest: seq<Event>)
    requires t < |st.threads| && Possible(st, Begin(t, call)) && Decide(call, st.word).Swap?
    ensures var st' := State(Decide(call, st.word).newVal, st.threads[t := Done(st.threads[t], call)]);
      && (RunPossible(st, Alone(t, call) + rest) <==> RunPossible(st', rest))
      && (RunPossible(st', rest) ==> Run(st, Alone(t, call) + rest) == Run(st', rest))
  {
    hide Decide, Done, RunPossible;
    var a := Next(st, Begin(t, call));
    var b := Next(a, Load(t));
    assert a.threads[t].phase == Asking(call) && b.threads[t].phase == Loaded(call, st.word);
    DoneForgets(st.threads[t], call, Loaded(call, st.word));
    assert Next(b, Act(t)).threads == st.threads[t := Done(st.threads[t], call)];
    RunStep(b, Act(t), rest);
    RunStep(a, Load(t), [Act(t)] + rest);
    RunStep(st, Begin(t, call), [Load(t)] + ([Act(t)] + rest));
    assert Alone(t, call) + rest == [Begin(t, call)] + ([Load(t)] + ([Act(t)] + rest));
  }

  lemma RunStep(st: State, e: Event, rest: seq<Event>)
    requires Possible(st, e)
    ensures RunPossible(st, [e] + rest) <==> RunPossible(Next(st, e), rest)
    ensures RunPossible(Next(st, e), rest) ==> Run(st, [e] + rest) == Run(Next(st, e), rest)
  {
    assert ([e] + rest)[1..] == rest;
  }

  lemma DoneForgets(th: Thread, call: Call, phase: Phase)
    ensures Done(th.(phase := phase), call) == Done(th, call)
  {
  }

  /** Two threads with one number: the second gives back what the first holds, and takes it. */
  lemma {:induction false} TwinThreads(st: State, t: nat, u: nat)
    requires Initial(st) && t < u < |st.threads| && st.threads[t].id == st.threads[u].id
    ensures !AlwaysExclusive(st)
  {
    var id := st.threads[t].id;
    var take, give := RequireWrite(id), ReleaseWrite(id);
    Fields(0, false, NO_OWNER);
    Fields(0, true, id);
    var last := Alone(u, take);
    var es := Alone(t, take) + (Alone(u, give) + (last + []));
    AloneSucceeds(st, t, take, Alone(u, give) + (last + []));
    var st1 := State(Pack(0, true, id), st.threads[t := Done(st.threads[t], take)]);
    AloneSucceeds(st1, u, give, last + []);
    var st2 := State(NULL_LOCK, st1.threads[u := Done(st1.threads[u], give)]);
    AloneSucceeds(st2, u, take, []);
    var st3 := State(Pack(0, true, id), st2.threads[u := Done(st2.threads[u], take)]);
    assert RunPossible(st, es) && Run(st, es) == st3;
    assert st3.threads[t].exclusive && st3.threads[u].exclusive;
  }

  /** If threads may call for a write release at will, writers are alone in every run if and only if
      no two threads have the same number. */
  lemma {:induction false} AtWillIff(st: State)
    requires Initial(st)
    ensures AlwaysExclusive(st) <==> PrivateIds(st.threads)
  {
    if PrivateIds(st.threads) {
      InitialInv(st);
      forall es | RunPossible(st, es) ensures Exclusive(Run(st, es)) {
        PrivateRuns(st, es);
      }
    } else {
      var t: nat, u: nat :| t < u < |st.threads| && st.threads[t].id == st.threads[u].id;
      TwinThreads(st, t, u);
    }
  }
}
