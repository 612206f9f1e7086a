/** The table of locked sector ranges of `src/disk.c`, which guards every disk access. */
module AreaLocks {
  const SLOTS := 25
  const U32 := 0x1_0000_0000

  /** `count` sectors from `start`; a count of -1 marks an idle slot. */
  datatype Area = Area(start: nat, count: int, ro: bool)

  const IDLE := Area(0, -1, false)

  /** The end of an area in 32-bit arithmetic. */
  function End(a: Area): nat {
    (a.start + a.count) % U32
  }

  predicate Overlap(a: Area, b: Area) {
    a.start < End(b) && b.start < End(a)
  }

  predicate Conflict(held: Area, a: Area) {
    held.count != -1 && Overlap(held, a) && !(a.ro && held.ro)
  }

  function FirstIdle(s: seq<Area>): (k: nat)
    ensures k <= |s| && (k < |s| ==> s[k].count == -1)
    ensures forall i | 0 <= i < k :: s[i].count != -1
  {
    if s == [] || s[0].count == -1 then 0 else 1 + FirstIdle(s[1..])
  }

  function FirstMatch(s: seq<Area>, start: nat, count: int): (k: nat)
    ensures k <= |s| && (k < |s| ==> s[k].start == start && s[k].count == count)
    ensures forall i | 0 <= i < k :: s[i].start != start || s[i].count != count
  {
    if s == [] || (s[0].start == start && s[0].count == count) then 0 else 1 + FirstMatch(s[1..], start, count)
  }

  ghost predicate Grantable(s: seq<Area>, a: Area) {
    FirstIdle(s) < |s| && forall i | 0 <= i < |s| :: !Conflict(s[i], a)
  }

  ghost function Granted(s: seq<Area>, a: Area): seq<Area>
    requires Grantable(s, a)
  {
    s[FirstIdle(s) := a]
  }

  /** Unlocking looks at start and count only. */
  ghost function Released(s: seq<Area>, start: nat, count: int): seq<Area> {
    if FirstMatch(s, start, count) < |s| then s[FirstMatch(s, start, count) := IDLE] else s
  }

  /** The table after a grant, and after the release if that could be made. */
  ghost function After(s: seq<Area>, a: Area, unlocked: bool): seq<Area>
    requires Grantable(s, a)
  {
    if unlocked then Released(Granted(s, a), a.start, a.count) else Granted(s, a)
  }

  class AreaTable {
    const slots: array<Area>

    ghost predicate Valid() {
      slots.Length == SLOTS
    }

    constructor ()
      ensures Valid() && fresh(slots) && forall i | 0 <= i < SLOTS :: slots[i] == IDLE
    {
      slots := new Area[SLOTS](_ => IDLE);
    }

    /** `_lock_area`; `acquired` tells whether the lock of the table could be taken. */
    method Lock(sa: nat, size: int, ro: bool, acquired: bool) returns (ok: bool)
      requires Valid()
      modifies slots
      ensures ok == (acquired && Grantable(old(slots[..]), Area(sa, size, ro)))
      ensures slots[..] == if ok then Granted(old(slots[..]), Area(sa, size, ro)) else old(slots[..])
      ensures var held, a := Active(old(slots[..])), Area(sa, size, ro);
        Exclusive(old(slots[..])) && Regular(a) ==>
          && ok == (acquired && |held| < SLOTS && forall b | b in held && Shared(a, b) :: a.ro && b.ro)
          && Exclusive(slots[..]) && Active(slots[..]) == if ok then held + multiset{a} else held
    {
      GrantIs(slots[..], Area(sa, size, ro));
      hide Exclusive, Active;
      if !acquired {
        return false;
      }
      var found, locked := -1, false;
      for i := 0 to SLOTS
        invariant !locked && found == if FirstIdle(slots[..]) < i then FirstIdle(slots[..]) else -1
        invariant forall j | 0 <= j < i :: !Conflict(slots[j], Area(sa, size, ro))
      {
        if slots[i].count == -1 {
          if found == -1 {
            found := i;
          }
          continue;
        }
        var aStart, aEnd := slots[i].start, (slots[i].start + slots[i].count) % U32;
        var bStart, bEnd := sa, (sa + size) % U32;
        if aStart < bEnd && bStart < aEnd {
          if !ro {
            locked := true;
            break;
          } else if !slots[i].ro {
            locked := true;
            break;
          }
        }
      }
      if !locked && found != -1 {
        slots[found] := Area(sa, size, ro);
        return true;
      }
      return false;
    }

    /** `_unlock_area` */
    method Unlock(sa: nat, size: int, acquired: bool) returns (ok: bool)
      requires Valid()
      modifies slots
      ensures ok == acquired
      ensures slots[..] == if acquired then Released(old(slots[..]), sa, size) else old(slots[..])
      ensures forall a | acquired && Exclusive(old(slots[..])) && Regular(a) && a in Active(old(slots[..]))
        && a.start == sa && a.count == size :: Active(slots[..]) == Active(old(slots[..])) - multiset{a}
    {
      forall a | Exclusive(slots[..]) && Regular(a) && a in Active(slots[..]) && a.start == sa && a.count == size
        ensures Active(Released(slots[..], sa, size)) == Active(slots[..]) - multiset{a}
      {
        ReleaseKeeps(slots[..], a);
      }
      hide Exclusive, Active;
      if !acquired {
        return false;
      }
      for i := 0 to SLOTS
        invariant slots[..] == old(slots[..]) && i <= FirstMatch(slots[..], sa, size)
      {
        if slots[i].start == sa && slots[i].count == size {
          slots[i] := IDLE;
          break;
        }
      }
      return true;
    }
  }

  // ----- what the table keeps

  /** A range that callers ask for: not empty, and within 32 bits. */
  predicate Regular(a: Area) {
    1 <= a.count && a.start + a.count < U32
  }

  /** Sector addresses have 32 bits: an area may go on from sector 0. */
  predicate Covers(a: Area, sector: nat) {
    sector < U32 && (a.start <= sector < a.start + a.count || sector + U32 < a.start + a.count)
  }

  ghost predicate Shared(a: Area, b: Area) {
    exists sector: nat :: Covers(a, sector) && Covers(b, sector)
  }

  lemma {:induction false} OverlapIffShared(a: Area, b: Area)
    requires Regular(a) && Regular(b)
    ensures Overlap(a, b) <==> Shared(a, b)
  {
    if Overlap(a, b) {
      var sector := if a.start < b.start then b.start else a.start;
      assert Covers(a, sector) && Covers(b, sector);
    }
  }

  /** A write lock on a range that is not empty keeps a second one out exactly when the end of the
      range does not wrap around. */
  lemma ExcludesItselfIff(a: Area)
    requires 1 <= a.count < U32 && a.start < U32 && !a.ro
    ensures Conflict(a, a) <==> a.start + a.count < U32
  {
    if a.start + a.count >= U32 {
      assert End(a) == a.start + a.count - U32;
    }
  }

  /** Against a range that wraps around, the comparison notices a request exactly when the request
      meets both the part before the end of the addresses and the part after it. */
  lemma {:induction false} WrappedOverlapIff(a: Area, b: Area)
    requires 1 <= a.count < U32 && a.start < U32 <= a.start + a.count && Regular(b)
    ensures Overlap(a, b) <==>
      && (exists s: nat :: s >= a.start && Covers(a, s) && Covers(b, s))
      && (exists s: nat :: s < End(a) && Covers(a, s) && Covers(b, s))
  {
    assert End(a) == a.start + a.count - U32 < a.start;
    if Overlap(a, b) {
      assert Covers(a, End(b) - 1) && Covers(b, End(b) - 1);
      assert Covers(a, b.start) && Covers(b, b.start);
    }
  }

  /** A write lock on a range that is not empty keeps every regular request for one of its sectors
      out exactly when it is regular itself, or is just the last sector there is. */
  lemma {:induction false} ExcludesIff(a: Area)
    requires 1 <= a.count < U32 && a.start < U32 && !a.ro
    ensures (forall b | Regular(b) && Shared(a, b) :: Conflict(a, b)) <==>
      Regular(a) || (a.start == U32 - 1 && a.count == 1)
  {
    if Regular(a) {
      forall b | Regular(b) && Shared(a, b) ensures Conflict(a, b) {
        OverlapIffShared(a, b);
      }
    } else if a.start < U32 - 1 {
      var b := Area(a.start, 1, false);
      assert End(a) == a.start + a.count - U32;
      assert Covers(a, a.start) && Covers(b, a.start);
      assert !Conflict(a, b);
    } else if a.count > 1 {
      var b := Area(0, 1, false);
      assert Covers(a, 0) && Covers(b, 0);
      assert !Conflict(a, b);
    }
  }

  ghost function One(a: Area): multiset<Area> {
    if a.count == -1 then multiset{} else multiset{a}
  }

  /** The areas in the table. */
  ghost function Active(s: seq<Area>): multiset<Area> {
    if s == [] then multiset{} else One(s[0]) + Active(s[1..])
  }

  lemma {:induction false} ActiveSplit(s: seq<Area>, k: nat)
    requires k < |s|
    ensures Active(s) == One(s[k]) + Active(s[..k] + s[k + 1..])
  {
    var t := s[..k] + s[k + 1..];
    if k == 0 {
      assert t == s[1..];
    } else {
      ActiveSplit(s[1..], k - 1);
      assert t[0] == s[0] && t[1..] == s[1..][..k - 1] + s[1..][k..];
    }
  }

  lemma {:induction false} ActiveUpdate(s: seq<Area>, k: nat, a: Area)
    requires k < |s|
    ensures One(s[k]) <= Active(s) && Active(s[k := a]) == Active(s) - One(s[k]) + One(a)
  {
    ActiveSplit(s, k);
    ActiveSplit(s[k := a], k);
    assert s[k := a][..k] + s[k := a][k + 1..] == s[..k] + s[k + 1..];
  }

  lemma {:induction false} ActiveSlot(s: seq<Area>, a: Area) returns (k: nat)
    requires a in Active(s)
    ensures k < |s| && s[k] == a && a.count != -1
  {
    if a in One(s[0]) {
      k := 0;
    } else {
      k := ActiveSlot(s[1..], a);
      k := k + 1;
    }
  }

  /** Only readers share sectors. */
  ghost predicate Exclusive(s: seq<Area>) {
    && (forall i | 0 <= i < |s| :: s[i].count == -1 || Regular(s[i]))
    && (forall i, j | 0 <= i < j < |s| && s[i].count != -1 && s[j].count != -1 && Overlap(s[i], s[j]) ::
      s[i].ro && s[j].ro)
  }

  lemma {:induction false} GrantKeeps(s: seq<Area>, a: Area)
    requires Exclusive(s) && Regular(a) && Grantable(s, a)
    ensures Exclusive(Granted(s, a)) && Active(Granted(s, a)) == Active(s) + multiset{a}
  {
    hide Active, FirstIdle;
    var k := FirstIdle(s);
    ActiveUpdate(s, k, a);
    var s' := Granted(s, a);
    forall i, j | 0 <= i < j < |s| && s'[i].count != -1 && s'[j].count != -1 && Overlap(s'[i], s'[j])
      ensures s'[i].ro && s'[j].ro
    {
      if i == k || j == k {
        assert !Conflict(s[i + j - k], a);
      } else {
        assert s'[i] == s[i] && s'[j] == s[j];
      }
    }
  }

  /** As many areas are held as there are slots that are not idle. */
  lemma {:induction false} ActiveSize(s: seq<Area>)
    ensures |Active(s)| <= |s| && (|Active(s)| < |s| <==> FirstIdle(s) < |s|)
  {
    if s != [] {
      ActiveSize(s[1..]);
    }
  }

  lemma {:induction false} SlotActive(s: seq<Area>, i: nat)
    requires i < |s| && s[i].count != -1
    ensures s[i] in Active(s)
  {
    ActiveUpdate(s, i, IDLE);
  }

  /** A request is granted exactly when there is room in the table and all areas held that share a
      sector with it are, like itself, for reading. */
  lemma {:induction false} GrantIff(s: seq<Area>, a: Area)
    requires Exclusive(s) && Regular(a)
    ensures Grantable(s, a) <==> |Active(s)| < |s| && forall b | b in Active(s) && Shared(a, b) :: a.ro && b.ro
  {
    ActiveSize(s);
    if Grantable(s, a) {
      forall b | b in Active(s) && Shared(a, b) ensures a.ro && b.ro {
        var i := ActiveSlot(s, b);
        OverlapIffShared(a, b);
        assert !Conflict(s[i], a);
      }
    }
    if forall b | b in Active(s) && Shared(a, b) :: a.ro && b.ro {
      forall i | 0 <= i < |s| ensures !Conflict(s[i], a) {
        if s[i].count != -1 && Overlap(s[i], a) {
          SlotActive(s, i);
          OverlapIffShared(a, s[i]);
        }
      }
    }
  }

  lemma {:induction false} GrantIs(s: seq<Area>, a: Area)
    ensures Exclusive(s) && Regular(a) ==>
      && (Grantable(s, a) <==> |Active(s)| < |s| && forall b | b in Active(s) && Shared(a, b) :: a.ro && b.ro)
      && (Grantable(s, a) ==> Exclusive(Granted(s, a)) && Active(Granted(s, a)) == Active(s) + multiset{a})
  {
    if Exclusive(s) && Regular(a) {
      GrantIff(s, a);
      if Grantable(s, a) {
        GrantKeeps(s, a);
      }
    }
  }

  lemma {:induction false} IdleKeeps(s: seq<Area>, k: nat)
    requires Exclusive(s) && k < |s|
    ensures Exclusive(s[k := IDLE])
  {
  }

  /** Although unlocking ignores the mode, it removes the very area that was granted. */
  lemma {:induction false} ReleaseKeeps(s: seq<Area>, a: Area)
    requires Exclusive(s) && Regular(a) && a in Active(s)
    ensures Exclusive(Released(s, a.start, a.count))
    ensures Active(Released(s, a.start, a.count)) == Active(s) - multiset{a}
  {
    var i := ActiveSlot(s, a);
    var k := FirstMatch(s, a.start, a.count);
    assert k < i ==> Overlap(s[k], s[i]);
    assert s[k] == a;
    IdleKeeps(s, k);
    ActiveUpdate(s, k, IDLE);
  }

  lemma {:induction false} ExclusiveMeans(s: seq<Area>, a: Area, b: Area)
    requires Exclusive(s) && a in Active(s) && b in Active(s) - multiset{a} && Shared(a, b)
    ensures a.ro && b.ro
  {
    var i := ActiveSlot(s, a);
    ActiveUpdate(s, i, IDLE);
    var j := ActiveSlot(s[i := IDLE], b);
    assert i != j;
    OverlapIffShared(a, b);
  }

  // ----- runs

  /** A request or a return, and whether the lock of the table could be taken. */
  datatype Event = Ask(a: Area, acquired: bool) | GiveBack(a: Area, acquired: bool)

  /** The table, and the areas that were granted and not yet given back. */
  datatype State = State(slots: seq<Area>, granted: multiset<Area>)

  ghost predicate Enabled(st: State, e: Event) {
    Regular(e.a) && (e.GiveBack? ==> e.a in st.granted)
  }

  ghost function Next(st: State, e: Event): State {
    if !e.acquired then st
    else match e
      case Ask(a, _) =>
        if Grantable(st.slots, a) then State(Granted(st.slots, a), st.granted + multiset{a}) else st
      case GiveBack(a, _) => State(Released(st.slots, a.start, a.count), st.granted - multiset{a})
  }

  ghost predicate Inv(st: State) {
    Exclusive(st.slots) && Active(st.slots) == st.granted
  }

  lemma {:induction false} NextKeeps(st: State, e: Event)
    requires Inv(st) && Enabled(st, e)
    ensures Inv(Next(st, e))
  {
    if e.acquired {
      match e
      case Ask(a, _) =>
        if Grantable(st.slots, a) {
          GrantKeeps(st.slots, a);
        }
      case GiveBack(a, _) => ReleaseKeeps(st.slots, a);
    }
  }

  ghost predicate RunEnabled(st: State, es: seq<Event>)
    decreases |es|
  {
    es == [] || (Enabled(st, es[0]) && RunEnabled(Next(st, es[0]), es[1..]))
  }

  ghost function Run(st: State, es: seq<Event>): State
    decreases |es|
  {
    if es == [] then st else Run(Next(st, es[0]), es[1..])
  }

  /** In every run, the table holds exactly the areas granted and not given back, and two of them
      that share a sector are both for reading. */
  lemma {:induction false} RunsExclude(st: State, es: seq<Event>)
    requires Inv(st) && RunEnabled(st, es)
    ensures var st' := Run(st, es);
      && Active(st'.slots) == st'.granted
      && forall a, b | a in st'.granted && b in st'.granted - multiset{a} && Shared(a, b) :: a.ro && b.ro
    decreases |es|
  {
    if es == [] {
      forall a, b | a in st.granted && b in st.granted - multiset{a} && Shared(a, b) ensures a.ro && b.ro {
        ExclusiveMeans(st.slots, a, b);
      }
    } else {
      NextKeeps(st, es[0]);
      RunsExclude(Next(st, es[0]), es[1..]);
    }
  }

  lemma {:induction false} IdleTable(s: seq<Area>)
    requires forall i | 0 <= i < |s| :: s[i] == IDLE
    ensures Inv(State(s, multiset{}))
  {
    if s != [] {
      IdleTable(s[1..]);
    }
  }

  /** With no area held, every request is granted, and giving it back leaves no area held. */
  lemma {:induction false} AloneIsGranted(s: seq<Area>, a: Area)
    requires s != [] && Active(s) == multiset{} && Regular(a)
    ensures Grantable(s, a) && Active(Released(Granted(s, a), a.start, a.count)) == multiset{}
  {
    forall i | 0 <= i < |s| ensures s[i].count == -1 {
      ActiveUpdate(s, i, IDLE);
    }
    GrantKeeps(s, a);
    ReleaseKeeps(Granted(s, a), a);
  }
}
