/** Whole runs of os/net/nbr-table.c: what every sequence of calls keeps. */
module NbrRun {
  import opened Sequences
  import opened NbrSpec
  import opened NbrSteps
  import opened ListLib
  import opened NbrTable

  /** A call with what came of it: whether an add found room, and the position of the neighbour it evicted. */
  datatype Event =
    | Added(t: nat, x: Addr, ok: bool, victim: int)
    | Removal(t: nat, x: Addr)
    | Locking(t: nat, x: Addr)
    | Unlocking(t: nat, x: Addr)
    | Nothing

  ghost predicate Step(n: Neighbours, n': Neighbours, room: nat, e: Event) {
    && |n.members| == |n.locks| == MAX_NUM_TABLES && (!e.Nothing? ==> e.t < MAX_NUM_TABLES)
    && match e
       case Added(t, x, ok, victim) => AddResult(n, n', room, t, x, ok, victim)
       case Removal(t, x) => n' == Released(Left(n, t, x), t, x)
       case Locking(t, x) => x in n.order && n' == Locked(n, t, x)
       case Unlocking(t, x) => n' == Released(n, t, x)
       case Nothing => n' == n
  }

  /** Addresses once each, no more than fit, and tables over those addresses. */
  ghost predicate Sane(n: Neighbours, room: nat) {
    && |n.members| == |n.locks| == MAX_NUM_TABLES
    && Distinct(n.order) && |n.order| <= room
    && (forall t, y | 0 <= t < MAX_NUM_TABLES && y in n.members[t] :: y in n.order)
    && (forall t, y | 0 <= t < MAX_NUM_TABLES && y in n.locks[t] :: y in n.order)
  }

  /** Does the event leave y's place in table t, and its lock there, alone? */
  predicate Spares(e: Event, t: nat, y: Addr) {
    e != Removal(t, y) && e != Unlocking(t, y)
  }

  lemma EvictedKeeps(n: Neighbours, p: nat, y: Addr)
    requires p < |n.order| && y in n.order && y != n.order[p]
    ensures y in Evicted(n, p).order
  {
    assert n.order == n.order[..p] + [n.order[p]] + n.order[p + 1..];
  }

  lemma EvictedSane(n: Neighbours, p: nat, room: nat)
    requires Sane(n, room) && Victim(n, p)
    ensures var m := Evicted(n, p); Sane(m, room) && |m.order| < room && n.order[p] !in m.order
    ensures forall y | y in Evicted(n, p).order :: y in n.order
  {
    var m := Evicted(n, p);
    assert n.order == n.order[..p] + [n.order[p]] + n.order[p + 1..];
    forall t, y | 0 <= t < MAX_NUM_TABLES && (y in m.members[t] || y in m.locks[t]) ensures y in m.order {
      if y in m.locks[t] { assert n.locks[t] in n.locks; }
      EvictedKeeps(n, p, y);
    }
  }

  lemma JoinedSane(n: Neighbours, t: nat, x: Addr, room: nat)
    requires Sane(n, room) && t < MAX_NUM_TABLES && (x in n.order || |n.order| < room)
    ensures x in n.order ==> Sane(Joined(n, t, x), room)
    ensures x !in n.order ==> Sane(Joined(Appended(n, x), t, x), room)
  { }

  lemma StepSane(n: Neighbours, n': Neighbours, room: nat, e: Event)
    requires Sane(n, room) && Step(n, n', room, e)
    ensures Sane(n', room)
  {
    match e
    case Added(t, x, ok, victim) =>
      hide Victim, Evicted;
      if x in n.order {
        JoinedSane(n, t, x, room);
      } else if ok {
        if victim != NULL {
          VictimInside(n, victim);
          EvictedSane(n, victim, room);
          JoinedSane(Evicted(n, victim), t, x, room);
        } else {
          JoinedSane(n, t, x, room);
        }
      }
    case Removal(_, _) =>
    case Locking(_, _) =>
    case Unlocking(_, _) =>
    case Nothing =>
  }

  lemma VictimInside(n: Neighbours, p: nat)
    requires |n.members| == MAX_NUM_TABLES && Victim(n, p)
    ensures p < |n.order| && Unlocked(n, n.order[p]) && n.order[p] in n.order
  { }

  /** A neighbour that some table has locked survives any step, with its lock and its places, but for its own release. */
  lemma LockedStep(n: Neighbours, n': Neighbours, room: nat, e: Event, t: nat, y: Addr)
    requires Sane(n, room) && Step(n, n', room, e) && t < MAX_NUM_TABLES && y in n.locks[t] && Spares(e, t, y)
    ensures y in n'.order && |n'.locks| == |n'.members| == MAX_NUM_TABLES && y in n'.locks[t]
    ensures forall u | 0 <= u < MAX_NUM_TABLES && y in n.members[u] && e != Removal(u, y) :: y in n'.members[u]
  {
    StepSane(n, n', room, e);
    if e.Added? && e.x !in n.order && e.ok && e.victim != NULL {
      VictimInside(n, e.victim);
      assert n.locks[t] in n.locks;
      EvictedKeeps(n, e.victim, y);
    }
  }

  /** The states of a run, one more than its events. */
  ghost predicate Run(ns: seq<Neighbours>, room: nat, events: seq<Event>) {
    && |ns| == |events| + 1
    && (events == [] || (Run(ns[..|events|], room, events[..|events| - 1])
        && Step(ns[|events| - 1], ns[|events|], room, events[|events| - 1])))
  }

  lemma {:induction false} RunSane(ns: seq<Neighbours>, room: nat, events: seq<Event>)
    requires Run(ns, room, events) && Sane(ns[0], room)
    ensures Sane(ns[|events|], room)
  {
    if events != [] {
      var k := |events| - 1;
      assert ns[..|events|][k] == ns[k];
      RunSane(ns[..|events|], room, events[..k]);
      StepSane(ns[k], ns[|events|], room, events[k]);
    }
  }

  /**
   * Over any run: once table t has locked y, y keeps its key and its lock until t itself unlocks or removes
   * it, and keeps its place in every table that does not remove it, whatever is added meanwhile.
   */
  lemma {:induction false} LockedSurvives(ns: seq<Neighbours>, room: nat, events: seq<Event>, t: nat, y: Addr)
    requires Run(ns, room, events) && Sane(ns[0], room) && t < MAX_NUM_TABLES && y in ns[0].locks[t]
    requires forall e | e in events :: Spares(e, t, y)
    ensures var last := ns[|events|];
      && y in last.order && |last.locks| == |last.members| == MAX_NUM_TABLES && y in last.locks[t]
      && forall u | 0 <= u < MAX_NUM_TABLES && y in ns[0].members[u] && Removal(u, y) !in events :: y in last.members[u]
  {
    if events == [] {
    } else {
      var k := |events| - 1;
      assert ns[..|events|][k] == ns[k];
      RunSane(ns[..|events|], room, events[..k]);
      LockedSurvives(ns[..|events|], room, events[..k], t, y);
      hide Step, Sane, Run;
      RunLast(ns, room, events);
      LockedStep(ns[k], ns[|events|], room, events[k], t, y);
    }
  }

  lemma RunLast(ns: seq<Neighbours>, room: nat, events: seq<Event>)
    requires Run(ns, room, events) && events != []
    ensures |ns| == |events| + 1 && Step(ns[|events| - 1], ns[|events|], room, events[|events| - 1])
  { }

  // ---- The calls are such steps ----

  /** A call on a registered table, with the pointer it is given. */
  datatype Request = Add(p: int) | Remove(item: int) | Lock(item: int) | Unlock(item: int)

  /** Whatever the call, the tables' meaning makes one of the steps above. */
  method Serve(tables: NbrTables, t: nat, r: Request) returns (ghost e: Event)
    requires tables.Valid() && t < |tables.tables|
    requires !r.Add? && r.item != NULL ==> tables.IsItem(t, r.item)
    modifies tables.Repr() - {tables}, tables`log
    ensures tables.Valid() && Step(old(tables.Model()), tables.Model(), tables.lladdr.Length, e)
    ensures KeepsSlots(old(tables.Snap()), tables.Snap())
    ensures match r
      case Add(p) => e.Added? && e.t == t && e.x == if p >= 0 then p else 0
      case Remove(item) => e == if item == NULL then Nothing else Removal(t, old(tables.ItemAddr(t, item)))
      case Lock(item) => e == if item == NULL then Nothing else Locking(t, old(tables.ItemAddr(t, item)))
      case Unlock(item) => e == if item == NULL then Nothing else Unlocking(t, old(tables.ItemAddr(t, item)))
  {
    hide Victim, Evicted, Unlocked, IndexFromItem, ItemFromIndex, HasBit, AddResult, Linked, KeepsSlots;
    SlotsStay(tables.Snap(), tables.Snap());
    ghost var v := tables.Snap();
    match r {
      case Add(p) =>
        var item, victim := tables.AddLladdr(t, p);
        e := Added(t, AddrOf(p), item != NULL, victim);
      case Remove(item) =>
        e := if item == NULL then Nothing else Removal(t, tables.ItemAddr(t, item));
        var ok := tables.Remove(t, item);
      case Lock(item) =>
        if item != NULL { tables.ItemListed(t, item); }
        e := if item == NULL then Nothing else Locking(t, tables.ItemAddr(t, item));
        var ok := tables.Lock(t, item);
      case Unlock(item) =>
        e := if item == NULL then Nothing else Unlocking(t, tables.ItemAddr(t, item));
        var ok := tables.Unlock(t, item);
    }
    if !r.Add? { SlotsOn(v, v, tables.Snap()); }
  }

  // ---- Calls together ----

  /** Two items of a table that carry one address are one item. */
  lemma OneItem(tables: NbrTables, t: nat, i: int, j: int)
    requires tables.Valid() && t < |tables.tables| && tables.IsItem(t, i) && tables.IsItem(t, j)
    requires tables.ItemAddr(t, i) == tables.ItemAddr(t, j)
    ensures i == j
  {
    KeyInRange(tables.Snap(), IndexFromItem(tables.tables[t], i));
    KeyInRange(tables.Snap(), IndexFromItem(tables.tables[t], j));
    hide ItemFromIndex, IndexFromItem;
  }

  /** An address that was added is found again, in the item it was given, and read back from it. */
  method AddAndFind(tables: NbrTables, t: nat, p: int) returns (item: int, found: int, q: int)
    requires tables.Valid() && t < |tables.tables|
    modifies tables.Repr() - {tables}, tables`log
    ensures tables.Valid() && found == item && (item == NULL ==> q == NULL)
    ensures item != NULL ==> q == (if p >= 0 then p else 0) && q in tables.Model().members[t]
  {
    ghost var victim;
    item, victim := tables.AddLladdr(t, p);
    found := tables.GetFromLladdr(t, p);
    q := tables.GetLladdr(t, item);
    if found != NULL { tables.ItemListed(t, found); }
    if item != NULL && found != NULL { OneItem(tables, t, item, found); }
  }

  /**
   * Two different addresses, added one after the other. If both calls succeed and the second has not evicted the first
   * neighbour, they have two items, and each item gives back its own address.
   */
  method AddBoth(tables: NbrTables, t: nat, p: int, r: int) returns (i: int, j: int, x: int, y: int)
    requires tables.Valid() && t < |tables.tables| && p >= 0 && r >= 0 && p != r
    modifies tables.Repr() - {tables}, tables`log
    ensures tables.Valid()
    ensures i != NULL && j != NULL && p in tables.Model().order ==> i != j && x == p && y == r
  {
    hide IndexFromItem, ItemFromIndex, HasBit, Good, AddResult, Meaning, Linked, Distinct;
    x, y := NULL, NULL;
    ghost var victim;
    i, victim := tables.AddLladdr(t, p);
    if i == NULL {
      j := NULL;
      return;
    }
    ghost var u, n, k := tables.Snap(), tables.Model(), IndexFromItem(tables.tables[t], i);
    KeyInRange(u, k);
    RoomLeft(u);
    OrderDistinct(u);
    j, victim := tables.AddLladdr(t, r);
    if j == NULL {
      return;
    }
    y := tables.GetLladdr(t, j);
    if p in tables.Model().order { AddKeeps(n, tables.Model(), tables.lladdr.Length, t, r, victim, p); }
    hide KeepsSlots, Joined;
    var there := tables.GetFromLladdr(t, p);
    if there != NULL {
      tables.ItemListed(t, there);
      SlotStays(u, tables.Snap(), k, p);
      x := tables.GetLladdr(t, i);
    }
  }

  /** An add takes nobody who stays out of a table. */
  lemma AddKeeps(n: Neighbours, n': Neighbours, room: nat, t: nat, r: Addr, victim: int, p: Addr)
    requires |n.members| == MAX_NUM_TABLES && t < MAX_NUM_TABLES && AddResult(n, n', room, t, r, true, victim)
    requires p in n.members[t] && p in n'.order && Distinct(n.order)
    ensures |n'.members| == MAX_NUM_TABLES && p in n'.members[t]
  { }
}
