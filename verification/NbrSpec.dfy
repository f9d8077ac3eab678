/** What the neighbour tables of os/net/nbr-table.c hold, as values. */
module NbrSpec {
  import opened Sequences

  /** A link-layer address; 0 is linkaddr_null. */
  type Addr = nat

  const MAX_NUM_TABLES := 8

  /** A registered table; its index is its position in all_tables. */
  datatype Table = Table(data: nat, itemSize: nat, callback: bool)

  // ---- Bitmaps ----

  function Bit(t: nat): bv8
    requires t < MAX_NUM_TABLES
  {
    match t
    case 0 => 1 case 1 => 2 case 2 => 4 case 3 => 8
    case 4 => 16 case 5 => 32 case 6 => 64 case _ => 128
  }

  predicate HasBit(m: bv8, t: nat)
    requires t < MAX_NUM_TABLES
  {
    m & Bit(t) != 0
  }

  /** nbr_set_bit on one byte. */
  function WithBit(m: bv8, t: nat, value: bool): bv8
    requires t < MAX_NUM_TABLES
  {
    if value then m | Bit(t) else m & !Bit(t)
  }

  lemma SetBit(m: bv8, t: nat, u: nat)
    requires t < MAX_NUM_TABLES && u < MAX_NUM_TABLES
    ensures HasBit(m | Bit(t), u) <==> u == t || HasBit(m, u)
    ensures HasBit(m & !Bit(t), u) <==> u != t && HasBit(m, u)
  { }

  /** Number of tables from t on whose bit is set. */
  function TablesFrom(m: bv8, t: nat): nat
    requires t <= MAX_NUM_TABLES
    decreases MAX_NUM_TABLES - t
  {
    if t == MAX_NUM_TABLES then 0 else (if HasBit(m, t) then 1 else 0) + TablesFrom(m, t + 1)
  }

  function Shifted(m: bv8, t: nat): bv8 {
    if t == 0 then m else Shifted(m, t - 1) >> 1
  }

  lemma ShiftedBit(m: bv8, t: nat)
    requires t < MAX_NUM_TABLES
    ensures Shifted(m, t) & 1 == 1 <==> HasBit(m, t)
  {
    assert Shifted(m, 1) == m >> 1 && Shifted(m, 2) == m >> 2 && Shifted(m, 3) == m >> 3;
    assert Shifted(m, 4) == m >> 4 && Shifted(m, 5) == m >> 5 && Shifted(m, 6) == m >> 6 && Shifted(m, 7) == m >> 7;
  }

  lemma ShiftedOut(m: bv8)
    ensures Shifted(m, MAX_NUM_TABLES) == 0
  {
    assert Shifted(m, 1) == m >> 1 && Shifted(m, 2) == m >> 2 && Shifted(m, 3) == m >> 3;
    assert Shifted(m, 4) == m >> 4 && Shifted(m, 5) == m >> 5 && Shifted(m, 6) == m >> 6 && Shifted(m, 7) == m >> 7;
  }

  /** One round of counting bits by shifting. */
  lemma CountStep(m: bv8, t: nat)
    requires t <= MAX_NUM_TABLES
    ensures Shifted(m, 0) == m
    ensures Shifted(m, t) != 0 ==>
      && t < MAX_NUM_TABLES && Shifted(m, t + 1) == Shifted(m, t) >> 1
      && TablesFrom(m, t) == (if Shifted(m, t) & 1 == 1 then 1 else 0) + TablesFrom(m, t + 1)
  {
    ShiftedOut(m);
    if t < MAX_NUM_TABLES { ShiftedBit(m, t); }
    hide HasBit;
  }

  lemma {:induction false} NoneSet(m: bv8, t: nat)
    requires t <= MAX_NUM_TABLES && Shifted(m, t) == 0
    ensures TablesFrom(m, t) == 0
    decreases MAX_NUM_TABLES - t
  {
    if t < MAX_NUM_TABLES {
      ShiftedBit(m, t);
      assert Shifted(m, t + 1) == Shifted(m, t) >> 1;
      NoneSet(m, t + 1);
    }
  }

  // ---- The concrete state and its meaning ----

  /** Keys in list order, and the arrays indexed by key. */
  datatype View = View(order: seq<int>, addr: seq<Addr>, used: seq<bv8>, locked: seq<bv8>)

  ghost predicate Good(v: View) {
    && |v.addr| == |v.used| == |v.locked|
    && Distinct(v.order)
    && (forall k | k in v.order :: 0 <= k < |v.addr|)
    && (forall k, l | k in v.order && l in v.order && k != l :: v.addr[k] != v.addr[l])
    && (forall k | 0 <= k < |v.addr| && k !in v.order :: v.used[k] == 0 && v.locked[k] == 0)
  }

  /**
   * The meaning of the tables: the neighbours' addresses, oldest first, and for each table
   * the set of addresses it holds and the set it has locked.
   */
  datatype Neighbours = Neighbours(order: seq<Addr>, members: seq<set<Addr>>, locks: seq<set<Addr>>)

  function Addresses(order: seq<int>, addr: seq<Addr>): (r: seq<Addr>)
    requires forall k | k in order :: 0 <= k < |addr|
    ensures |r| == |order|
  {
    seq(|order|, i requires 0 <= i < |order| => assert order[i] in order; addr[order[i]])
  }

  /** The addresses of the keys whose bit for table t is set. */
  ghost function Marked(order: seq<int>, addr: seq<Addr>, bits: seq<bv8>, t: nat): set<Addr>
    requires t < MAX_NUM_TABLES && |bits| == |addr| && forall k | k in order :: 0 <= k < |addr|
  {
    set k | k in order && HasBit(bits[k], t) :: addr[k]
  }

  ghost function Meaning(v: View): Neighbours
    requires Good(v)
  {
    Neighbours(Addresses(v.order, v.addr),
      seq(MAX_NUM_TABLES, t requires 0 <= t < MAX_NUM_TABLES => Marked(v.order, v.addr, v.used, t)),
      seq(MAX_NUM_TABLES, t requires 0 <= t < MAX_NUM_TABLES => Marked(v.order, v.addr, v.locked, t)))
  }

  // ---- What the operations mean ----

  /** Number of tables that hold address x. */
  ghost function Users(n: Neighbours, x: Addr): nat
    requires |n.members| == MAX_NUM_TABLES
  {
    |set t | 0 <= t < MAX_NUM_TABLES && x in n.members[t]|
  }

  ghost predicate Unlocked(n: Neighbours, x: Addr)
  {
    forall s | s in n.locks :: x !in s
  }

  /** The built-in eviction policy: not locked, then used by fewest tables, then oldest. */
  ghost predicate Victim(n: Neighbours, p: nat)
    requires |n.members| == MAX_NUM_TABLES
  {
    && p < |n.order| && Unlocked(n, n.order[p])
    && (forall j | 0 <= j < |n.order| && Unlocked(n, n.order[j]) :: Users(n, n.order[p]) <= Users(n, n.order[j]))
    && (forall j | 0 <= j < p && Unlocked(n, n.order[j]) :: Users(n, n.order[p]) < Users(n, n.order[j]))
  }

  ghost function Evicted(n: Neighbours, p: nat): Neighbours
    requires p < |n.order|
  {
    Neighbours(n.order[..p] + n.order[p + 1..], seq(|n.members|, t requires 0 <= t < |n.members| => n.members[t] - {n.order[p]}), n.locks)
  }

  function Appended(n: Neighbours, x: Addr): Neighbours {
    n.(order := n.order + [x])
  }

  function Joined(n: Neighbours, t: nat, x: Addr): Neighbours
    requires t < |n.members|
  {
    n.(members := n.members[t := n.members[t] + {x}])
  }

  lemma JoinedHas(n: Neighbours, t: nat, x: Addr)
    requires t < |n.members|
    ensures t < |Joined(n, t, x).members| && x in Joined(n, t, x).members[t]
  { }

  function Left(n: Neighbours, t: nat, x: Addr): Neighbours
    requires t < |n.members|
  {
    n.(members := n.members[t := n.members[t] - {x}])
  }

  function Locked(n: Neighbours, t: nat, x: Addr): Neighbours
    requires t < |n.locks|
  {
    n.(locks := n.locks[t := n.locks[t] + {x}])
  }

  function Released(n: Neighbours, t: nat, x: Addr): Neighbours
    requires t < |n.locks|
  {
    n.(locks := n.locks[t := n.locks[t] - {x}])
  }

  /** What nbr_table_allocate makes of n, when at most `room` neighbours fit. */
  ghost predicate Allocated(n: Neighbours, n': Neighbours, room: nat, ok: bool, victim: int)
    requires |n.members| == MAX_NUM_TABLES
  {
    if |n.order| < room then ok && victim == NULL && n' == n
    else if forall y | y in n.order :: !Unlocked(n, y) then !ok && victim == NULL && n' == n
    else ok && victim >= 0 && Victim(n, victim) && n' == Evicted(n, victim)
  }

  /**
   * What nbr_table_add_lladdr makes of n when at most `room` neighbours fit; `victim` is the position
   * of the neighbour that had to go, or NULL.
   */
  ghost predicate AddResult(n: Neighbours, n': Neighbours, room: nat, t: nat, x: Addr, ok: bool, victim: int)
    requires |n.members| == MAX_NUM_TABLES && t < MAX_NUM_TABLES
  {
    if x in n.order then ok && victim == NULL && n' == Joined(n, t, x)
    else
      && Allocated(n, Spared(n, victim), room, ok, victim)
      && n' == if ok then Joined(Appended(Spared(n, victim), x), t, x) else n
  }

  /** Those who stay when the one at list position `victim`, if any, is evicted. */
  ghost function Spared(n: Neighbours, victim: int): Neighbours {
    if 0 <= victim < |n.order| then Evicted(n, victim) else n
  }
}
