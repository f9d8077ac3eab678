/** os/net/nbr-table.c with the built-in eviction policy. */
module NbrTable {
  import opened Powers
  import opened Sequences
  import opened ListLib
  import opened MembLib
  import opened NbrSpec
  import opened NbrSteps

  // ---- Conversions between keys, indices and items ----

  /** The item of a key: a slot in the table's data array. */
  function ItemFromIndex(table: Table, index: int): int {
    if index != NULL then table.data + index * table.itemSize else NULL
  }

  function IndexFromItem(table: Table, item: int): int {
    if item != NULL && table.itemSize > 0 then (item - table.data) / table.itemSize else NULL
  }

  /** The two conversions are inverse on the slots of a table. */
  lemma ItemIndex(table: Table, index: nat)
    requires table.itemSize > 0
    ensures ItemFromIndex(table, index) >= 0
    ensures IndexFromItem(table, ItemFromIndex(table, index)) == index
  {
    Quotient(index * table.itemSize, table.itemSize, index, 0);
    NonNegative(index, table.itemSize);
  }

  /** The address an address pointer stands for. */
  function AddrOf(p: int): (x: Addr)
    ensures p >= 0 ==> x == p
    ensures p < 0 ==> x == 0
  {
    if p < 0 then 0 else p
  }

  /** The callbacks that the removal of key k runs, in table order. */
  function Callbacks(tables: seq<Table>, used: bv8, k: int, i: nat): seq<(nat, int)>
    requires i <= |tables| <= MAX_NUM_TABLES
  {
    if i == 0 then []
    else Callbacks(tables, used, k, i - 1) + if tables[i - 1].callback && HasBit(used, i - 1) then [(i - 1, ItemFromIndex(tables[i - 1], k))] else []
  }

  lemma CallbackStart(tables: seq<Table>, used: bv8, k: int)
    requires |tables| <= MAX_NUM_TABLES
    ensures Callbacks(tables, used, k, 0) == []
  { }

  lemma CallbackStep(tables: seq<Table>, used: bv8, k: int, i: nat)
    requires i < |tables| <= MAX_NUM_TABLES
    ensures Callbacks(tables, used, k, i + 1) ==
      Callbacks(tables, used, k, i) + if tables[i].callback && HasBit(used, i) then [(i, ItemFromIndex(tables[i], k))] else []
  { }

  /** The callbacks run once each, in table order, for exactly the tables that have one and use the key, with its item there. */
  lemma {:induction false} CallbacksExact(tables: seq<Table>, used: bv8, k: int, i: nat)
    requires i <= |tables| <= MAX_NUM_TABLES
    ensures var calls := Callbacks(tables, used, k, i);
      && (forall a, b | 0 <= a < b < |calls| :: calls[a].0 < calls[b].0)
      && (forall t: nat, item: int :: (t, item) in calls <==>
            t < i && tables[t].callback && HasBit(used, t) && item == ItemFromIndex(tables[t], k))
  {
    hide HasBit, ItemFromIndex;
    if i > 0 {
      CallbacksExact(tables, used, k, i - 1);
      var calls := Callbacks(tables, used, k, i - 1);
      forall a | 0 <= a < |calls| ensures calls[a].0 < i - 1 {
        var (t, item) := calls[a];
        assert calls[a] == (t, item);
        assert calls[a] in calls;
      }
    }
  }

  /** The first position from i on whose key table t uses, or the end of the list. */
  function NextUser(order: seq<int>, used: seq<bv8>, t: nat, i: nat): (p: nat)
    requires t < MAX_NUM_TABLES && forall k | k in order :: 0 <= k < |used|
    ensures p <= |order| && (i <= |order| ==> i <= p)
    decreases |order| - i
  {
    if i >= |order| then |order|
    else assert order[i] in order; if HasBit(used[order[i]], t) then i else NextUser(order, used, t, i + 1)
  }

  /** The keys from position i on that table t uses, in list order. */
  function UsersFrom(order: seq<int>, used: seq<bv8>, t: nat, i: nat): (r: seq<int>)
    requires t < MAX_NUM_TABLES && forall k | k in order :: 0 <= k < |used|
    decreases |order| - i
  {
    if i >= |order| then []
    else assert order[i] in order; (if HasBit(used[order[i]], t) then [order[i]] else []) + UsersFrom(order, used, t, i + 1)
  }

  /** The items of the given keys. */
  function Items(table: Table, keys: seq<int>): (r: seq<int>)
    ensures |r| == |keys| && forall i | 0 <= i < |r| :: r[i] == ItemFromIndex(table, keys[i])
  {
    seq(|keys|, i requires 0 <= i < |keys| => ItemFromIndex(table, keys[i]))
  }

  /** Skipping to the next used key skips exactly the unused ones. */
  lemma {:induction false} UsersSkip(order: seq<int>, used: seq<bv8>, t: nat, i: nat)
    requires t < MAX_NUM_TABLES && forall k | k in order :: 0 <= k < |used|
    ensures var p := NextUser(order, used, t, i);
      && UsersFrom(order, used, t, i) == UsersFrom(order, used, t, p)
      && UsersFrom(order, used, t, p) == if p == |order| then [] else [order[p]] + UsersFrom(order, used, t, p + 1)
    decreases |order| - i
  {
    hide HasBit;
    if i < |order| {
      assert order[i] in order;
      if !HasBit(used[order[i]], t) { UsersSkip(order, used, t, i + 1); }
    }
  }

  /** The items of table t from list position i on. */
  function Rest(table: Table, order: seq<int>, used: seq<bv8>, t: nat, i: nat): seq<int>
    requires t < MAX_NUM_TABLES && forall k | k in order :: 0 <= k < |used|
  {
    Items(table, UsersFrom(order, used, t, i))
  }

  /** The next item is the first of the rest. */
  lemma RestStep(table: Table, order: seq<int>, used: seq<bv8>, t: nat, i: nat, items: seq<int>)
    requires t < MAX_NUM_TABLES && forall k | k in order :: 0 <= k < |used|
    ensures var p := NextUser(order, used, t, i);
      if p == |order| then items + Rest(table, order, used, t, i) == items
      else items + Rest(table, order, used, t, i) == items + [ItemFromIndex(table, order[p])] + Rest(table, order, used, t, p + 1)
  {
    UsersSkip(order, used, t, i);
    var p := NextUser(order, used, t, i);
    hide HasBit, ItemFromIndex, UsersFrom, NextUser;
    if p < |order| {
      var later := UsersFrom(order, used, t, p + 1);
      ItemsFirst(table, order[p], later);
      assert items + ([ItemFromIndex(table, order[p])] + Items(table, later)) == items + [ItemFromIndex(table, order[p])] + Items(table, later);
    } else {
      assert Items(table, []) == [];
    }
  }

  lemma ItemsFirst(table: Table, k: int, keys: seq<int>)
    ensures Items(table, [k] + keys) == [ItemFromIndex(table, k)] + Items(table, keys)
  {
    hide ItemFromIndex;
  }

  /** The used keys from position i on carry, in order, the addresses of the table's members. */
  lemma {:induction false} UsersListed(v: View, t: nat, i: nat)
    requires Good(v) && t < MAX_NUM_TABLES && i <= |v.order|
    ensures var users, listing := UsersFrom(v.order, v.used, t, i), Restrict(Meaning(v).order[i..], Meaning(v).members[t]);
      && |users| == |listing|
      && forall j | 0 <= j < |users| :: users[j] in v.order && 0 <= users[j] < |v.addr| && v.addr[users[j]] == listing[j]
    decreases |v.order| - i
  {
    hide HasBit;
    var order := Meaning(v).order;
    if i < |v.order| {
      UsersListed(v, t, i + 1);
      AddressOf(v, i);
      MarkedKey(v, v.used, t, v.order[i]);
      assert order[i..][0] == order[i] && order[i..][1..] == order[i + 1..];
    } else {
      assert order[i..] == [];
    }
  }

  /** The listing is exactly the members of the table, each once. */
  lemma ListingExact(v: View, t: nat)
    requires Good(v) && t < MAX_NUM_TABLES
    ensures var listing := Restrict(Meaning(v).order, Meaning(v).members[t]);
      Distinct(listing) && forall y :: y in listing <==> y in Meaning(v).members[t]
  {
    var n := Meaning(v);
    OrderDistinct(v);
    RestrictDistinct(n.order, n.members[t]);
    forall y ensures y in Restrict(n.order, n.members[t]) <==> y in n.members[t] {
      RestrictMembers(n.order, n.members[t], y);
      if y in n.members[t] { Listed(v, y); }
    }
  }

  class NbrTables {
    const keys: List
    const pool: Memb
    const lladdr: array<Addr>
    const usedMap: array<bv8>
    const lockedMap: array<bv8>
    var tables: seq<Table>
    /** The removal callbacks run so far: table and item. */
    ghost var log: seq<(nat, int)>

    ghost function Repr(): set<object>
      reads this
    {
      {this, keys, keys.next, pool, pool.count, lladdr, usedMap, lockedMap}
    }

    ghost function Snap(): View
      reads this, keys, lladdr, usedMap, lockedMap
    {
      View(keys.elems, lladdr[..], usedMap[..], lockedMap[..])
    }

    ghost predicate Separate()
      reads this
    {
      && usedMap != lockedMap && lladdr as object != pool.count as object && lladdr as object != keys.next as object
      && keys.next as object !in {pool.count as object, usedMap as object, lockedMap as object}
      && pool.count as object !in {usedMap as object, lockedMap as object}
      && lladdr as object !in {usedMap as object, lockedMap as object}
      && keys.next.Length == pool.count.Length == lladdr.Length == usedMap.Length == lockedMap.Length
    }

    ghost predicate Valid()
      reads this, keys, keys.next, pool.count, lladdr, usedMap, lockedMap
    {
      && Separate() && keys.Valid() && Good(Snap())
      && (forall k | 0 <= k < pool.count.Length :: pool.count[k] > 0 <==> k in keys.elems)
      && |tables| <= MAX_NUM_TABLES && (forall i | 0 <= i < |tables| :: tables[i].itemSize > 0)
    }

    /** The meaning of the tables. */
    ghost function Model(): Neighbours
      requires Valid()
      reads this, keys, keys.next, pool.count, lladdr, usedMap, lockedMap
    {
      Meaning(Snap())
    }

    /** The item of table t at list position i; NULL past the end. */
    ghost function ItemAt(t: nat, i: nat): int
      requires t < |tables|
      reads this, keys
    {
      if i < |keys.elems| then ItemFromIndex(tables[t], keys.elems[i]) else NULL
    }

    /** Is `item` the slot of some neighbour in table t? */
    ghost predicate IsItem(t: nat, item: int)
      requires t < |tables|
      reads this, keys
    {
      IndexFromItem(tables[t], item) in keys.elems && item == ItemFromIndex(tables[t], IndexFromItem(tables[t], item))
    }

    /** The address of the neighbour whose slot in table t is `item`. */
    ghost function ItemAddr(t: nat, item: int): Addr
      requires t < |tables|
      reads this, lladdr
    {
      var index := IndexFromItem(tables[t], item);
      if 0 <= index < lladdr.Length then lladdr[index] else 0
    }

    constructor (n: nat)
      ensures Valid() && fresh(Repr()) && lladdr.Length == n && tables == [] && log == []
      ensures Model().order == [] && (forall t | 0 <= t < MAX_NUM_TABLES :: Model().members[t] == {} && Model().locks[t] == {})
    {
      keys := new List(n);
      pool := new Memb(n);
      lladdr := new Addr[n](_ => 0);
      usedMap := new bv8[n](_ => 0);
      lockedMap := new bv8[n](_ => 0);
      tables, log := [], [];
      new;
      hide Good, Meaning;
      NobodyYet(Snap());
    }

    // ---- Lookups ----

    /** index_from_lladdr: the key that carries an address; a null pointer stands for the null address. */
    method IndexFromLladdr(p: int) returns (index: int)
      requires Valid()
      ensures index == NULL <==> AddrOf(p) !in Model().order
      ensures index != NULL ==> index in keys.elems && lladdr[index] == if p >= 0 then p else 0
    {
      var a := AddrOf(p);
      ghost var v, f := Snap(), keys.elems;
      var key := keys.head;
      ghost var i := 0;
      while key != NULL
        invariant 0 <= i <= |f| && key == At(f, i)
        invariant forall j | 0 <= j < i :: f[j] in f && lladdr[f[j]] != a
        decreases |f| - i
      {
        LinkFacts(keys.next[..], keys.head, f, i);
        if lladdr[key] == a {
          Listed(v, a);
          return key;
        }
        key := keys.next[key];
        i := i + 1;
      }
      EndOf(keys.next[..], keys.head, f, i);
      Listed(v, a);
      return NULL;
    }

    /** What the item of a key and its bits mean. */
    lemma KeyItem(t: nat, k: int)
      requires Valid() && t < |tables| && k in keys.elems
      ensures 0 <= k < lladdr.Length
      ensures var item := ItemFromIndex(tables[t], k);
        item != NULL && IndexFromItem(tables[t], item) == k && IsItem(t, item) && ItemAddr(t, item) == lladdr[k]
      ensures lladdr[k] in Model().members[t] <==> HasBit(usedMap[k], t)
      ensures lladdr[k] in Model().locks[t] <==> HasBit(lockedMap[k], t)
    {
      KeyInRange(Snap(), k);
      ItemIndex(tables[t], k);
      hide Good, HasBit, ItemFromIndex, IndexFromItem;
      MarkedKey(Snap(), usedMap[..], t, k);
      MarkedKey(Snap(), lockedMap[..], t, k);
    }

    /** nbr_get_bit on one of the two bitmaps: does the table hold, or lock, the neighbour of the item? */
    method GetBit(bitmap: array<bv8>, t: nat, item: int) returns (r: bool)
      requires Valid() && t < |tables| && (item == NULL || IsItem(t, item)) && (bitmap == usedMap || bitmap == lockedMap)
      ensures r == (item != NULL && ItemAddr(t, item) in if bitmap == usedMap then Model().members[t] else Model().locks[t])
    {
      var index := IndexFromItem(tables[t], item);
      if index == NULL {
        return false;
      }
      KeyItem(t, index);
      r := bitmap[index] & Bit(t) != 0;
    }

    /** nbr_table_get_from_lladdr: finds an item exactly when the address is in the table. */
    method GetFromLladdr(t: nat, p: int) returns (item: int)
      requires Valid() && t < |tables|
      ensures item != NULL <==> AddrOf(p) in Model().members[t]
      ensures item != NULL ==> IsItem(t, item) && ItemAddr(t, item) == if p >= 0 then p else 0
    {
      var index := IndexFromLladdr(p);
      item := ItemFromIndex(tables[t], index);
      ghost var v := Snap();
      if index == NULL {
        Listed(v, AddrOf(p));
        return NULL;
      }
      KeyItem(t, index);
      hide ItemFromIndex, IndexFromItem, HasBit, Bit;
      var used := GetBit(usedMap, t, item);
      if !used { item := NULL; }
    }

    lemma ItemListed(t: nat, item: int)
      requires Valid() && t < |tables| && IsItem(t, item)
      ensures ItemAddr(t, item) in Model().order
    {
      KeyInRange(Snap(), IndexFromItem(tables[t], item));
      Listed(Snap(), ItemAddr(t, item));
    }

    /** nbr_table_get_lladdr. */
    method GetLladdr(t: nat, item: int) returns (p: int)
      requires Valid() && t < |tables| && (item == NULL || IsItem(t, item))
      ensures item == NULL ==> p == NULL
      ensures item != NULL ==> p in Model().order && p == ItemAddr(t, item)
    {
      var index := IndexFromItem(tables[t], item);
      if item != NULL { Listed(Snap(), lladdr[index]); }
      p := if index != NULL then lladdr[index] else NULL;
    }

    // ---- Enumeration ----

    /** nbr_table_next: from the item at list position i to the next item of the table. */
    method Next(t: nat, item0: int, ghost i0: nat) returns (item: int)
      requires Valid() && t < |tables| && item0 == ItemAt(t, i0)
      ensures item == ItemAt(t, NextUser(keys.elems, usedMap[..], t, i0 + 1))
    {
      hide Good, Linked, Meaning, HasBit, NextUser, ItemFromIndex, IndexFromItem, ItemAt, IsItem, ItemAddr, Distinct;
      KeysInRange(Snap());
      item := item0;
      ghost var i, f, u := i0, keys.elems, usedMap[..];
      while true
        invariant item == ItemAt(t, i) && NextUser(f, u, t, i0 + 1) == NextUser(f, u, t, i + 1)
        decreases |f| - i
      {
        SlotFacts(t, i);
        var key := IndexFromItem(tables[t], item);
        key := if key == NULL then NULL else keys.next[key];
        item := ItemFromIndex(tables[t], key);
        i := i + 1;
        SlotFacts(t, i);
        SlotUser(t, i);
        if item == NULL { break; }
        var used := GetBit(usedMap, t, item);
        if used { break; }
      }
      SlotFacts(t, |f|);
    }

    /** The bit that the code looks up tells whether the search for the next user ends at list position i. */
    lemma SlotUser(t: nat, i: nat)
      requires Valid() && t < |tables|
      requires forall k | k in keys.elems :: 0 <= k < usedMap.Length
      ensures i < |keys.elems| ==> IsItem(t, ItemAt(t, i))
      ensures NextUser(keys.elems, usedMap[..], t, i) ==
        if i >= |keys.elems| then |keys.elems|
        else if ItemAddr(t, ItemAt(t, i)) in Model().members[t] then i
        else NextUser(keys.elems, usedMap[..], t, i + 1)
    {
      hide Good, Linked, Meaning, HasBit, ItemFromIndex, IndexFromItem, IsItem, ItemAddr, Distinct;
      if i < |keys.elems| { KeyItem(t, keys.elems[i]); }
    }

    /** What the code finds out about list position i by pointer arithmetic. */
    lemma SlotFacts(t: nat, i: nat)
      requires Valid() && t < |tables|
      ensures ItemAt(t, i) == NULL <==> i >= |keys.elems|
      ensures IndexFromItem(tables[t], ItemAt(t, i)) == At(keys.elems, i)
      ensures ItemFromIndex(tables[t], At(keys.elems, i)) == ItemAt(t, i)
      ensures i < |keys.elems| ==> 0 <= keys.elems[i] < keys.next.Length && keys.elems[i] in keys.elems && keys.next[keys.elems[i]] == At(keys.elems, i + 1)
    {
      if i < |keys.elems| {
        LinkFacts(keys.next[..], keys.head, keys.elems, i);
        ItemIndex(tables[t], keys.elems[i]);
      }
    }

    /** nbr_table_head. */
    method Head(t: nat) returns (item: int)
      requires Valid() && t < |tables|
      ensures item == ItemAt(t, NextUser(keys.elems, usedMap[..], t, 0))
    {
      SlotFacts(t, 0);
      item := ItemFromIndex(tables[t], keys.head);
      if item != NULL { KeyItem(t, keys.elems[0]); }
      var used := GetBit(usedMap, t, item);
      if used {
        return item;
      }
      item := Next(t, item, 0);
    }

    /** The addresses that table t holds, oldest first. */
    ghost function Listing(t: nat): seq<int>
      requires Valid() && t < |tables|
      reads this, keys, keys.next, pool.count, lladdr, usedMap, lockedMap
    {
      Restrict(Model().order, Model().members[t])
    }

    /** The iteration idiom of the callers, head and then next until NULL: the items of the table's members, oldest first. */
    method Enumerate(t: nat) returns (items: seq<int>)
      requires Valid() && t < |tables|
      ensures |items| == |Listing(t)|
      ensures forall j | 0 <= j < |items| :: IsItem(t, items[j]) && ItemAddr(t, items[j]) == Listing(t)[j]
    {
      hide ItemFromIndex, IndexFromItem, HasBit, Linked, UsersFrom, NextUser, Distinct, Rest;
      ghost var f, u := keys.elems, usedMap[..];
      KeysInRange(Snap());
      hide Good, Separate;
      items := [];
      var item := Head(t);
      ghost var i := 0;
      while item != NULL
        invariant item == ItemAt(t, NextUser(f, u, t, i)) && 0 <= i <= |f|
        invariant items + Rest(tables[t], f, u, t, i) == Rest(tables[t], f, u, t, 0)
        decreases |f| - i
      {
        ghost var p := NextUser(f, u, t, i);
        SlotFacts(t, p);
        RestStep(tables[t], f, u, t, i, items);
        items := items + [item];
        item := Next(t, item, p);
        i := p + 1;
      }
      SlotFacts(t, NextUser(f, u, t, i));
      RestStep(tables[t], f, u, t, i, items);
      RestListed(t);
    }

    /** The items of the used keys are those of the listing. */
    lemma RestListed(t: nat)
      requires Valid() && t < |tables|
      ensures forall k | k in keys.elems :: 0 <= k < usedMap.Length
      ensures var items := Rest(tables[t], keys.elems, usedMap[..], t, 0);
        && |items| == |Listing(t)|
        && forall j | 0 <= j < |items| :: IsItem(t, items[j]) && ItemAddr(t, items[j]) == Listing(t)[j]
    {
      var v := Snap();
      KeysInRange(v);
      UsersListed(v, t, 0);
      assert Meaning(v).order[0..] == Meaning(v).order;
      var users := UsersFrom(v.order, v.used, t, 0);
      hide Good, Meaning, HasBit, ItemFromIndex, IndexFromItem, UsersFrom;
      forall j | 0 <= j < |users|
        ensures var item := ItemFromIndex(tables[t], users[j]); IsItem(t, item) && ItemAddr(t, item) == Listing(t)[j]
      {
        assert users[j] in users;
        KeyItem(t, users[j]);
      }
    }

    // ---- Registration ----

    /** nbr_table_register: t is the table's index if it is registered already. Returns its index, or NULL if there is no room. */
    method Register(t: int, table: Table) returns (index: int)
      requires Valid() && table.itemSize > 0
      modifies this`tables
      ensures Valid() && Model() == old(Model())
      ensures 0 <= t < |old(tables)| ==> index == t && tables == old(tables)[t := old(tables)[t].(callback := table.callback)]
      ensures !(0 <= t < |old(tables)|) ==>
        if |old(tables)| < MAX_NUM_TABLES then index == |old(tables)| && tables == old(tables) + [table] else index == NULL && tables == old(tables)
    {
      if 0 <= t < |tables| {
        tables := tables[t := tables[t].(callback := table.callback)];
        return t;
      }
      if |tables| < MAX_NUM_TABLES {
        tables := tables + [table];
        return |tables| - 1;
      }
      return NULL;
    }

    // ---- Eviction ----

    /** The inner loop of nbr_table_allocate: how many tables use a key. */
    method CountUsers(m: bv8) returns (count: nat)
      ensures count == TablesFrom(m, 0)
    {
      hide Shifted, HasBit, TablesFrom;
      var used := m;
      count := 0;
      ghost var t := 0;
      CountStep(m, 0);
      while used != 0
        invariant t <= MAX_NUM_TABLES && used == Shifted(m, t)
        invariant count + TablesFrom(m, t) == TablesFrom(m, 0)
        decreases MAX_NUM_TABLES - t
      {
        CountStep(m, t);
        if used & 1 == 1 {
          count := count + 1;
        }
        used := used >> 1;
        t := t + 1;
      }
      NoneSet(m, t);
    }

    /** The search loop of nbr_table_allocate: p is the victim's position, NULL if every key is locked. */
    method FindLeastUsed() returns (leastUsedKey: int, ghost p: int)
      requires Valid()
      ensures leastUsedKey == At(keys.elems, p) && (leastUsedKey == NULL <==> p == NULL)
      ensures leastUsedKey == NULL ==> forall y | y in Model().order :: !Unlocked(Model(), y)
      ensures leastUsedKey != NULL ==> leastUsedKey in keys.elems && lockedMap[leastUsedKey] == 0
      ensures p != NULL ==> 0 <= p < |keys.elems| && keys.elems[p] in keys.elems && lockedMap[keys.elems[p]] == 0 && Victim(Model(), p)
    {
      hide Unlocked, Victim, TablesFrom, Meaning, Distinct, Candidate, Good, Linked;
      ghost var v, f := Snap(), keys.elems;
      var leastUsedCount := 0;
      leastUsedKey := NULL;
      p := NULL;
      var key := keys.head;
      ghost var i := 0;
      CandidateStart(v);
      EndOf(keys.next[..], keys.head, f, 0);
      while key != NULL
        invariant 0 <= i <= |f| && key == At(f, i) && (key == NULL <==> i == |f|)
        invariant Candidate(v, i, p) && leastUsedKey == At(f, p) && (p == NULL || 0 <= p < i)
        invariant p != NULL ==> leastUsedKey in f && 0 <= leastUsedKey < |v.used| && leastUsedCount == TablesFrom(v.used[leastUsedKey], 0)
        decreases |f| - i
      {
        LinkFacts(keys.next[..], keys.head, f, i);
        KeyInRange(v, key);
        if p != NULL { KeyInRange(v, f[p]); }
        CandidateStep(v, i, p);
        if lockedMap[key] == 0 {
          var usedCount := CountUsers(usedMap[key]);
          if leastUsedKey == NULL || usedCount < leastUsedCount {
            leastUsedKey := key;
            leastUsedCount := usedCount;
            p := i;
            if usedCount == 0 {
              CandidateWins(v, i + 1, p);
              return;
            }
          }
        }
        i := i + 1;
        key := keys.next[key];
        EndOf(keys.next[..], keys.head, f, i);
      }
      if p == NULL {
        NoCandidate(v);
      } else {
        CandidateFacts(v, i, p);
        CandidateWins(v, i, p);
      }
    }

    /** Everything but the tie between the pool and the list. */
    ghost predicate Sound()
      reads this, keys, keys.next, lladdr, usedMap, lockedMap
    {
      && Separate() && keys.Valid() && Good(Snap())
      && |tables| <= MAX_NUM_TABLES && (forall i | 0 <= i < |tables| :: tables[i].itemSize > 0)
    }

    /** The callback loop of remove_key. */
    method RunCallbacks(key: int)
      requires Valid() && key in keys.elems
      modifies this`log
      ensures log == old(log) + Callbacks(tables, usedMap[key], key, |tables|)
    {
      hide Good, Linked, HasBit, ItemFromIndex, IndexFromItem, Distinct, Callbacks;
      KeyInRange(Snap(), key);
      ghost var n, used0 := |tables|, usedMap[key];
      CallbackStart(tables, used0, key);
      var i := 0;
      while i < MAX_NUM_TABLES
        invariant 0 <= i <= MAX_NUM_TABLES
        invariant i <= n ==> log == old(log) + Callbacks(tables, used0, key, i)
        invariant i >= n ==> log == old(log) + Callbacks(tables, used0, key, n)
        modifies this`log
      {
        if i < |tables| { CallbackStep(tables, used0, key, i); }
        if i < |tables| && tables[i].callback {
          var removedItem := ItemFromIndex(tables[i], key);
          KeyItem(i, key);
          var used := GetBit(usedMap, i, removedItem);
          if used {
            log := log + [(i, removedItem)];
          }
        }
        i := i + 1;
      }
    }

    /** remove_key: runs the callbacks of the tables that use the key at position p, and forgets the key. */
    method RemoveKey(leastUsedKey: int, ghost p: nat)
      requires Valid() && p < |keys.elems| && leastUsedKey == keys.elems[p] && leastUsedKey in keys.elems
      requires lockedMap[leastUsedKey] == 0
      modifies this`log, keys, keys.next, usedMap
      ensures Sound() && leastUsedKey !in keys.elems && Meaning(Snap()) == Evicted(old(Model()), p)
      ensures forall k :: k in keys.elems <==> k in old(keys.elems) && k != leastUsedKey
      ensures log == old(log) + Callbacks(tables, old(usedMap[leastUsedKey]), leastUsedKey, |tables|)
    {
      hide Good, HasBit, Meaning, Callbacks, Distinct;
      ghost var v := Snap();
      KeyInRange(v, leastUsedKey);
      RunCallbacks(leastUsedKey);
      usedMap[leastUsedKey] := 0;
      keys.Remove(leastUsedKey);
      GoodDistinct(v);
      RemovedAt(v.order, p);
      EvictStep(v, Snap(), p);
      forall k ensures k in keys.elems <==> k in v.order && k != leastUsedKey { WithoutMembers(v.order, p, k); }
    }

    /** nbr_table_allocate: a free key, or the key of an evicted neighbour, or NULL. */
    method Allocate() returns (key: int, ghost victim: int)
      requires Valid()
      modifies this`log, keys, keys.next, usedMap, pool.count
      ensures Sound() && (key != NULL ==> key !in keys.elems && 0 <= key < lladdr.Length)
      ensures forall k | 0 <= k < pool.count.Length :: pool.count[k] > 0 <==> k in keys.elems || k == key
      ensures Allocated(old(Model()), Meaning(Snap()), lladdr.Length, key != NULL, victim)
      ensures victim == NULL ==> log == old(log)
      ensures forall k | k in keys.elems :: k in old(keys.elems)
      ensures victim != NULL ==> 0 <= victim < |old(keys.elems)| && old(keys.elems)[victim] == key
      ensures victim != NULL ==> 0 <= key < usedMap.Length && log == old(log) + Callbacks(tables, old(usedMap[..])[key], key, |tables|)
    {
      hide Good, Linked, HasBit, Meaning, Callbacks, Victim, Unlocked, Distinct, Evicted;
      ghost var v := Snap();
      RoomLeft(v);
      key := pool.Alloc();
      victim := NULL;
      if key != NULL {
        return;
      }
      assert Snap() == v;
      assert |Meaning(v).order| == |v.addr| by {
        forall k | 0 <= k < |v.addr| ensures k in v.order { assert pool.count[k] > 0; }
      }
      key, victim := FindLeastUsed();
      assert Model() == Meaning(v);
      if key == NULL {
        return;
      }
      KeyInRange(v, key);
      VictimIsUnlocked(Meaning(v), victim);
      RemoveKey(key, victim);
    }

    // ---- The public operations ----

    /** nbr_set_bit on the map of users. */
    method SetUsed(t: nat, item: int, value: bool) returns (ok: bool)
      requires Valid() && t < |tables| && (item == NULL || IsItem(t, item))
      modifies usedMap
      ensures Valid() && ok == (item != NULL)
      ensures item == NULL ==> Model() == old(Model())
      ensures item != NULL ==> Model() == if value then Joined(old(Model()), t, ItemAddr(t, item)) else Left(old(Model()), t, ItemAddr(t, item))
    {
      hide Good, HasBit, Meaning, ItemFromIndex, WithBit, LinkAt;
      ghost var v := Snap();
      var index := IndexFromItem(tables[t], item);
      if item != NULL { KeyInRange(v, index); }
      ok := index != NULL;
      if ok {
        usedMap[index] := WithBit(usedMap[index], t, value);
        if value { JoinStep(v, Snap(), t, index); } else { LeaveStep(v, Snap(), t, index); }
      }
    }

    /** The part of nbr_table_add_lladdr for an unknown address: a key, free or evicted, joins the list with it. */
    method Enrol(p: int) returns (key: int, ghost victim: int)
      requires Valid() && AddrOf(p) !in Model().order
      modifies this`log, keys, keys.next, usedMap, lladdr, pool.count
      ensures Valid() && Allocated(old(Model()), Spared(old(Model()), victim), lladdr.Length, key != NULL, victim)
      ensures Model() == if key != NULL then Appended(Spared(old(Model()), victim), AddrOf(p)) else old(Model())
      ensures key != NULL ==> key in keys.elems && 0 <= key < lladdr.Length && lladdr[key] == AddrOf(p)
      ensures KeepsSlots(old(Snap()), Snap())
      ensures victim == NULL ==> log == old(log)
      ensures victim != NULL ==> 0 <= victim < |old(keys.elems)| && 0 <= old(keys.elems)[victim] < usedMap.Length
      ensures victim != NULL ==>
        var k := old(keys.elems)[victim]; log == old(log) + Callbacks(tables, old(usedMap[..])[k], k, |tables|)
    {
      hide Good, HasBit, Meaning, Callbacks, Victim, Unlocked, Evicted, Appended, LinkAt;
      var a := AddrOf(p);
      ghost var v := Snap();
      RoomLeft(v);
      SlotsStay(v, v);
      key, victim := Allocate();
      if key == NULL {
        return;
      }
      ghost var u := Snap();
      if victim != NULL { EvictedOrder(Meaning(v), victim, a); }
      keys.Add(key);
      lladdr[key] := a;
      AppendStep(u, Snap(), key, a);
      SlotsKept(v, Snap(), key, a);
    }

    /** nbr_table_add_lladdr. `victim` is the list position of the neighbour that was evicted, or NULL. */
    method AddLladdr(t: nat, p: int) returns (item: int, ghost victim: int)
      requires Valid() && t < |tables|
      modifies this`log, keys, keys.next, usedMap, lladdr, pool.count
      ensures Valid() && AddResult(old(Model()), Model(), lladdr.Length, t, AddrOf(p), item != NULL, victim)
      ensures item != NULL ==> IsItem(t, item) && ItemAddr(t, item) in Model().members[t] && ItemAddr(t, item) == if p >= 0 then p else 0
      ensures KeepsSlots(old(Snap()), Snap())
      ensures victim == NULL ==> log == old(log)
      ensures victim != NULL ==> 0 <= victim < |old(keys.elems)| && 0 <= old(keys.elems)[victim] < usedMap.Length
      ensures victim != NULL ==>
        var key := old(keys.elems)[victim]; log == old(log) + Callbacks(tables, old(usedMap[..])[key], key, |tables|)
    {
      hide Good, HasBit, Meaning, Callbacks, Allocated, Spared, Appended, Joined, ItemFromIndex, IndexFromItem, KeepsSlots;
      ghost var v := Snap();
      RoomLeft(v);
      Listed(v, AddrOf(p));
      victim := NULL;
      var index := IndexFromLladdr(p);
      if index == NULL {
        index, victim := Enrol(p);
        if index == NULL {
          return NULL, victim;
        }
      } else {
        SlotsStay(v, v);
      }
      ghost var u := Snap();
      RoomLeft(u);
      item := ItemFromIndex(tables[t], index);
      KeyItem(t, index);
      JoinedHas(Model(), t, lladdr[index]);
      var _ := SetUsed(t, item, true);
      SlotsOn(v, u, Snap());
    }

    /** nbr_set_bit on the map of locks. */
    method SetLocked(t: nat, item: int, value: bool) returns (ok: bool)
      requires Valid() && t < |tables| && (item == NULL || IsItem(t, item))
      modifies lockedMap
      ensures Valid() && ok == (item != NULL)
      ensures item == NULL ==> Model() == old(Model())
      ensures item != NULL ==> Model() == if value then Locked(old(Model()), t, ItemAddr(t, item)) else Released(old(Model()), t, ItemAddr(t, item))
    {
      hide Good, HasBit, Meaning, ItemFromIndex, WithBit, LinkAt;
      ghost var v := Snap();
      var index := IndexFromItem(tables[t], item);
      if item != NULL { KeyInRange(v, index); }
      ok := index != NULL;
      if ok {
        lockedMap[index] := WithBit(lockedMap[index], t, value);
        LockStep(v, Snap(), t, index, value);
      }
    }

    /** nbr_table_remove. */
    method Remove(t: nat, item: int) returns (ok: bool)
      requires Valid() && t < |tables| && (item == NULL || IsItem(t, item))
      modifies usedMap, lockedMap
      ensures Valid() && ok == (item != NULL)
      ensures item == NULL ==> Model() == old(Model())
      ensures item != NULL ==> Model() == Released(Left(old(Model()), t, ItemAddr(t, item)), t, ItemAddr(t, item))
      ensures item != NULL ==> ItemAddr(t, item) !in Model().members[t] && ItemAddr(t, item) !in Model().locks[t]
    {
      hide HasBit, Good, ItemFromIndex, IndexFromItem;
      ok := SetUsed(t, item, false);
      var released := SetLocked(t, item, false);
    }

    /** nbr_table_lock. */
    method Lock(t: nat, item: int) returns (ok: bool)
      requires Valid() && t < |tables| && (item == NULL || IsItem(t, item))
      modifies lockedMap
      ensures Valid() && ok == (item != NULL)
      ensures item == NULL ==> Model() == old(Model())
      ensures item != NULL ==> Model() == Locked(old(Model()), t, ItemAddr(t, item)) && ItemAddr(t, item) in Model().locks[t]
    {
      hide HasBit, Good, ItemFromIndex, IndexFromItem;
      ok := SetLocked(t, item, true);
    }

    /** nbr_table_unlock. */
    method Unlock(t: nat, item: int) returns (ok: bool)
      requires Valid() && t < |tables| && (item == NULL || IsItem(t, item))
      modifies lockedMap
      ensures Valid() && ok == (item != NULL)
      ensures item == NULL ==> Model() == old(Model())
      ensures item != NULL ==> Model() == Released(old(Model()), t, ItemAddr(t, item)) && ItemAddr(t, item) !in Model().locks[t]
    {
      hide HasBit, Good, ItemFromIndex, IndexFromItem;
      ok := SetLocked(t, item, false);
    }
  }
}
