/** How single changes of keys and bitmaps change the meaning of the neighbour tables. */
module NbrSteps {
  import opened Sequences
  import opened NbrSpec

  lemma AddressOf(v: View, i: nat)
    requires Good(v) && i < |v.order|
    ensures v.order[i] in v.order && 0 <= v.order[i] < |v.addr|
    ensures Meaning(v).order[i] == v.addr[v.order[i]] && v.addr[v.order[i]] in Meaning(v).order
  {
    assert v.order[i] in v.order;
    assert Meaning(v).order[i] in Meaning(v).order;
  }

  /** An address is on the list exactly if some key carries it. */
  lemma Listed(v: View, x: Addr)
    requires Good(v)
    ensures x in Meaning(v).order <==> exists k :: k in v.order && v.addr[k] == x
  {
    if x in Meaning(v).order {
      var i :| 0 <= i < |v.order| && Meaning(v).order[i] == x;
      AddressOf(v, i);
    }
    if k :| k in v.order && v.addr[k] == x {
      var i :| 0 <= i < |v.order| && v.order[i] == k;
      AddressOf(v, i);
    }
  }

  /** Every neighbour that is still there has the slot it had. */
  ghost predicate KeepsSlots(v: View, w: View) {
    && |w.addr| == |v.addr|
    && forall k, l | k in v.order && l in w.order && 0 <= k < |v.addr| && 0 <= l < |w.addr| && w.addr[l] == v.addr[k] :: l == k
  }

  lemma SlotsStay(v: View, w: View)
    requires Good(v) && w.order == v.order && w.addr == v.addr
    ensures KeepsSlots(v, w)
  { }

  lemma SlotsOn(v: View, u: View, w: View)
    requires KeepsSlots(v, u) && w.order == u.order && w.addr == u.addr
    ensures KeepsSlots(v, w)
  { }

  lemma OrderDistinct(v: View)
    requires Good(v)
    ensures Distinct(Meaning(v).order)
  {
    var n := Meaning(v);
    forall i, j | 0 <= i < j < |n.order| ensures n.order[i] != n.order[j] {
      AddressOf(v, i);
      AddressOf(v, j);
    }
  }

  lemma SlotStays(v: View, w: View, k: int, x: Addr)
    requires Good(v) && Good(w) && KeepsSlots(v, w) && k in v.order && x in Meaning(w).order
    requires 0 <= k < |v.addr| && v.addr[k] == x
    ensures k in w.order && 0 <= k < |w.addr| && w.addr[k] == x
  {
    Listed(w, x);
  }

  /** An unknown address in a key that is free or has just become free moves nobody. */
  lemma SlotsKept(v: View, w: View, key: int, a: Addr)
    requires Good(v) && 0 <= key < |v.addr| && a !in Meaning(v).order && w.addr == v.addr[key := a]
    requires forall k | k in w.order :: k == key || k in v.order
    ensures KeepsSlots(v, w)
  {
    Listed(v, a);
    hide Meaning;
  }

  lemma MarkedKey(v: View, bits: seq<bv8>, t: nat, k: int)
    requires Good(v) && t < MAX_NUM_TABLES && |bits| == |v.addr| && k in v.order
    ensures v.addr[k] in Marked(v.order, v.addr, bits, t) <==> HasBit(bits[k], t)
  { }

  // ---- Setting and clearing bits ----

  /** The bits of table t grow by key k. */
  lemma MarkedPlus(v: View, bits: seq<bv8>, bits': seq<bv8>, t: nat, k: int)
    requires Good(v) && t < MAX_NUM_TABLES && |bits| == |bits'| == |v.addr| && k in v.order
    requires forall l | l in v.order :: HasBit(bits'[l], t) <==> l == k || HasBit(bits[l], t)
    ensures Marked(v.order, v.addr, bits', t) == Marked(v.order, v.addr, bits, t) + {v.addr[k]}
  {
    hide HasBit;
  }

  lemma MarkedMinus(v: View, bits: seq<bv8>, bits': seq<bv8>, t: nat, k: int)
    requires Good(v) && t < MAX_NUM_TABLES && |bits| == |bits'| == |v.addr| && k in v.order
    requires forall l | l in v.order :: HasBit(bits'[l], t) <==> l != k && HasBit(bits[l], t)
    ensures Marked(v.order, v.addr, bits', t) == Marked(v.order, v.addr, bits, t) - {v.addr[k]}
  {
    hide HasBit;
  }

  lemma MarkedSame(order: seq<int>, addr: seq<Addr>, bits: seq<bv8>, bits': seq<bv8>, t: nat)
    requires t < MAX_NUM_TABLES && |bits| == |bits'| == |addr| && forall k | k in order :: 0 <= k < |addr|
    requires forall l | l in order :: HasBit(bits'[l], t) <==> HasBit(bits[l], t)
    ensures Marked(order, addr, bits', t) == Marked(order, addr, bits, t)
  {
    hide HasBit;
  }

  /** Setting bit t of key k. */
  lemma SetMarked(v: View, bits: seq<bv8>, t: nat, k: int, u: nat)
    requires Good(v) && t < MAX_NUM_TABLES && u < MAX_NUM_TABLES && |bits| == |v.addr| && k in v.order
    ensures Marked(v.order, v.addr, bits[k := bits[k] | Bit(t)], u)
      == if u == t then Marked(v.order, v.addr, bits, u) + {v.addr[k]} else Marked(v.order, v.addr, bits, u)
  {
    SetBit(bits[k], t, u);
    hide HasBit, Bit;
    var bits' := bits[k := bits[k] | Bit(t)];
    if u == t { MarkedPlus(v, bits, bits', u, k); } else { MarkedSame(v.order, v.addr, bits, bits', u); }
  }

  lemma ClearMarked(v: View, bits: seq<bv8>, t: nat, k: int, u: nat)
    requires Good(v) && t < MAX_NUM_TABLES && u < MAX_NUM_TABLES && |bits| == |v.addr| && k in v.order
    ensures Marked(v.order, v.addr, bits[k := bits[k] & !Bit(t)], u)
      == if u == t then Marked(v.order, v.addr, bits, u) - {v.addr[k]} else Marked(v.order, v.addr, bits, u)
  {
    SetBit(bits[k], t, u);
    hide HasBit, Bit;
    var bits' := bits[k := bits[k] & !Bit(t)];
    if u == t { MarkedMinus(v, bits, bits', u, k); } else { MarkedSame(v.order, v.addr, bits, bits', u); }
  }

  /** Setting bit t of key k in the used map puts its address into table t. */
  lemma JoinStep(v: View, w: View, t: nat, k: int)
    requires Good(v) && t < MAX_NUM_TABLES && k in v.order
    requires w == v.(used := v.used[k := WithBit(v.used[k], t, true)])
    ensures Good(w) && Meaning(w) == Joined(Meaning(v), t, v.addr[k])
  {
    hide Bit, Marked;
    forall u | 0 <= u < MAX_NUM_TABLES
      ensures Marked(w.order, w.addr, w.used, u) == Joined(Meaning(v), t, v.addr[k]).members[u]
    {
      SetMarked(v, v.used, t, k, u);
    }
    assert Meaning(w).members == Joined(Meaning(v), t, v.addr[k]).members;
  }

  /** Clearing bit t of key k in the used map takes its address out of table t. */
  lemma LeaveStep(v: View, w: View, t: nat, k: int)
    requires Good(v) && t < MAX_NUM_TABLES && k in v.order
    requires w == v.(used := v.used[k := WithBit(v.used[k], t, false)])
    ensures Good(w) && Meaning(w) == Left(Meaning(v), t, v.addr[k])
  {
    hide Bit, Marked;
    forall u | 0 <= u < MAX_NUM_TABLES
      ensures Marked(w.order, w.addr, w.used, u) == Left(Meaning(v), t, v.addr[k]).members[u]
    {
      ClearMarked(v, v.used, t, k, u);
    }
    assert Meaning(w).members == Left(Meaning(v), t, v.addr[k]).members;
  }

  /** Setting or clearing bit t of key k in the locked map locks or unlocks its address for table t. */
  lemma LockStep(v: View, w: View, t: nat, k: int, lock: bool)
    requires Good(v) && t < MAX_NUM_TABLES && k in v.order
    requires w == v.(locked := v.locked[k := WithBit(v.locked[k], t, lock)])
    ensures Good(w) && Meaning(w) == (if lock then Locked(Meaning(v), t, v.addr[k]) else Released(Meaning(v), t, v.addr[k]))
  {
    hide Bit, Marked;
    var n := if lock then Locked(Meaning(v), t, v.addr[k]) else Released(Meaning(v), t, v.addr[k]);
    forall u | 0 <= u < MAX_NUM_TABLES
      ensures Marked(w.order, w.addr, w.locked, u) == n.locks[u]
    {
      SetMarked(v, v.locked, t, k, u);
      ClearMarked(v, v.locked, t, k, u);
    }
    assert Meaning(w).locks == n.locks;
  }

  // ---- Keys ----

  /** A key with no bits set adds nothing to any table. */
  lemma MarkedFresh(v: View, w: View, k: int, x: Addr, bits: seq<bv8>, u: nat)
    requires Good(v) && 0 <= k < |v.addr| && k !in v.order && u < MAX_NUM_TABLES && |bits| == |v.addr| && bits[k] == 0
    requires w == v.(order := v.order + [k], addr := v.addr[k := x])
    ensures Marked(w.order, w.addr, bits, u) == Marked(v.order, v.addr, bits, u)
  {
    assert !HasBit(bits[k], u);
    hide HasBit;
    forall y | y in Marked(v.order, v.addr, bits, u) ensures y in Marked(w.order, w.addr, bits, u) {
      var l :| l in v.order && HasBit(bits[l], u) && v.addr[l] == y;
      assert l in w.order && w.addr[l] == y;
    }
  }

  /** A fresh key at the end of the list adds its address to the order and to nothing else. */
  lemma AppendStep(v: View, w: View, k: int, x: Addr)
    requires Good(v) && 0 <= k < |v.addr| && k !in v.order && x !in Meaning(v).order
    requires w == v.(order := v.order + [k], addr := v.addr[k := x])
    ensures Good(w) && Meaning(w) == Appended(Meaning(v), x)
  {
    Listed(v, x);
    assert Good(w);
    assert Addresses(w.order, w.addr) == Addresses(v.order, v.addr) + [x] by {
      forall i | 0 <= i < |v.order| ensures v.order[i] in v.order && w.order[i] == v.order[i] && v.order[i] != k { }
    }
    forall u | 0 <= u < MAX_NUM_TABLES
      ensures Marked(w.order, w.addr, w.used, u) == Marked(v.order, v.addr, v.used, u)
      ensures Marked(w.order, w.addr, w.locked, u) == Marked(v.order, v.addr, v.locked, u)
    {
      MarkedFresh(v, w, k, x, v.used, u);
      MarkedFresh(v, w, k, x, v.locked, u);
    }
    hide Marked;
  }

  /** Taking the unlocked key at position p out and clearing its bits removes its address everywhere. */
  lemma EvictStep(v: View, w: View, p: nat)
    requires Good(v) && p < |v.order| && v.order[p] in v.order && v.locked[v.order[p]] == 0
    requires w == v.(order := Without(v.order, p), used := v.used[v.order[p] := 0])
    ensures Good(w) && v.order[p] !in w.order && Meaning(w) == Evicted(Meaning(v), p)
  {
    EvictGood(v, w, p);
    var k := v.order[p];
    forall u | 0 <= u < MAX_NUM_TABLES
      ensures Marked(w.order, w.addr, w.used, u) == Marked(v.order, v.addr, v.used, u) - {v.addr[k]}
      ensures Marked(w.order, w.addr, w.locked, u) == Marked(v.order, v.addr, v.locked, u)
    {
      EvictMarked(v, w, v.used, w.used, u, p);
      EvictMarked(v, w, v.locked, w.locked, u, p);
      assert !HasBit(v.locked[k], u);
      MarkedKey(v, v.locked, u, k);
    }
    hide Marked;
    assert Meaning(w).order == Evicted(Meaning(v), p).order;
    assert Meaning(w).members == Evicted(Meaning(v), p).members;
  }

  lemma EvictGood(v: View, w: View, p: nat)
    requires Good(v) && p < |v.order| && v.order[p] in v.order && v.locked[v.order[p]] == 0
    requires w == v.(order := Without(v.order, p), used := v.used[v.order[p] := 0])
    ensures Good(w) && v.order[p] !in w.order && (forall o | o in w.order :: o in v.order)
    ensures Addresses(w.order, w.addr) == Addresses(v.order, v.addr)[..p] + Addresses(v.order, v.addr)[p + 1..]
  {
    forall o ensures o in w.order <==> o in v.order && o != v.order[p] { WithoutMembers(v.order, p, o); }
    forall i | 0 <= i < |w.order| ensures w.order[i] == v.order[if i < p then i else i + 1] { }
  }

  lemma EvictMarked(v: View, w: View, bits: seq<bv8>, bits': seq<bv8>, u: nat, p: nat)
    requires Good(v) && p < |v.order| && v.order[p] in v.order && u < MAX_NUM_TABLES
    requires w.order == Without(v.order, p) && w.addr == v.addr && Good(w) && |bits| == |bits'| == |v.addr|
    requires forall k | 0 <= k < |bits| && k != v.order[p] :: bits'[k] == bits[k]
    ensures Marked(w.order, w.addr, bits', u) == Marked(v.order, v.addr, bits, u) - {v.addr[v.order[p]]}
  {
    hide HasBit;
    forall o ensures o in w.order <==> o in v.order && o != v.order[p] { WithoutMembers(v.order, p, o); }
  }

  // ---- The eviction policy ----

  lemma {:induction false} TablesCounted(m: bv8, t: nat)
    requires t <= MAX_NUM_TABLES
    ensures TablesFrom(m, t) == |set u | t <= u < MAX_NUM_TABLES && HasBit(m, u)|
    decreases MAX_NUM_TABLES - t
  {
    hide HasBit;
    var users := set u | t <= u < MAX_NUM_TABLES && HasBit(m, u);
    if t == MAX_NUM_TABLES {
      assert users == {};
    } else {
      TablesCounted(m, t + 1);
      var rest := set u | t + 1 <= u < MAX_NUM_TABLES && HasBit(m, u);
      assert users == (if HasBit(m, t) then {t} else {}) + rest;
    }
  }

  /** Counting set bits counts the tables that hold the address. */
  lemma UsersCounted(v: View, k: int)
    requires Good(v) && k in v.order
    ensures Users(Meaning(v), v.addr[k]) == TablesFrom(v.used[k], 0)
  {
    TablesCounted(v.used[k], 0);
    hide Marked, HasBit;
    var n := Meaning(v);
    forall t | 0 <= t < MAX_NUM_TABLES ensures v.addr[k] in n.members[t] <==> HasBit(v.used[k], t) { MarkedKey(v, v.used, t, k); }
    assert (set t | 0 <= t < MAX_NUM_TABLES && v.addr[k] in n.members[t]) == set u | 0 <= u < MAX_NUM_TABLES && HasBit(v.used[k], u);
  }

  lemma ZeroBits(m: bv8)
    ensures m == 0 <==> forall t | 0 <= t < MAX_NUM_TABLES :: !HasBit(m, t)
  {
    if forall t | 0 <= t < MAX_NUM_TABLES :: !HasBit(m, t) {
      assert !HasBit(m, 0) && !HasBit(m, 1) && !HasBit(m, 2) && !HasBit(m, 3);
      assert !HasBit(m, 4) && !HasBit(m, 5) && !HasBit(m, 6) && !HasBit(m, 7);
    }
  }

  lemma UnlockedKey(v: View, k: int)
    requires Good(v) && k in v.order
    ensures Unlocked(Meaning(v), v.addr[k]) <==> v.locked[k] == 0
  {
    ZeroBits(v.locked[k]);
    hide Marked, HasBit;
    var n := Meaning(v);
    forall t | 0 <= t < MAX_NUM_TABLES ensures v.addr[k] in n.locks[t] <==> HasBit(v.locked[k], t) { MarkedKey(v, v.locked, t, k); }
    forall s | s in n.locks ensures exists t :: 0 <= t < MAX_NUM_TABLES && n.locks[t] == s { }
    assert forall t | 0 <= t < MAX_NUM_TABLES :: n.locks[t] in n.locks;
  }

  /** The best candidate among the first j keys: its position, or NULL if all of them are locked. */
  ghost predicate Candidate(v: View, j: nat, p: int)
    requires Good(v) && j <= |v.order|
  {
    if p == NULL then forall i | 0 <= i < j :: v.order[i] in v.order && v.locked[v.order[i]] != 0
    else
      && 0 <= p < j && v.order[p] in v.order && v.locked[v.order[p]] == 0
      && forall i | 0 <= i < j :: v.order[i] in v.order && (v.locked[v.order[i]] == 0 ==>
           && TablesFrom(v.used[v.order[p]], 0) <= TablesFrom(v.used[v.order[i]], 0)
           && (i < p ==> TablesFrom(v.used[v.order[p]], 0) < TablesFrom(v.used[v.order[i]], 0)))
  }

  /** Looking at one more key: it wins if it is not locked and used by fewer tables than the best so far. */
  lemma CandidateStep(v: View, j: nat, p: int)
    requires Good(v) && j < |v.order| && v.order[j] in v.order && Candidate(v, j, p)
    requires p == NULL || (0 <= p < |v.order| && v.order[p] in v.order)
    ensures
      var key := v.order[j];
      var better := v.locked[key] == 0 && (p == NULL || TablesFrom(v.used[key], 0) < TablesFrom(v.used[v.order[p]], 0));
      Candidate(v, j + 1, if better then j else p)
  {
    hide TablesFrom;
  }

  lemma CandidateFacts(v: View, j: nat, p: int)
    requires Good(v) && j <= |v.order| && Candidate(v, j, p) && p != NULL
    ensures 0 <= p < j && v.order[p] in v.order && 0 <= v.order[p] < |v.locked| && v.locked[v.order[p]] == 0 && v.order[p] != NULL
  { }

  lemma CandidateStart(v: View)
    requires Good(v)
    ensures Candidate(v, 0, NULL)
  { }

  lemma CandidateWins(v: View, j: nat, p: int)
    requires Good(v) && j <= |v.order| && p != NULL && Candidate(v, j, p)
    requires j == |v.order| || TablesFrom(v.used[v.order[p]], 0) == 0
    ensures Victim(Meaning(v), p)
  {
    hide Meaning, Users, Unlocked, TablesFrom;
    MeaningSizes(v);
    forall i | 0 <= i < |v.order|
      ensures v.order[i] in v.order && Meaning(v).order[i] == v.addr[v.order[i]]
      ensures Users(Meaning(v), Meaning(v).order[i]) == TablesFrom(v.used[v.order[i]], 0)
      ensures Unlocked(Meaning(v), Meaning(v).order[i]) <==> v.locked[v.order[i]] == 0
    {
      AddressOf(v, i);
      UsersCounted(v, v.order[i]);
      UnlockedKey(v, v.order[i]);
    }
  }

  lemma MeaningSizes(v: View)
    requires Good(v)
    ensures |Meaning(v).order| == |v.order| && |Meaning(v).members| == |Meaning(v).locks| == MAX_NUM_TABLES
  { }

  lemma NoCandidate(v: View)
    requires Good(v) && Candidate(v, |v.order|, NULL)
    ensures forall y | y in Meaning(v).order :: !Unlocked(Meaning(v), y)
  {
    hide Unlocked;
    forall y | y in Meaning(v).order ensures !Unlocked(Meaning(v), y) {
      var i :| 0 <= i < |v.order| && Meaning(v).order[i] == y;
      AddressOf(v, i);
      UnlockedKey(v, v.order[i]);
    }
  }

  // ---- The key pool ----

  lemma {:induction false} DistinctSize(f: seq<int>)
    requires Distinct(f)
    ensures |set k | k in f| == |f|
  {
    if f != [] {
      DistinctSize(f[1..]);
      assert f == [f[0]] + f[1..];
      assert (set k | k in f) == {f[0]} + (set k | k in f[1..]);
      assert f[0] !in f[1..];
    }
  }

  /** The numbers below n. */
  function UpTo(n: nat): set<int> { if n == 0 then {} else UpTo(n - 1) + {n - 1} }

  lemma {:induction false} UpToSize(n: nat)
    ensures |UpTo(n)| == n && forall k :: k in UpTo(n) <==> 0 <= k < n
  {
    if n > 0 { UpToSize(n - 1); }
  }

  lemma SubsetSize(a: set<int>, b: set<int>)
    requires a <= b
    ensures |a| <= |b| && (|a| == |b| ==> a == b)
  {
    assert b == a + (b - a);
  }

  /** All n keys are on the list exactly if the list has n entries. */
  lemma PoolFull(f: seq<int>, n: nat)
    requires Distinct(f) && forall k | k in f :: 0 <= k < n
    ensures |f| <= n && (|f| == n <==> forall k | 0 <= k < n :: k in f)
  {
    var a, b := (set k | k in f), UpTo(n);
    DistinctSize(f);
    UpToSize(n);
    SubsetSize(a, b);
    if forall k | 0 <= k < n :: k in f { SubsetSize(b, a); }
    if |f| == n {
      assert a == b;
      forall k | 0 <= k < n ensures k in f { assert k in a; }
    }
  }

  lemma KeyInRange(v: View, k: int)
    requires Good(v) && k in v.order
    ensures 0 <= k < |v.addr| == |v.used| == |v.locked| && k != NULL
  { }

  lemma KeysInRange(v: View)
    requires Good(v)
    ensures forall k | k in v.order :: 0 <= k < |v.used|
  { }

  lemma GoodDistinct(v: View)
    requires Good(v)
    ensures Distinct(v.order)
  { }

  lemma NobodyYet(v: View)
    requires v.order == [] && |v.addr| == |v.used| == |v.locked|
    requires forall k | 0 <= k < |v.addr| :: v.used[k] == 0 && v.locked[k] == 0
    ensures Good(v) && Meaning(v).order == [] && |Meaning(v).members| == |Meaning(v).locks| == MAX_NUM_TABLES
    ensures forall t | 0 <= t < MAX_NUM_TABLES :: Meaning(v).members[t] == {} && Meaning(v).locks[t] == {}
  { }

  lemma RoomLeft(v: View)
    requires Good(v)
    ensures |v.addr| == |v.used| == |v.locked| && |Meaning(v).members| == MAX_NUM_TABLES && |Meaning(v).order| == |v.order|
    ensures |Meaning(v).order| <= |v.addr| && (|Meaning(v).order| == |v.addr| <==> forall k | 0 <= k < |v.addr| :: k in v.order)
  {
    PoolFull(v.order, |v.addr|);
    MeaningSizes(v);
  }

  lemma EvictedOrder(n: Neighbours, p: nat, x: Addr)
    requires p < |n.order| && x !in n.order
    ensures x !in Evicted(n, p).order
  { }

  lemma VictimIsUnlocked(n: Neighbours, p: nat)
    requires |n.members| == MAX_NUM_TABLES && Victim(n, p)
    ensures p < |n.order| && exists y :: y in n.order && Unlocked(n, y)
  {
    assert n.order[p] in n.order;
  }
}
