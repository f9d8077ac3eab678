/** os/lib/dbl-circ-list.c: doubly linked circular lists. A node is the number of its `next` and `previous` cells. */
module DblCircList {
  import opened Sequences
  import opened Cycles

  /** Entry i of the cycle and its successor lead to each other. */
  predicate PairAt(next: seq<int>, prev: seq<int>, f: seq<int>, i: int)
    requires 0 <= i < |f|
  {
    var s := f[Succ(|f|, i)];
    0 <= f[i] < |next| && next[f[i]] == s && 0 <= s < |prev| && prev[s] == f[i]
  }

  ghost predicate Ring(next: seq<int>, prev: seq<int>, f: seq<int>) {
    |next| == |prev| && Distinct(f) && forall i {:trigger PairAt(next, prev, f, i)} | 0 <= i < |f| :: PairAt(next, prev, f, i)
  }

  lemma PairFacts(next: seq<int>, prev: seq<int>, f: seq<int>, i: int)
    requires Ring(next, prev, f) && 0 <= i < |f|
    ensures 0 <= f[i] < |next| && next[f[i]] == f[Succ(|f|, i)] && prev[f[i]] == f[if i == 0 then |f| - 1 else i - 1] && f[i] in f
  {
    assert PairAt(next, prev, f, i);
    assert PairAt(next, prev, f, if i == 0 then |f| - 1 else i - 1);
  }

  /** Both directions: from every member, next then previous and previous then next lead back. */
  lemma Inverse(next: seq<int>, prev: seq<int>, f: seq<int>, o: int)
    requires Ring(next, prev, f) && o in f
    ensures 0 <= o < |next| && next[o] in f && prev[o] in f && 0 <= next[o] < |next| && 0 <= prev[o] < |next|
    ensures prev[next[o]] == o && next[prev[o]] == o
  {
    var i :| 0 <= i < |f| && f[i] == o;
    PairFacts(next, prev, f, i);
    PairFacts(next, prev, f, Succ(|f|, i));
    PairFacts(next, prev, f, if i == 0 then |f| - 1 else i - 1);
  }

  lemma RingIsCycle(next: seq<int>, prev: seq<int>, f: seq<int>)
    requires Ring(next, prev, f)
    ensures Cycle(next, f)
  {
    forall i | 0 <= i < |f| ensures NextAt(next, f, i) { PairFacts(next, prev, f, i); }
  }

  lemma RotateRing(next: seq<int>, prev: seq<int>, f: seq<int>, k: int)
    requires 0 <= k <= |f| && Ring(next, prev, f)
    ensures Ring(next, prev, Rotate(f, k))
  {
    var g := Rotate(f, k);
    RotateDistinct(f, k);
    forall i | 0 <= i < |g| ensures PairAt(next, prev, g, i) {
      RotateAt(f, k, i);
      RotateAt(f, k, Succ(|f|, i));
      assert PairAt(next, prev, f, Back(|f|, k, i));
    }
  }

  /** Taking the last entry out of a ring of two or more. */
  lemma DropLastRing(next: seq<int>, prev: seq<int>, f: seq<int>, next': seq<int>, prev': seq<int>)
    requires Ring(next, prev, f) && |f| >= 2 && |next'| == |prev'| == |next|
    requires 0 <= f[0] < |next| && 0 <= f[|f| - 2] < |next|
    requires next'[f[|f| - 2]] == f[0] && prev'[f[0]] == f[|f| - 2]
    requires forall o | 0 <= o < |next| && o != f[|f| - 2] && o != f[|f| - 1] :: next'[o] == next[o]
    requires forall o | 0 <= o < |next| && o != f[0] && o != f[|f| - 1] :: prev'[o] == prev[o]
    ensures Ring(next', prev', f[..|f| - 1])
  {
    var g := f[..|f| - 1];
    forall i | 0 <= i < |g| ensures PairAt(next', prev', g, i) {
      assert PairAt(next, prev, f, i);
      assert i < |f| - 2 ==> f[i] != f[|f| - 2] && f[i + 1] != f[0] && f[i + 1] != f[|f| - 1];
      assert f[i] != f[|f| - 1];
    }
  }

  /** Putting x between the last entry and the first. */
  lemma PushLastRing(next: seq<int>, prev: seq<int>, f: seq<int>, x: int, next': seq<int>, prev': seq<int>)
    requires Ring(next, prev, f) && f != [] && x !in f && 0 <= x < |next| == |next'| == |prev'|
    requires 0 <= f[0] < |next| && 0 <= f[|f| - 1] < |next|
    requires next'[f[|f| - 1]] == x && next'[x] == f[0] && prev'[f[0]] == x && prev'[x] == f[|f| - 1]
    requires forall o | 0 <= o < |next| && o != f[|f| - 1] && o != x :: next'[o] == next[o]
    requires forall o | 0 <= o < |next| && o != f[0] && o != x :: prev'[o] == prev[o]
    ensures Ring(next', prev', f + [x])
  {
    var g := f + [x];
    forall i | 0 <= i < |g| ensures PairAt(next', prev', g, i) {
      if i < |f| {
        assert PairAt(next, prev, f, i) && f[i] in f;
        assert i < |f| - 1 ==> f[i] != f[|f| - 1] && f[i + 1] != f[0] && f[i + 1] in f;
      }
    }
  }

  /** Insertion at any position is putting x behind the last entry, read from elsewhere. */
  lemma InsertRotate(f: seq<int>, k: int, x: int)
    requires 0 <= k <= |f|
    ensures Inserted(f, k, x) == Rotate(Rotate(f, k) + [x], |f| - k)
  { }

  /** The entries around position k of a ring, where a new member would go. */
  function Before(f: seq<int>, k: int): int
    requires 0 <= k <= |f| && f != []
  {
    f[if k == 0 then |f| - 1 else k - 1]
  }

  function After(f: seq<int>, k: int): int
    requires 0 <= k <= |f| && f != []
  {
    f[if k == |f| then 0 else k]
  }

  /** Putting x at position k, between two neighbours. */
  lemma InsertRing(next: seq<int>, prev: seq<int>, f: seq<int>, k: int, x: int, next': seq<int>, prev': seq<int>)
    requires Ring(next, prev, f) && f != [] && 0 <= k <= |f| && x !in f && 0 <= x < |next| == |next'| == |prev'|
    requires var a, s := Before(f, k), After(f, k);
      && 0 <= a < |next| && 0 <= s < |next|
      && next'[a] == x && next'[x] == s && prev'[s] == x && prev'[x] == a
      && (forall o | 0 <= o < |next| && o != a && o != x :: next'[o] == next[o])
      && (forall o | 0 <= o < |next| && o != s && o != x :: prev'[o] == prev[o])
    ensures Ring(next', prev', Inserted(f, k, x)) && Inserted(f, k, x)[0] == if k == 0 then x else f[0]
  {
    var r := Rotate(f, k);
    RotateRing(next, prev, f, k);
    RotateDistinct(f, k);
    RotateAt(f, k, 0);
    RotateAt(f, k, |f| - 1);
    hide Ring, Rotate;
    PushLastRing(next, prev, r, x, next', prev');
    RotateRing(next', prev', r + [x], |f| - k);
    InsertRotate(f, k, x);
  }

  lemma AtEnd(f: seq<int>, x: int)
    ensures Inserted(f, |f|, x) == f + [x] && (f != [] ==> Before(f, |f|) == f[|f| - 1] && After(f, |f|) == f[0])
  { }

  /** One member pointing at itself. */
  lemma Single(next: seq<int>, prev: seq<int>, x: int)
    requires 0 <= x < |next| == |prev| && next[x] == x && prev[x] == x
    ensures Ring(next, prev, [x])
  { }

  lemma WithoutRotate(f: seq<int>, k: int)
    requires 0 <= k < |f|
    ensures Without(f, k) == Rotate(Rotate(f, k + 1)[..|f| - 1], |f| - 1 - k)
  {
    var r := Rotate(f, k + 1)[..|f| - 1];
    assert r == f[k + 1..] + f[..k];
  }

  class DoublyCircular {
    const next: array<int>
    const previous: array<int>
    var head: int
    ghost var elems: seq<int>

    ghost predicate Valid()
      reads this, next, previous
    {
      next != previous && Ring(next[..], previous[..], elems) && head == At(elems, 0)
    }

    constructor (n: nat)
      ensures Valid() && fresh(next) && fresh(previous) && next.Length == n && elems == []
    {
      next := new int[n](_ => NULL);
      previous := new int[n](_ => NULL);
      head := NULL;
      elems := [];
    }

    lemma Members()
      requires Valid()
      ensures forall i | 0 <= i < |elems| :: 0 <= elems[i] < next.Length
      ensures next.Length == previous.Length && Cycle(next[..], elems)
    {
      RingIsCycle(next[..], previous[..], elems);
      forall i | 0 <= i < |elems| ensures 0 <= elems[i] < next.Length { PairFacts(next[..], previous[..], elems, i); }
    }

    method Tail() returns (l: int)
      requires Valid()
      ensures l == At(elems, |elems| - 1)
    {
      Members();
      if elems != [] { NextFacts(next[..], elems, 0); }
      if head == NULL {
        return NULL;
      }
      l := head;
      ghost var i := 0;
      while next[l] != head
        invariant 0 <= i < |elems| && l == elems[i] && 0 <= l < next.Length && next[l] == elems[Succ(|elems|, i)]
        decreases |elems| - i
      {
        l := next[l];
        i := i + 1;
        NextFacts(next[..], elems, i);
      }
    }

    method Length() returns (n: nat)
      requires Valid()
      ensures n == |elems|
    {
      Members();
      if elems != [] { NextFacts(next[..], elems, 0); }
      if head == NULL {
        return 0;
      }
      n := 1;
      var l := head;
      while next[l] != head
        invariant 1 <= n <= |elems| && l == elems[n - 1] && 0 <= l < next.Length && next[l] == elems[Succ(|elems|, n - 1)]
        decreases |elems| - n
      {
        l := next[l];
        n := n + 1;
        NextFacts(next[..], elems, n - 1);
      }
    }

    /** The step of dbl_circ_list_remove that unlinks the member at position k. */
    method Unlink(ghost k: int, l: int)
      requires Valid() && 0 <= k < |elems| && l == elems[k] && 0 <= l < next.Length == previous.Length
      requires 0 <= next[l] < next.Length && 0 <= previous[l] < next.Length
      modifies this, next, previous
      ensures Valid() && elems == Without(old(elems), k) && next[l] == previous[l] == NULL
      ensures forall o | 0 <= o < next.Length && o !in old(elems) :: next[o] == old(next[o]) && previous[o] == old(previous[o])
    {
      hide Ring, Distinct, Rotate;
      ghost var f, m, p := elems, next[..], previous[..];
      ghost var n, r := |f|, Rotate(f, k + 1);
      Members();
      PairFacts(m, p, f, k);
      RotateRing(m, p, f, k + 1);
      RotateDistinct(f, k + 1);
      RotateAt(f, k + 1, n - 1);
      RotateAt(f, k + 1, 0);
      if n >= 2 { RotateAt(f, k + 1, n - 2); DistinctAt(f, 0, k); }
      WithoutRotate(f, k);
      next[previous[l]] := next[l];
      previous[next[l]] := previous[l];
      if head == l {
        head := if next[l] == l then NULL else next[l];
      }
      next[l], previous[l] := NULL, NULL;
      elems := Without(f, k);
      if n >= 2 {
        DistinctAt(r, 0, n - 1);
        DistinctAt(r, n - 2, n - 1);
        DropLastRing(m, p, r, next[..], previous[..]);
        RotateRing(next[..], previous[..], r[..n - 1], n - 1 - k);
      } else {
        EmptyRing(next[..], previous[..]);
      }
    }

    method Remove(element: int)
      requires Valid()
      modifies this, next, previous
      ensures Valid() && next.Length == previous.Length && elems == Removed(old(elems), element)
      ensures element in old(elems) ==> 0 <= element < next.Length && next[element] == previous[element] == NULL
      ensures forall o | 0 <= o < next.Length && o !in old(elems) :: next[o] == old(next[o]) && previous[o] == old(previous[o])
    {
      hide Ring, Cycle, Distinct;
      ghost var f, m, p := elems, next[..], previous[..];
      Members();
      if head == NULL || element == NULL {
        assert f == [] || element !in f;
        return;
      }
      var l := head;
      var first := true;
      ghost var t, n := 0, |f|;
      while first || l != head
        invariant Valid() && elems == f && next[..] == m && previous[..] == p && f != []
        invariant 0 <= t <= n && first == (t == 0) && l == f[if t == n then 0 else t]
        invariant element !in f[..t]
        decreases n - t
      {
        PairFacts(next[..], previous[..], f, t);
        if l == element {
          RingRemovedAt(next[..], previous[..], f, t);
          Unlink(t, l);
          return;
        }
        l := next[l];
        first := false;
        t := t + 1;
      }
      if t < n { FirstOnly(next[..], previous[..], f, t); }
      assert f[..t] == f;
    }

    method AddHead(element: int)
      requires Valid() && (element == NULL || 0 <= element < next.Length)
      modifies this, next, previous
      ensures Valid() && elems == if element == NULL then old(elems) else [element] + Removed(old(elems), element)
    {
      if element == NULL {
        return;
      }
      RemovedSet(elems, element);
      hide Ring, Cycle, Removed, Distinct;
      Remove(element);
      ghost var g, m, p := elems, next[..], previous[..];
      Members();
      var h := head;
      if h == NULL {
        next[element] := element;
        previous[element] := element;
        Single(next[..], previous[..], element);
      } else {
        PairFacts(m, p, g, 0);
        next[element] := h;
        previous[element] := previous[h];
        next[previous[h]] := element;
        previous[h] := element;
        InsertRing(m, p, g, 0, element, next[..], previous[..]);
      }
      head := element;
      elems := Inserted(g, 0, element);
      assert elems == [element] + g;
    }

    /** dbl_circ_list_add_tail on a list that is not empty. */
    method LinkTail(tail: int, element: int)
      requires Valid() && elems != [] && element !in elems && 0 <= element < next.Length && tail == At(elems, |elems| - 1)
      modifies next, previous
      ensures Ring(next[..], previous[..], elems + [element])
    {
      hide Ring, Cycle, Distinct, Inserted, Before, After;
      ghost var g, m, p := elems, next[..], previous[..];
      Members();
      PairFacts(m, p, g, |g| - 1);
      AtEnd(g, element);
      next[element] := head;
      previous[element] := tail;
      previous[next[tail]] := element;
      next[tail] := element;
      InsertRing(m, p, g, |g|, element, next[..], previous[..]);
    }

    method AddTail(element: int)
      requires Valid() && (element == NULL || 0 <= element < next.Length)
      modifies this, next, previous
      ensures Valid() && elems == if element == NULL then old(elems) else Removed(old(elems), element) + [element]
    {
      if element == NULL {
        return;
      }
      RemovedSet(elems, element);
      hide Ring, Cycle, Removed, Distinct;
      Remove(element);
      Members();
      var tail := Tail();
      if tail == NULL {
        next[element] := element;
        previous[element] := element;
        head := element;
        Single(next[..], previous[..], element);
      } else {
        LinkTail(tail, element);
      }
      elems := elems + [element];
    }

    /** The rest of dbl_circ_list_add_after, once the element is no member any more; false where it would follow a null pointer. */
    method LinkAfter(existing: int, element: int, ghost k: int) returns (ok: bool)
      requires Valid() && element !in elems && 0 <= element < next.Length == previous.Length
      requires if existing == element then next[element] == NULL else 0 <= k < |elems| && elems[k] == existing
      modifies next, previous
      ensures ok <==> existing != element
      ensures ok ==> Ring(next[..], previous[..], Inserted(elems, k + 1, element)) && Inserted(elems, k + 1, element)[0] == elems[0]
      ensures !ok ==> Ring(next[..], previous[..], elems) && next[element] == NULL && previous[element] == element
    {
      hide Ring, Cycle, Distinct, Inserted;
      ghost var g, m, p := elems, next[..], previous[..];
      Members();
      if existing != element { PairFacts(m, p, g, k); }
      next[element] := next[existing];
      previous[element] := existing;
      if next[existing] == NULL {
        FreeCells(m, p, g, element, NULL, element);
        return false;
      }
      previous[next[existing]] := element;
      next[existing] := element;
      InsertRing(m, p, g, k + 1, element, next[..], previous[..]);
      return true;
    }

    /**
     * dbl_circ_list_add_after, for an anchor that is a member. If the anchor is the element itself, it has been
     * taken out by then, and its cleared next pointer is followed.
     */
    method AddAfter(existing: int, element: int) returns (ok: bool)
      requires Valid() && (element == NULL || 0 <= element < next.Length)
      requires element != NULL && existing != NULL ==> existing in elems
      modifies this, next, previous
      ensures Valid()
      ensures element == NULL || existing == NULL ==> ok && elems == old(elems)
      ensures element != NULL && existing != NULL ==> (ok <==> existing != element)
      ensures element != NULL && existing != NULL && ok ==>
        var g := Removed(old(elems), element);
        existing in g && elems == Inserted(g, IndexOf(g, existing) + 1, element)
      ensures !ok ==> elems == Removed(old(elems), element) && next[element] == NULL
    {
      if element == NULL || existing == NULL {
        return true;
      }
      RemovedSet(elems, element);
      hide Ring, Cycle, Removed, Distinct;
      Remove(element);
      ghost var k := if existing == element then 0 else IndexOf(elems, existing);
      ok := LinkAfter(existing, element, k);
      if ok { elems := Inserted(elems, k + 1, element); }
    }

    /** The rest of dbl_circ_list_add_before, but for the head. */
    method LinkBefore(existing: int, element: int, ghost k: int) returns (ok: bool)
      requires Valid() && element !in elems && 0 <= element < next.Length == previous.Length
      requires if existing == element then previous[element] == NULL else 0 <= k < |elems| && elems[k] == existing
      modifies next, previous
      ensures ok <==> existing != element
      ensures ok ==> Ring(next[..], previous[..], Inserted(elems, k, element))
      ensures ok ==> Inserted(elems, k, element)[0] == if existing == head then element else head
      ensures !ok ==> Ring(next[..], previous[..], elems) && next[element] == element && previous[element] == NULL
    {
      hide Ring, Cycle, Distinct, Inserted;
      ghost var g, m, p := elems, next[..], previous[..];
      Members();
      if existing != element {
        PairFacts(m, p, g, k);
        FirstOnly(m, p, g, k);
      }
      next[element] := existing;
      previous[element] := previous[existing];
      if previous[existing] == NULL {
        FreeCells(m, p, g, element, element, NULL);
        return false;
      }
      next[previous[existing]] := element;
      previous[existing] := element;
      InsertRing(m, p, g, k, element, next[..], previous[..]);
      return true;
    }

    /** dbl_circ_list_add_before, for an anchor that is a member; for the element itself it follows the cleared previous pointer. */
    method AddBefore(existing: int, element: int) returns (ok: bool)
      requires Valid() && (element == NULL || 0 <= element < next.Length)
      requires element != NULL && existing != NULL ==> existing in elems
      modifies this, next, previous
      ensures Valid()
      ensures element == NULL || existing == NULL ==> ok && elems == old(elems)
      ensures element != NULL && existing != NULL ==> (ok <==> existing != element)
      ensures element != NULL && existing != NULL && ok ==>
        var g := Removed(old(elems), element);
        existing in g && elems == Inserted(g, IndexOf(g, existing), element)
      ensures !ok ==> elems == Removed(old(elems), element) && previous[element] == NULL
    {
      if element == NULL || existing == NULL {
        return true;
      }
      RemovedSet(elems, element);
      hide Ring, Cycle, Removed, Distinct;
      Remove(element);
      ghost var k := if existing == element then 0 else IndexOf(elems, existing);
      ok := LinkBefore(existing, element, k);
      if ok {
        if head == existing {
          head := element;
        }
        elems := Inserted(elems, k, element);
      }
    }
  }

  /** The cells of a node outside the ring may be overwritten. */
  lemma FreeCells(next: seq<int>, prev: seq<int>, f: seq<int>, x: int, a: int, b: int)
    requires Ring(next, prev, f) && x !in f && 0 <= x < |next|
    ensures Ring(next[x := a], prev[x := b], f)
  {
    var next', prev' := next[x := a], prev[x := b];
    forall i | 0 <= i < |f| ensures PairAt(next', prev', f, i) {
      assert PairAt(next, prev, f, i) && f[i] in f && f[Succ(|f|, i)] in f;
    }
  }

  lemma DistinctAt(f: seq<int>, i: int, j: int)
    requires Distinct(f) && 0 <= i < |f| && 0 <= j < |f|
    ensures f[i] == f[j] <==> i == j
  { }

  lemma FirstOnly(next: seq<int>, prev: seq<int>, f: seq<int>, t: int)
    requires Ring(next, prev, f) && 0 <= t < |f|
    ensures f[t] == f[0] ==> t == 0
  { }

  lemma RingRemovedAt(next: seq<int>, prev: seq<int>, f: seq<int>, t: int)
    requires Ring(next, prev, f) && 0 <= t < |f|
    ensures Removed(f, f[t]) == Without(f, t) && 0 <= f[t] < |next|
    ensures 0 <= next[f[t]] < |next| && 0 <= prev[f[t]] < |next|
  {
    RemovedAt(f, t);
    Inverse(next, prev, f, f[t]);
  }

  lemma EmptyRing(next: seq<int>, prev: seq<int>)
    requires |next| == |prev|
    ensures Ring(next, prev, [])
  { }
}
