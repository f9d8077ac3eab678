/** os/lib/list.c: singly linked lists. A node is the number of its `next` cell. */
module ListLib {
  import opened Sequences

  /** The pointer of the node at position i leads to position i + 1. */
  predicate LinkAt(next: seq<int>, f: seq<int>, i: int)
    requires 0 <= i < |f|
  {
    0 <= f[i] < |next| && next[f[i]] == At(f, i + 1)
  }

  /** `next`, read from `head`, is the list f. */
  ghost predicate Linked(next: seq<int>, head: int, f: seq<int>) {
    && Distinct(f)
    && head == At(f, 0)
    && (forall i {:trigger LinkAt(next, f, i)} | 0 <= i < |f| :: LinkAt(next, f, i))
  }

  lemma LinkFacts(next: seq<int>, head: int, f: seq<int>, i: int)
    requires Linked(next, head, f) && 0 <= i < |f|
    ensures 0 <= f[i] < |next| && next[f[i]] == At(f, i + 1) && f[i] in f
  {
    assert LinkAt(next, f, i);
  }

  /** The null pointer stands at the end of the list and nowhere else. */
  lemma EndOf(next: seq<int>, head: int, f: seq<int>, i: int)
    requires Linked(next, head, f) && 0 <= i <= |f|
    ensures head == At(f, 0) && (At(f, i) == NULL <==> i == |f|)
  {
    if i < |f| { assert LinkAt(next, f, i); }
  }

  /** Taking position k out: its predecessor, or the head, now leads past it. */
  lemma RemoveLinked(next: seq<int>, head: int, f: seq<int>, k: int, next': seq<int>)
    requires Linked(next, head, f) && 0 <= k < |f| && |next'| == |next|
    requires 0 <= f[k] < |next| && (k > 0 ==> 0 <= f[k - 1] < |next|)
    requires forall o | 0 <= o < |next| && o != f[k] :: next'[o] == if k > 0 && o == f[k - 1] then next[f[k]] else next[o]
    ensures Linked(next', if k == 0 then next[f[k]] else head, Without(f, k))
  {
    var g := Without(f, k);
    assert LinkAt(next, f, k);
    forall i | 0 <= i < |g| ensures LinkAt(next', g, i) {
      var j := if i < k then i else i + 1;
      assert LinkAt(next, f, j);
      assert g[i] == f[j] && f[j] != f[k];
    }
  }

  /** Putting x at position k: its predecessor, or the head, now leads to it. */
  lemma InsertLinked(next: seq<int>, head: int, f: seq<int>, k: int, x: int, next': seq<int>)
    requires Linked(next, head, f) && 0 <= k <= |f| && x !in f && 0 <= x < |next| == |next'|
    requires k > 0 ==> 0 <= f[k - 1] < |next| && next'[f[k - 1]] == x
    requires next'[x] == At(f, k)
    requires forall o | 0 <= o < |next| && o != x && !(k > 0 && o == f[k - 1]) :: next'[o] == next[o]
    ensures Linked(next', if k == 0 then x else head, Inserted(f, k, x))
  {
    var g := Inserted(f, k, x);
    forall i | 0 <= i < |g| ensures LinkAt(next', g, i) {
      if i != k {
        var j := if i < k then i else i - 1;
        assert LinkAt(next, f, j) && f[j] in f && g[i] == f[j];
        assert k > 0 && j != k - 1 ==> f[j] != f[k - 1];
      }
    }
  }

  class List {
    const next: array<int>
    var head: int
    ghost var elems: seq<int>

    ghost predicate Valid()
      reads this, next
    {
      Linked(next[..], head, elems)
    }

    constructor (n: nat)
      ensures Valid() && fresh(next) && next.Length == n && elems == []
    {
      next := new int[n](_ => NULL);
      head := NULL;
      elems := [];
    }

    method Tail() returns (l: int)
      requires Valid()
      ensures l == At(elems, |elems| - 1)
    {
      EndOf(next[..], head, elems, 0);
      if head == NULL {
        return NULL;
      }
      l := head;
      ghost var i := 0;
      LinkFacts(next[..], head, elems, 0);
      while next[l] != NULL
        invariant 0 <= i < |elems| && l == elems[i] && 0 <= l < next.Length && next[l] == At(elems, i + 1)
        decreases |elems| - i
      {
        l := next[l];
        i := i + 1;
        LinkFacts(next[..], head, elems, i);
      }
      EndOf(next[..], head, elems, i + 1);
    }

    method Remove(item: int)
      requires Valid()
      modifies this, next
      ensures Valid() && elems == Removed(old(elems), item)
      ensures item in old(elems) ==> 0 <= item < next.Length && next[item] == NULL
      ensures forall o | 0 <= o < next.Length && o !in old(elems) :: next[o] == old(next[o])
    {
      ghost var f, m := elems, next[..];
      EndOf(m, head, f, 0);
      if head == NULL {
        return;
      }
      var r := NULL;
      var l := head;
      ghost var i := 0;
      while l != NULL
        invariant 0 <= i <= |f| && l == At(f, i) && r == At(f, i - 1)
        invariant elems == f && next[..] == m && head == old(head)
        invariant item !in f[..i]
        decreases |f| - i
      {
        LinkFacts(m, head, f, i);
        if l == item {
          if i > 0 { LinkFacts(m, head, f, i - 1); }
          if r == NULL {
            head := next[l];
          } else {
            next[r] := next[l];
          }
          next[l] := NULL;
          RemovedAt(f, i);
          RemoveLinked(m, old(head), f, i, next[..]);
          elems := Without(f, i);
          return;
        }
        r := l;
        l := next[l];
        i := i + 1;
      }
      EndOf(m, old(head), f, i);
      assert f[..i] == f;
    }

    /** list_add: the item goes to the end. */
    method Add(item: int)
      requires Valid() && 0 <= item < next.Length
      modifies this, next
      ensures Valid() && elems == Removed(old(elems), item) + [item]
    {
      RemovedSet(elems, item);
      hide Linked, Removed;
      Remove(item);
      ghost var f, m, h := elems, next[..], head;
      FreeCell(m, h, f, item, NULL);
      next[item] := NULL;
      var l := Tail();
      if f != [] { LinkFacts(m, h, f, |f| - 1); }
      EndOf(m, h, f, 0);
      if l == NULL {
        head := item;
      } else {
        next[l] := item;
      }
      InsertLinked(m, h, f, |f|, item, next[..]);
      elems := Inserted(f, |f|, item);
      assert elems == f + [item];
    }

    /** list_push: the item goes to the front. */
    method Push(item: int)
      requires Valid() && 0 <= item < next.Length
      modifies this, next
      ensures Valid() && elems == [item] + Removed(old(elems), item)
    {
      RemovedSet(elems, item);
      hide Linked, Removed;
      Remove(item);
      ghost var f, m, h := elems, next[..], head;
      EndOf(m, h, f, 0);
      next[item] := head;
      head := item;
      InsertLinked(m, h, f, 0, item, next[..]);
      elems := Inserted(f, 0, item);
      assert elems == [item] + f;
    }

    /** list_pop: takes the first item; its own pointer keeps leading into the list. */
    method Pop() returns (l: int)
      requires Valid()
      modifies this`head, this`elems
      ensures Valid() && l == At(old(elems), 0) && elems == if old(elems) == [] then [] else old(elems)[1..]
    {
      hide Linked;
      EndOf(next[..], head, elems, 0);
      l := head;
      if head != NULL {
        LinkFacts(next[..], head, elems, 0);
        RemoveLinked(next[..], head, elems, 0, next[..]);
        head := next[head];
        elems := Without(elems, 0);
        assert elems == old(elems)[1..];
      }
    }

    /** list_chop: takes the last item. */
    method Chop() returns (r: int)
      requires Valid()
      modifies this, next
      ensures Valid() && r == At(old(elems), |old(elems)| - 1)
      ensures elems == if old(elems) == [] then [] else old(elems)[..|old(elems)| - 1]
    {
      hide Linked;
      ghost var f, m, h := elems, next[..], head;
      EndOf(m, h, f, 0);
      if head == NULL {
        return NULL;
      }
      LinkFacts(m, h, f, 0);
      EndOf(m, h, f, 1);
      if next[head] == NULL {
        r := head;
        head := NULL;
        RemoveLinked(m, h, f, 0, m);
        elems := Without(f, 0);
        return;
      }
      var l := head;
      ghost var i := 0;
      LinkFacts(m, h, f, 1);
      while next[next[l]] != NULL
        invariant 0 <= i && i + 1 < |f| && l == f[i] && 0 <= l < next.Length && next[l] == f[i + 1] && 0 <= next[l] < next.Length
        invariant next[next[l]] == At(f, i + 2) && next[..] == m && head == h && elems == f
        decreases |f| - i
      {
        EndOf(m, h, f, i + 2);
        LinkFacts(m, h, f, i + 2);
        l := next[l];
        i := i + 1;
      }
      EndOf(m, h, f, i + 2);
      r := next[l];
      next[l] := NULL;
      RemoveLinked(m, h, f, i + 1, next[..]);
      elems := Without(f, i + 1);
      assert elems == f[..|f| - 1];
    }

    method Length() returns (n: nat)
      requires Valid()
      ensures n == |elems|
    {
      hide Linked;
      n := 0;
      var l := head;
      EndOf(next[..], head, elems, 0);
      while l != NULL
        invariant n <= |elems| && l == At(elems, n) && (l == NULL <==> n == |elems|)
        decreases |elems| - n
      {
        LinkFacts(next[..], head, elems, n);
        n := n + 1;
        EndOf(next[..], head, elems, n);
        l := next[l];
      }
    }

    /**
     * list_insert: behind another member, or at the front. If the anchor is the item itself, it is taken out
     * first and then points to itself, outside the list.
     */
    method Insert(previtem: int, newitem: int)
      requires Valid() && 0 <= newitem < next.Length
      requires previtem != NULL ==> previtem in elems
      modifies this, next
      ensures Valid()
      ensures previtem == NULL ==> elems == [newitem] + Removed(old(elems), newitem)
      ensures previtem != NULL && previtem != newitem ==>
        var g := Removed(old(elems), newitem);
        previtem in g && elems == Inserted(g, IndexOf(g, previtem) + 1, newitem)
      ensures previtem == newitem ==> elems == Removed(old(elems), newitem) && next[newitem] == newitem
      ensures newitem in elems <==> previtem != newitem
    {
      if previtem == NULL {
        Push(newitem);
        assert elems[0] == newitem;
      } else {
        RemovedSet(elems, newitem);
        LinkFacts(next[..], head, elems, IndexOf(elems, previtem));
        hide Linked, Removed, Inserted, IndexOf, Distinct;
        Remove(newitem);
        ghost var f, m, h := elems, next[..], head;
        ghost var k := if previtem == newitem then 0 else IndexOf(f, previtem);
        next[newitem] := next[previtem];
        next[previtem] := newitem;
        assert next[..] == m[newitem := m[previtem]][previtem := newitem];
        if previtem == newitem {
          FreeCell(m, h, f, newitem, newitem);
          assert next[..] == m[newitem := newitem];
        } else {
          InsertWrites(m, h, f, k, previtem, newitem);
          elems := Inserted(f, k + 1, newitem);
          InsertedAt(f, k + 1, newitem);
        }
      }
    }
  }

  /** The two writes that put x behind the item p at position k. */
  lemma InsertWrites(m: seq<int>, head: int, f: seq<int>, k: nat, p: int, x: int)
    requires Linked(m, head, f) && k < |f| && f[k] == p && x !in f && 0 <= x < |m|
    ensures 0 <= p < |m| && Linked(m[x := m[p]][p := x], head, Inserted(f, k + 1, x))
  {
    LinkFacts(m, head, f, k);
    InsertLinked(m, head, f, k + 1, x, m[x := m[p]][p := x]);
  }

  lemma InsertedAt(f: seq<int>, k: nat, x: int)
    requires k <= |f|
    ensures x in Inserted(f, k, x)
  {
    assert Inserted(f, k, x)[k] == x;
  }

  /** The cell of a node outside the list may be overwritten. */
  lemma FreeCell(next: seq<int>, head: int, f: seq<int>, x: int, value: int)
    requires Linked(next, head, f) && x !in f && 0 <= x < |next|
    ensures Linked(next[x := value], head, f)
  {
    var next' := next[x := value];
    forall i | 0 <= i < |f| ensures LinkAt(next', f, i) { LinkFacts(next, head, f, i); }
  }
}
