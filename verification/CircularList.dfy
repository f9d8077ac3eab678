/** os/lib/circular-list.c: singly linked circular lists. A node is the number of its `next` cell. */
module CircularList {
  import opened Sequences
  import opened Cycles

  /** The members after circular_list_remove, from the new head on: the one before x, if x was there. */
  ghost function AfterRemove(f: seq<int>, x: int): (g: seq<int>)
    ensures x !in f ==> g == f
  {
    if x !in f then f else
      var k :| 0 <= k < |f| && f[k] == x;
      var rest := Rotate(Without(f, k), k);
      if rest == [] then [] else Rotate(rest, |rest| - 1)
  }

  /** The order of the members that remain is the cyclic order they had. */
  lemma AfterRemoveAt(f: seq<int>, k: int)
    requires Distinct(f) && 0 <= k < |f|
    ensures var rest := Rotate(Without(f, k), k);
      AfterRemove(f, f[k]) == if rest == [] then [] else Rotate(rest, |rest| - 1)
  {
    hide Rotate, Without;
  }

  lemma WithoutDistinct(f: seq<int>, k: int)
    requires 0 <= k < |f| && Distinct(f)
    ensures Distinct(Without(f, k))
  { }

  lemma AfterRemoveMembers(f: seq<int>, x: int)
    requires Distinct(f)
    ensures Distinct(AfterRemove(f, x)) && forall o :: o in AfterRemove(f, x) <==> o in f && o != x
  {
    if x in f {
      var k :| 0 <= k < |f| && f[k] == x;
      AfterRemoveAt(f, k);
      WithoutDistinct(f, k);
      hide AfterRemove, Rotate, Without, Distinct;
      forall o ensures o in Without(f, k) <==> o in f && o != x { WithoutMembers(f, k, o); }
      RotateDistinct(Without(f, k), k);
      var rest := Rotate(Without(f, k), k);
      if rest != [] { RotateDistinct(rest, |rest| - 1); }
    }
  }

  /** The cycle read so that position k comes last. */
  lemma MadeLast(next: seq<int>, f: seq<int>, j: int, k: int)
    requires Cycle(next, f) && |f| >= 2 && 0 <= j < |f| && k == Succ(|f|, j)
    ensures var r := Rotate(f, k + 1);
      && Cycle(next, r) && |r| == |f| && r[|f| - 2] == f[j] && r[|f| - 1] == f[k]
      && 0 <= f[k] < |next| && 0 <= f[j] < |next| && next[f[k]] == r[0]
  {
    NextFacts(next, f, k);
    NextFacts(next, f, j);
    RotateCycle(next, f, k + 1);
    RotateAt(f, k + 1, |f| - 1);
    RotateAt(f, k + 1, |f| - 2);
    RotateAt(f, k + 1, 0);
  }

  /** The predecessor of position k leads past it: the rest is a cycle, read from that predecessor on. */
  lemma UnlinkCycle(next: seq<int>, f: seq<int>, j: int, k: int, next': seq<int>)
    requires Cycle(next, f) && 0 <= j < |f| && k == Succ(|f|, j) && 0 <= f[j] < |next| && 0 <= f[k] < |next|
    requires next' == next[f[j] := next[f[k]]]
    ensures Cycle(next', AfterRemove(f, f[k])) && At(AfterRemove(f, f[k]), 0) == if |f| == 1 then NULL else f[j]
    ensures |f| == 1 <==> next'[f[k]] == f[k]
  {
    if |f| == 1 {
      NextFacts(next, f, 0);
      AfterRemoveLast(f);
      hide AfterRemove;
    } else {
      hide Cycle, AfterRemove, Rotate;
      UnlinkOne(next, f, j, k, next');
    }
  }

  lemma AfterRemoveLast(f: seq<int>)
    requires |f| == 1
    ensures AfterRemove(f, f[0]) == []
  { }

  lemma UnlinkOne(next: seq<int>, f: seq<int>, j: int, k: int, next': seq<int>)
    requires Cycle(next, f) && |f| >= 2 && 0 <= j < |f| && k == Succ(|f|, j) && 0 <= f[j] < |next| && 0 <= f[k] < |next|
    requires next' == next[f[j] := next[f[k]]]
    ensures Cycle(next', AfterRemove(f, f[k])) && At(AfterRemove(f, f[k]), 0) == f[j] && next'[f[k]] != f[k]
  {
    var n, r := |f|, Rotate(f, k + 1);
    var rest := r[..n - 1];
    MadeLast(next, f, j, k);
    MembersDiffer(next, r, n - 2, n - 1);
    MembersDiffer(next, r, 0, n - 1);
    AfterRemoveRest(next, f, k);
    hide Cycle, AfterRemove, Rotate;
    DropLast(next, r, next');
    RotateCycle(next', rest, n - 2);
    RotateAt(rest, n - 2, 0);
  }

  lemma AfterRemoveRest(next: seq<int>, f: seq<int>, k: int)
    requires Cycle(next, f) && |f| >= 2 && 0 <= k < |f|
    ensures AfterRemove(f, f[k]) == Rotate(Rotate(f, k + 1)[..|f| - 1], |f| - 2)
  {
    AfterRemoveAt(f, k);
    RotateWithout(f, k);
    hide AfterRemove, Rotate;
  }

  lemma MembersDiffer(next: seq<int>, f: seq<int>, i: int, j: int)
    requires Cycle(next, f) && 0 <= i < j < |f|
    ensures f[i] != f[j]
  { }

  lemma SingleCycle(next: seq<int>, x: int)
    requires 0 <= x < |next| && next[x] == x
    ensures Cycle(next, [x])
  {
    assert NextAt(next, [x], 0);
  }

  /** Putting x behind the head and reading the cycle from x on. */
  lemma AddCycle(next: seq<int>, f: seq<int>, x: int, next': seq<int>)
    requires Cycle(next, f) && f != [] && x !in f && 0 <= x < |next| == |next'| && 0 <= f[0] < |next|
    requires next'[f[0]] == x && next'[x] == next[f[0]]
    requires forall o | 0 <= o < |next| && o != f[0] && o != x :: next'[o] == next[o]
    ensures Cycle(next', [x] + (f[1..] + [f[0]]))
  {
    var r := Rotate(f, 1);
    NextFacts(next, f, 0);
    RotateCycle(next, f, 1);
    RotateDistinct(f, 1);
    assert r == f[1..] + [f[0]];
    RotateAt(f, 1, 0);
    PushLast(next, r, x, next');
    RotateCycle(next', r + [x], |f|);
    assert Rotate(r + [x], |f|) == [x] + r;
  }

  class Circular {
    const next: array<int>
    var head: int
    ghost var elems: seq<int>

    ghost predicate Valid()
      reads this, next
    {
      Cycle(next[..], elems) && head == At(elems, 0)
    }

    constructor (n: nat)
      ensures Valid() && fresh(next) && next.Length == n && elems == []
    {
      next := new int[n](_ => NULL);
      head := NULL;
      elems := [];
    }

    method Tail() returns (l: int)
      requires Valid()
      ensures l == At(elems, |elems| - 1)
    {
      if elems != [] { NextFacts(next[..], elems, 0); }
      if head == NULL {
        return NULL;
      }
      l := head;
      ghost var i := 0;
      while next[l] != head
        invariant 0 <= i < |elems| && l == elems[i] && 0 <= l < next.Length && next[l] == elems[Succ(|elems|, i)]
        decreases |elems| - i
      {
        l := next[l];
        i := i + 1;
        NextFacts(next[..], elems, i);
      }
    }

    method Length() returns (n: nat)
      requires Valid()
      ensures n == |elems|
    {
      if elems != [] { NextFacts(next[..], elems, 0); }
      if head == NULL {
        return 0;
      }
      n := 1;
      var l := head;
      while next[l] != head
        invariant 1 <= n <= |elems| && l == elems[n - 1] && 0 <= l < next.Length && next[l] == elems[Succ(|elems|, n - 1)]
        decreases |elems| - n
      {
        l := next[l];
        n := n + 1;
        NextFacts(next[..], elems, n - 1);
      }
    }

    /** The step of circular_list_remove that unlinks position k, reached from position j. */
    method Unlink(ghost j: int, ghost k: int, previous: int, l: int)
      requires Valid() && 0 <= j < |elems| && k == Succ(|elems|, j) && previous == elems[j] && l == elems[k]
      requires 0 <= previous < next.Length && 0 <= l < next.Length
      modifies this, next
      ensures Valid() && elems == AfterRemove(old(elems), l)
      ensures forall o | 0 <= o < next.Length && o !in old(elems) :: next[o] == old(next[o])
    {
      ghost var f, m := elems, next[..];
      hide Cycle, AfterRemove;
      NextFacts(m, f, k);
      next[previous] := next[l];
      head := if next[l] == l then NULL else previous;
      UnlinkCycle(m, f, j, k, next[..]);
      elems := AfterRemove(f, l);
    }

    /** circular_list_remove: starts at the second member, so the head comes last. */
    method Remove(element: int)
      requires Valid()
      modifies this, next
      ensures Valid() && elems == AfterRemove(old(elems), element)
      ensures forall o | 0 <= o < next.Length && o !in old(elems) :: next[o] == old(next[o])
    {
      ghost var f, m := elems, next[..];
      if f != [] { NextFacts(next[..], f, 0); }
      if head == NULL {
        return;
      }
      var previous := head;
      var l := next[previous];
      var first := true;
      ghost var t, n := 0, |f|;
      while first || l != next[head]
        invariant Valid() && elems == f && next[..] == m && f != [] && 0 <= head < next.Length && next[head] == f[Succ(n, 0)]
        invariant 0 <= t <= n && first == (t == 0)
        invariant previous == f[if t == n then 0 else t] && l == f[Succ(n, if t == n then 0 else t)]
        invariant forall i {:trigger Succ(n, i)} | 0 <= i < t :: f[Succ(n, i)] != element
        decreases n - t
      {
        NextFacts(next[..], f, t);
        NextFacts(next[..], f, Succ(n, t));
        if l == element {
          Unlink(t, Succ(n, t), previous, l);
          return;
        }
        previous := l;
        l := next[l];
        first := false;
        t := t + 1;
      }
      forall i | 0 <= i < n ensures f[i] != element {
        assert i == Succ(n, if i == 0 then n - 1 else i - 1);
      }
    }

    /** circular_list_add: a new head, placed behind the old one. */
    method Add(element: int)
      requires Valid() && (element == NULL || 0 <= element < next.Length)
      modifies this, next
      ensures Valid()
      ensures element == NULL ==> elems == old(elems)
      ensures element != NULL ==>
        var g := AfterRemove(old(elems), element);
        elems == [element] + if g == [] then [] else g[1..] + [g[0]]
    {
      if element == NULL {
        return;
      }
      hide AfterRemove, Cycle, Distinct;
      AfterRemoveMembers(elems, element);
      Remove(element);
      ghost var g, m := elems, next[..];
      if g != [] { NextFacts(m, g, 0); }
      var h := head;
      if h == NULL {
        next[element] := element;
        elems := [element];
        SingleCycle(next[..], element);
      } else {
        next[element] := next[h];
        next[h] := element;
        AddCycle(m, g, element, next[..]);
        elems := [element] + (g[1..] + [g[0]]);
      }
      head := element;
    }
  }
}
