/** Linked cycles: following `next` from a node leads through every member and back. */
module Cycles {
  import opened Sequences

  function Succ(n: nat, i: int): int { if i + 1 == n then 0 else i + 1 }

  /** f read from its k-th entry on, around the end. */
  function Rotate(f: seq<int>, k: int): (g: seq<int>)
    requires 0 <= k <= |f|
    ensures |g| == |f|
  {
    f[k..] + f[..k]
  }

  predicate NextAt(next: seq<int>, f: seq<int>, i: int)
    requires 0 <= i < |f|
  {
    0 <= f[i] < |next| && next[f[i]] == f[Succ(|f|, i)]
  }

  ghost predicate Cycle(next: seq<int>, f: seq<int>) {
    Distinct(f) && forall i {:trigger NextAt(next, f, i)} | 0 <= i < |f| :: NextAt(next, f, i)
  }

  lemma NextFacts(next: seq<int>, f: seq<int>, i: int)
    requires Cycle(next, f) && 0 <= i < |f|
    ensures 0 <= f[i] < |next| && next[f[i]] == f[Succ(|f|, i)] && f[i] in f
  {
    assert NextAt(next, f, i);
  }

  function Back(n: nat, k: int, i: int): int { if i + k < n then i + k else i + k - n }

  lemma RotateAt(f: seq<int>, k: int, i: int)
    requires 0 <= k <= |f| && 0 <= i < |f|
    ensures Rotate(f, k)[i] == f[Back(|f|, k, i)]
  { }

  lemma RotateDistinct(f: seq<int>, k: int)
    requires 0 <= k <= |f| && Distinct(f)
    ensures Distinct(Rotate(f, k)) && forall o :: o in Rotate(f, k) <==> o in f
  {
    var g := Rotate(f, k);
    assert f == f[..k] + f[k..];
    forall i, j | 0 <= i < j < |g| ensures g[i] != g[j] {
      RotateAt(f, k, i);
      RotateAt(f, k, j);
    }
  }

  /** A cycle may be read from any of its members. */
  lemma RotateCycle(next: seq<int>, f: seq<int>, k: int)
    requires 0 <= k <= |f| && Cycle(next, f)
    ensures Cycle(next, Rotate(f, k))
  {
    var g := Rotate(f, k);
    RotateDistinct(f, k);
    forall i | 0 <= i < |g| ensures NextAt(next, g, i) {
      RotateAt(f, k, i);
      RotateAt(f, k, Succ(|f|, i));
      NextFacts(next, f, Back(|f|, k, i));
    }
  }

  /** Where n steps along `next` lead. */
  function Walk(next: seq<int>, o: int, n: nat): int {
    if n == 0 then o
    else
      var p := Walk(next, o, n - 1);
      if 0 <= p < |next| then next[p] else NULL
  }

  /** From the head, `next` visits every member once and then returns. */
  lemma {:induction false} WalkVisits(next: seq<int>, f: seq<int>, n: nat)
    requires Cycle(next, f) && n <= |f| && f != []
    ensures Walk(next, f[0], n) == if n < |f| then f[n] else f[0]
  {
    if n > 0 {
      WalkVisits(next, f, n - 1);
      NextFacts(next, f, n - 1);
    }
  }

  /** Taking the last entry out: its predecessor leads to the first. */
  lemma DropLast(next: seq<int>, f: seq<int>, next': seq<int>)
    requires Cycle(next, f) && |f| >= 2 && 0 <= f[|f| - 2] < |next| == |next'|
    requires next'[f[|f| - 2]] == f[0]
    requires forall o | 0 <= o < |next| && o != f[|f| - 2] && o != f[|f| - 1] :: next'[o] == next[o]
    ensures Cycle(next', f[..|f| - 1])
  {
    var g := f[..|f| - 1];
    forall i | 0 <= i < |g| ensures NextAt(next', g, i) {
      NextFacts(next, f, i);
      assert i < |f| - 2 ==> f[i] != f[|f| - 2] && f[i] != f[|f| - 1];
    }
  }

  /** Putting x behind the last entry. */
  lemma PushLast(next: seq<int>, f: seq<int>, x: int, next': seq<int>)
    requires Cycle(next, f) && f != [] && x !in f && 0 <= x < |next| == |next'| && 0 <= f[|f| - 1] < |next|
    requires next'[f[|f| - 1]] == x && next'[x] == f[0]
    requires forall o | 0 <= o < |next| && o != f[|f| - 1] && o != x :: next'[o] == next[o]
    ensures Cycle(next', f + [x])
  {
    var g := f + [x];
    forall i | 0 <= i < |g| ensures NextAt(next', g, i) {
      if i < |f| {
        NextFacts(next, f, i);
        assert i < |f| - 1 ==> f[i] != f[|f| - 1];
      }
    }
  }

  /** Without position k, read from the entry behind it. */
  lemma RotateWithout(f: seq<int>, k: int)
    requires 0 <= k < |f|
    ensures Rotate(f, k + 1)[..|f| - 1] == Rotate(Without(f, k), k)
  {
    assert Rotate(f, k + 1) == f[k + 1..] + f[..k] + [f[k]];
  }
}
