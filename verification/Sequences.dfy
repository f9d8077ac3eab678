/** Sequences of node numbers, read as linked lists. */
module Sequences {

  /** The null pointer; nodes are numbered from 0. */
  const NULL := -1

  function At(f: seq<int>, i: int): int { if 0 <= i < |f| then f[i] else NULL }

  ghost predicate Distinct(f: seq<int>) { forall i, j | 0 <= i < j < |f| :: f[i] != f[j] }

  /** f without its k-th entry. */
  function Without(f: seq<int>, k: int): seq<int>
    requires 0 <= k < |f|
  {
    f[..k] + f[k + 1..]
  }

  lemma WithoutMembers(f: seq<int>, k: int, o: int)
    requires 0 <= k < |f| && Distinct(f)
    ensures o in Without(f, k) <==> o in f && o != f[k]
  {
    var g := Without(f, k);
    if o in f && o != f[k] {
      var j :| 0 <= j < |f| && f[j] == o;
      assert g[if j < k then j else j - 1] == o;
    }
    if o in g {
      var i :| 0 <= i < |g| && g[i] == o;
      assert g[i] == f[if i < k then i else i + 1];
    }
  }

  /** f without x. */
  function Removed(f: seq<int>, x: int): (g: seq<int>)
    ensures x !in f ==> g == f
  {
    if f == [] then [] else if f[0] == x then f[1..] else [f[0]] + Removed(f[1..], x)
  }

  lemma {:induction false} RemovedAt(f: seq<int>, k: int)
    requires Distinct(f) && 0 <= k < |f|
    ensures Removed(f, f[k]) == Without(f, k)
  {
    if k > 0 {
      assert f[0] != f[k];
      assert f[1..][k - 1] == f[k];
      RemovedAt(f[1..], k - 1);
      assert Without(f, k) == [f[0]] + Without(f[1..], k - 1);
    }
  }

  lemma RemovedMembers(f: seq<int>, x: int, o: int)
    requires Distinct(f)
    ensures o in Removed(f, x) <==> o in f && o != x
    ensures Distinct(Removed(f, x))
  {
    if x in f {
      var k :| 0 <= k < |f| && f[k] == x;
      RemovedAt(f, k);
      WithoutMembers(f, k, o);
    }
  }

  lemma RemovedSet(f: seq<int>, x: int)
    requires Distinct(f)
    ensures x !in Removed(f, x) && forall o :: o in Removed(f, x) <==> o in f && o != x
  {
    forall o ensures o in Removed(f, x) <==> o in f && o != x { RemovedMembers(f, x, o); }
  }

  /** f with x at position k. */
  function Inserted(f: seq<int>, k: int, x: int): seq<int>
    requires 0 <= k <= |f|
  {
    f[..k] + [x] + f[k..]
  }

  /** Where x stands in f. */
  ghost function IndexOf(f: seq<int>, x: int): (k: int)
    requires x in f
    ensures 0 <= k < |f| && f[k] == x
  {
    if f[0] == x then 0 else 1 + IndexOf(f[1..], x)
  }

  /** The entries of f that are in s, in the same order. */
  function Restrict(f: seq<int>, s: set<int>): (g: seq<int>) {
    if f == [] then [] else (if f[0] in s then [f[0]] else []) + Restrict(f[1..], s)
  }

  lemma {:induction false} RestrictMembers(f: seq<int>, s: set<int>, o: int)
    ensures o in Restrict(f, s) <==> o in f && o in s
  {
    if f != [] { RestrictMembers(f[1..], s, o); }
  }

  lemma {:induction false} RestrictConcat(f: seq<int>, g: seq<int>, s: set<int>)
    ensures Restrict(f + g, s) == Restrict(f, s) + Restrict(g, s)
  {
    if f == [] {
      assert f + g == g;
    } else {
      var first, rest, tail := if f[0] in s then [f[0]] else [], Restrict(f[1..], s), Restrict(g, s);
      assert (f + g)[1..] == f[1..] + g;
      assert Restrict(f, s) == first + rest && Restrict(f + g, s) == first + Restrict(f[1..] + g, s);
      hide Restrict;
      RestrictConcat(f[1..], g, s);
      assert first + (rest + tail) == first + rest + tail;
    }
  }

  lemma {:induction false} RestrictAll(f: seq<int>, s: set<int>)
    requires forall o | o in f :: o in s
    ensures Restrict(f, s) == f
  {
    if f == [] {
    } else {
      var o := f[0];
      assert o in f;
      RestrictAll(f[1..], s);
      assert Restrict(f, s) == [f[0]] + Restrict(f[1..], s);
      assert f == [f[0]] + f[1..];
    }
  }

  lemma {:induction false} RestrictTwice(f: seq<int>, s: set<int>, t: set<int>)
    requires t <= s
    ensures Restrict(Restrict(f, s), t) == Restrict(f, t)
  {
    if f != [] {
      RestrictTwice(f[1..], s, t);
      RestrictConcat(if f[0] in s then [f[0]] else [], Restrict(f[1..], s), t);
    }
  }

  /** A stretch of f beside position k keeps all its entries when f[k] is taken out of s. */
  lemma RestrictBeside(f: seq<int>, s: set<int>, k: int, lo: int, hi: int)
    requires Distinct(f) && 0 <= k < |f| && (forall o | o in f :: o in s)
    requires 0 <= lo <= hi <= |f| && (hi <= k || k < lo)
    ensures Restrict(f[lo..hi], s - {f[k]}) == f[lo..hi]
  {
    var part := f[lo..hi];
    forall o | o in part ensures o in s - {f[k]} {
      var i :| 0 <= i < |part| && part[i] == o;
      assert f[lo + i] == o && f[lo + i] in f;
    }
    RestrictAll(part, s - {f[k]});
  }

  lemma RestrictWithout(f: seq<int>, s: set<int>, k: int)
    requires Distinct(f) && 0 <= k < |f| && (forall o | o in f :: o in s)
    ensures Restrict(f, s - {f[k]}) == Without(f, k)
  {
    var a, x, b, t := f[..k], [f[k]], f[k + 1..], s - {f[k]};
    assert Restrict(x, t) == [];
    SplitAt(f, k);
    RestrictBeside(f, s, k, 0, k);
    RestrictBeside(f, s, k, k + 1, |f|);
    hide Restrict, Distinct, Without;
    RestrictConcat(a, x + b, t);
    RestrictConcat(x, b, t);
  }

  lemma SplitAt(f: seq<int>, k: int)
    requires 0 <= k < |f|
    ensures f == f[..k] + ([f[k]] + f[k + 1..]) && Without(f, k) == f[..k] + ([] + f[k + 1..])
    ensures f[0..k] == f[..k] && f[k + 1..|f|] == f[k + 1..]
  { }

  lemma {:induction false} RestrictLength(f: seq<int>, s: set<int>)
    ensures |Restrict(f, s)| <= |f|
  {
    if f != [] { RestrictLength(f[1..], s); }
  }

  /** An entry that stays on the list keeps its neighbours' order: `at` is its new position. */
  lemma RestrictPosition(f: seq<int>, s: set<int>, j: int) returns (at: int)
    requires 0 <= j < |f| && f[j] in s
    ensures 0 <= at <= j && at < |Restrict(f, s)| && Restrict(f, s)[at] == f[j]
    ensures |Restrict(f, s)| - at <= |f| - j
    ensures forall o | o in Restrict(f, s)[..at] :: o in f[..j]
  {
    var a, b := f[..j], f[j + 1..];
    assert f == a + ([f[j]] + b);
    RestrictConcat(a, [f[j]] + b, s);
    RestrictConcat([f[j]], b, s);
    RestrictLength(a, s);
    RestrictLength(b, s);
    at := |Restrict(a, s)|;
    assert Restrict(f, s)[..at] == Restrict(a, s);
    forall o | o in Restrict(f, s)[..at] ensures o in a { RestrictMembers(a, s, o); }
  }

  lemma {:induction false} RestrictDistinct(f: seq<int>, s: set<int>)
    requires Distinct(f)
    ensures Distinct(Restrict(f, s))
  {
    if f != [] {
      RestrictDistinct(f[1..], s);
      RestrictMembers(f[1..], s, f[0]);
      var g := Restrict(f[1..], s);
      assert f[0] !in f[1..];
      assert forall i | 0 <= i < |g| :: g[i] in g && g[i] != f[0];
    }
  }
}
