/** Merging neighbouring free chunks: what a coalescing pass may change, and what it never does. */
module HeapMerge {
  import opened Sequences
  import opened HeapLayout
  import opened HeapSteps

  /**
   * From v to w some free chunks were swallowed by chunk c, or by any free chunk when c is NULL.
   * Nothing else moved: footprint, flags, and the order of the free list stay.
   */
  ghost predicate Merged(v: View, w: View, c: int)
    requires Good(v) && Good(w)
  {
    && w.usage == v.usage
    && w.chunks <= v.chunks
    && SameOutside(v.mem, w.mem, v.chunks)
    && SameFlags(v.mem, w.mem, w.chunks)
    && (forall o | o in v.chunks && o !in w.chunks :: !v.mem[o].inUse)
    && (forall o | o in w.chunks :: v.mem[o].size <= w.mem[o].size)
    && (forall o | o in w.chunks && v.mem[o].inUse && o != c :: w.mem[o].size == v.mem[o].size)
    && w.free == Restrict(v.free, w.chunks)
  }

  lemma MergedRefl(v: View, c: int)
    requires Good(v)
    ensures Merged(v, v, c)
  {
    RestrictAll(v.free, v.chunks);
  }

  lemma MergedTrans(u: View, v: View, w: View, c: int)
    requires Good(u) && Good(v) && Good(w) && Merged(u, v, c) && Merged(v, w, c)
    ensures Merged(u, w, c)
  {
    RestrictTwice(u.free, v.chunks, w.chunks);
  }

  /** Merging leaves every live object but c alone, and c keeps the bytes it had. */
  lemma MergedKeeps(v: View, w: View, c: int)
    requires Good(v) && Good(w) && Merged(v, w, c)
    ensures KeepsOthers(v, w, c)
    ensures c in Live(v) ==> c in Live(w) && Payload(v.mem, c) <= Payload(w.mem, c)
  {
    forall o | o in Live(v) ensures o in Live(w) && (o != c ==> Payload(w.mem, o) == Payload(v.mem, o)) {
      if o != c { PayloadFrame(v.mem, w.mem, v.usage, v.chunks, o); }
    }
    if c in Live(v) {
      forall i | c + HDR <= i < End(v.mem, c) ensures w.mem[i] == v.mem[i] {
        assert i !in v.chunks;
      }
    }
  }

  /** What coalescing around chunk c has achieved so far. */
  ghost predicate Absorbed(v: View, w: View, c: int)
    requires Good(v)
  {
    && Good(w)
    && c in w.chunks
    && Merged(v, w, c)
    && (forall o | o in w.chunks && o != c :: w.mem[o].size == v.mem[o].size)
    && (forall o | o in v.chunks && o !in w.chunks :: c < o)
  }

  /** No free chunk directly follows c. */
  predicate Closed(v: View, c: int)
    requires IsChunk(v.mem, c)
  {
    var e := End(v.mem, c);
    e == v.usage || (e in v.chunks && IsChunk(v.mem, e) && v.mem[e].inUse)
  }

  lemma AbsorbedRefl(v: View, c: int)
    requires Good(v) && c in v.chunks
    ensures Absorbed(v, v, c)
  {
    MergedRefl(v, c);
  }

  /** Coalescing elsewhere leaves a closed chunk closed. */
  lemma ClosedStays(v: View, w: View, c: int, o: int)
    requires Good(v) && Absorbed(v, w, c) && o in w.chunks && o != c && Closed(v, o)
    ensures Closed(w, o)
  { }

  /** Swallowing free chunks into a free chunk touches no live object at all. */
  lemma AbsorbedFree(v: View, w: View, c: int)
    requires Good(v) && Absorbed(v, w, c) && c in v.free
    ensures Merged(v, w, NULL)
  { }

  /** The chunk after c counted into c's size, before it leaves the free list. */
  function Grown(m: seq<Cell>, c: int): seq<Cell>
    requires IsChunk(m, c) && End(m, c) < |m| && IsChunk(m, End(m, c))
  {
    m[c := m[c].(size := m[c].size + HDR + m[End(m, c)].size)]
  }

  lemma AbsorbedFacts(v: View, w: View, c: int)
    requires Good(v) && Absorbed(v, w, c)
    ensures Good(w) && c in w.chunks
  { }

  /** The free list does not notice that a chunk grows. */
  lemma GrownLinked(u: View, c: int)
    requires Good(u) && c in u.chunks && IsChunk(u.mem, c) && End(u.mem, c) < |u.mem| && IsChunk(u.mem, End(u.mem, c))
    ensures AllChunks(Grown(u.mem, c), u.free) && Linked(Grown(u.mem, c), u.head, u.free)
  {
    hide Tiled, FreeExact;
    assert AllChunks(u.mem, u.free) by { ListFacts(u); }
    LinkedBySame(u.mem, Grown(u.mem, c), u.head, u.free);
  }

  /** One round of coalescing: c takes over the free chunk that follows it, found at list position k. */
  lemma MergeStep(v: View, u: View, w: View, c: int, k: int)
    requires Good(v) && Absorbed(v, u, c) && End(u.mem, c) in u.chunks
    requires 0 <= k < |u.free| && u.free[k] == End(u.mem, c)
    requires AllChunks(Grown(u.mem, c), u.free) && Unlinked(Grown(u.mem, c), w.mem, u.free, k)
    requires w.usage == u.usage && w.chunks == u.chunks - {End(u.mem, c)} && w.free == Without(u.free, k)
    requires Linked(w.mem, w.head, w.free)
    ensures Absorbed(v, w, c)
    ensures IsChunk(w.mem, End(u.mem, c)) && End(w.mem, c) == End(w.mem, End(u.mem, c))
    ensures EndsWell(w.mem, w.usage, w.chunks, c)
  {
    hide Good, Merged, Linked, Unlinked, AllChunks;
    ChunkFacts(u, c);
    ChunkFacts(u, End(u.mem, c));
    MergeGood(u, w, c, k);
    MergeOnce(u, w, c, k);
    ChunkFacts(w, c);
    AbsorbedMore(v, u, w, c);
  }

  lemma AbsorbedMore(v: View, u: View, w: View, c: int)
    requires Good(v) && Absorbed(v, u, c) && Good(w) && Merged(u, w, c) && c in w.chunks && w.chunks <= u.chunks
    requires forall o | o in u.chunks && o !in w.chunks :: c < o
    requires IsChunk(u.mem, c) && End(u.mem, c) in u.chunks
    requires forall o | o in w.chunks :: w.mem[o].size == Grown(u.mem, c)[o].size
    ensures Absorbed(v, w, c)
  {
    assert forall o | o in w.chunks && o != c :: w.mem[o].size == u.mem[o].size;
    MergedTrans(v, u, w, c);
    hide Merged, Tiled, FreeExact, Linked;
  }

  /** The round on its own is a merge. */
  lemma MergeOnce(u: View, w: View, c: int, k: int)
    requires Good(u) && Good(w) && c in u.chunks && End(u.mem, c) in u.chunks
    requires 0 <= k < |u.free| && u.free[k] == End(u.mem, c)
    requires w.usage == u.usage && w.chunks == u.chunks - {End(u.mem, c)} && w.free == Without(u.free, k)
    requires SameOutside(u.mem, w.mem, u.chunks)
    requires forall o | o in w.chunks :: w.mem[o].size == Grown(u.mem, c)[o].size && w.mem[o].inUse == u.mem[o].inUse
    ensures Merged(u, w, c)
  {
    RestrictWithout(u.free, u.chunks, k);
    ChunkFacts(u, u.free[k]);
    hide Tiled, Linked, Aligned;
  }

  lemma MergeGood(u: View, w: View, c: int, k: int)
    requires Good(u) && c in u.chunks && End(u.mem, c) in u.chunks
    requires 0 <= k < |u.free| && u.free[k] == End(u.mem, c)
    requires AllChunks(Grown(u.mem, c), u.free) && Unlinked(Grown(u.mem, c), w.mem, u.free, k)
    requires w.usage == u.usage && w.chunks == u.chunks - {End(u.mem, c)} && w.free == Without(u.free, k)
    requires Linked(w.mem, w.head, w.free)
    ensures Good(w)
    ensures IsChunk(w.mem, End(u.mem, c)) && End(w.mem, c) == End(w.mem, End(u.mem, c))
    ensures SameOutside(u.mem, w.mem, u.chunks)
    ensures forall o | o in w.chunks :: w.mem[o].size == Grown(u.mem, c)[o].size && w.mem[o].inUse == u.mem[o].inUse
  {
    var n := End(u.mem, c);
    MergeHeaders(u, w, c, k);
    AbsorbTile(u.mem, w.mem, u.usage, u.chunks, c);
    forall o ensures o in w.free <==> o in u.free && o != n { WithoutMembers(u.free, k, o); }
  }

  lemma MergeHeaders(u: View, w: View, c: int, k: int)
    requires Good(u) && c in u.chunks && End(u.mem, c) in u.chunks
    requires 0 <= k < |u.free| && u.free[k] == End(u.mem, c)
    requires AllChunks(Grown(u.mem, c), u.free) && Unlinked(Grown(u.mem, c), w.mem, u.free, k)
    ensures forall o | o in u.chunks :: IsChunk(w.mem, o) && w.mem[o].size == Grown(u.mem, c)[o].size && w.mem[o].inUse == (o == u.free[k] || u.mem[o].inUse)
    ensures SameOutside(u.mem, w.mem, u.chunks)
  {
    var g := Grown(u.mem, c);
    forall o | o in u.chunks ensures IsChunk(w.mem, o) && w.mem[o].size == g[o].size && w.mem[o].inUse == (o == u.free[k] || u.mem[o].inUse) {
      UnlinkHeaders(g, w.mem, u.free, k, o);
    }
  }

  predicate AllClosed(v: View, f: seq<int>)
  {
    forall o | o in f :: IsChunk(v.mem, o) && Closed(v, o)
  }

  /** Where a defragmentation of v stands: the scan is at `chunk`, list position j, with i visits left. */
  ghost predicate Scanned(v: View, w: View, chunk: int, i: int, j: int)
    requires Good(v)
  {
    && Good(w) && Merged(v, w, NULL)
    && 0 <= j <= |w.free| && chunk == At(w.free, j)
    && AllClosed(w, w.free[..j])
    && 0 <= i <= SEARCH_MAX && SEARCH_MAX - i + |w.free| - j <= |v.free|
    && (chunk != NULL ==> IsChunk(w.mem, chunk) && chunk in w.chunks)
  }

  lemma ScanStart(v: View)
    requires Good(v)
    ensures Scanned(v, v, v.head, SEARCH_MAX, 0)
  {
    MergedRefl(v, NULL);
    ListFacts(v);
  }

  /**
   * The first j entries of the list have no free chunk behind them, and the scan did not stop early: either j is
   * the end of the list, or the entries behind j and the SEARCH_MAX visits together make up no more than the old list.
   */
  ghost predicate ClosedUpTo(v: View, w: View, j: int) {
    && 0 <= j <= |w.free| && AllClosed(w, w.free[..j])
    && (j == |w.free| || SEARCH_MAX + |w.free| - j <= |v.free|)
  }

  /** What a bounded defragmentation makes of v. */
  ghost predicate Defragged(v: View, w: View)
    requires Good(v)
  {
    Good(w) && Merged(v, w, NULL) && exists j :: ClosedUpTo(v, w, j)
  }

  /** A list within the search bound ends up without adjacent free chunks. */
  lemma DefraggedAll(v: View, w: View)
    requires Good(v) && Defragged(v, w) && |v.free| <= SEARCH_MAX
    ensures AllClosed(w, w.free)
  {
    var j :| ClosedUpTo(v, w, j);
    assert w.free[..j] == w.free;
  }

  lemma ScanEnd(v: View, w: View, chunk: int, i: int, j: int)
    requires Good(v) && Scanned(v, w, chunk, i, j) && (chunk == NULL || i == 0)
    ensures Defragged(v, w)
  {
    ListFacts(w);
    assert ClosedUpTo(v, w, j);
  }

  lemma ClosedPrefix(u: View, w: View, c: int, closed: seq<int>, at: int)
    requires Good(u) && Absorbed(u, w, c) && Closed(w, c) && AllClosed(u, closed)
    requires 0 <= at < |w.free| && w.free[at] == c && forall o | o in w.free[..at] :: o in closed
    ensures AllClosed(w, w.free[..at + 1])
  {
    hide Tiled, Linked, FreeExact, Merged;
    ListFacts(w);
    forall o | o in w.free[..at + 1] ensures IsChunk(w.mem, o) && Closed(w, o) {
      var k :| 0 <= k <= at && w.free[k] == o;
      assert w.free[k] in w.free;
      if o != c {
        assert w.free[..at][k] == o;
        ClosedStays(u, w, c, o);
      }
    }
  }

  lemma NextInList(v: View, i: int)
    requires Good(v) && 0 <= i < |v.free|
    ensures IsChunk(v.mem, v.free[i]) && v.mem[v.free[i]].next == At(v.free, i + 1)
  {
    assert LinkAt(v.mem, v.free, i);
  }

  /** One round of defragmentation; the result is the list position where the scan goes on. */
  lemma ScanStep(v: View, u: View, w: View, c: int, i: int, j: int) returns (next: int)
    requires Good(v) && c != NULL && i > 0 && Scanned(v, u, c, i, j)
    requires Absorbed(u, w, c) && Closed(w, c)
    ensures IsChunk(w.mem, c) && Scanned(v, w, w.mem[c].next, i - 1, next)
  {
    hide Tiled, FreeExact, Linked;
    ListFacts(u);
    AbsorbedFree(u, w, c);
    MergedTrans(v, u, w, NULL);
    var at := RestrictPosition(u.free, w.chunks, j);
    next := at + 1;
    ListFacts(w);
    NextInList(w, at);
    hide Merged, Restrict;
    ClosedPrefix(u, w, c, u.free[..j], at);
  }
}
