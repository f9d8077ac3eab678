/** The allocator seen by its clients: a finite map from pointers to the bytes of live objects. */
module HeapObjects {
  import opened Sequences
  import opened HeapLayout
  import opened HeapSteps
  import opened HeapMerge
  import opened HeapSplit

  ghost function Pointers(v: View): set<int>
    requires Good(v)
  {
    set o | o in Live(v) :: o + HDR
  }

  lemma PointerOf(v: View, p: int)
    requires Good(v)
    ensures p in Pointers(v) <==> p - HDR in Live(v)
  {
    if p - HDR in Live(v) {
      var o := p - HDR;
      assert o + HDR == p;
    }
  }

  ghost function Objects(v: View): map<int, seq<Cell>>
    requires Good(v)
  {
    map p | p in Pointers(v) :: PointerOf(v, p); Payload(v.mem, p - HDR)
  }

  lemma ObjectOf(v: View, p: int)
    requires Good(v)
    ensures p in Objects(v) <==> p - HDR in Live(v)
    ensures p in Objects(v) ==> Objects(v)[p] == Payload(v.mem, p - HDR) && |Objects(v)[p]| == v.mem[p - HDR].size
  {
    PointerOf(v, p);
  }

  lemma NullIsNoObject(v: View)
    requires Good(v)
    ensures NULL !in Objects(v) && 0 <= v.usage <= |v.mem|
  {
    ObjectOf(v, NULL);
  }

  /** Live objects are aligned, lie inside the footprint, and pairwise share no byte. */
  lemma ObjectsDisjoint(v: View, p: int, q: int)
    requires Good(v) && p in Objects(v) && q in Objects(v) && p < q
    ensures Aligned(p) && Aligned(q) && 0 < p
    ensures p + |Objects(v)[p]| <= q - HDR
    ensures q + |Objects(v)[q]| <= v.usage <= |v.mem|
  {
    hide Objects, Linked, FreeExact;
    ObjectOf(v, p);
    ObjectOf(v, q);
    assert AlignedChunk(v.mem, p - HDR) && AlignedChunk(v.mem, q - HDR);
    AlignedSum(p - HDR, HDR);
    AlignedSum(q - HDR, HDR);
  }

  lemma KeepsObjects(v: View, w: View, c: int)
    requires Good(v) && Good(w) && KeepsOthers(v, w, c)
    ensures Objects(w) - {c + HDR} == Objects(v) - {c + HDR}
  {
    hide Objects, Tiled, FreeExact, Linked;
    var a, b := Objects(v) - {c + HDR}, Objects(w) - {c + HDR};
    forall p ensures (p in a <==> p in b) && (p in a && p in b ==> a[p] == b[p]) {
      ObjectOf(v, p);
      ObjectOf(w, p);
      if p != c + HDR {
        assert p - HDR in Live(v) - {c} <==> p - HDR in Live(v);
        assert p - HDR in Live(w) - {c} <==> p - HDR in Live(w);
      }
    }
    assert a.Keys == b.Keys;
  }

  // ---- Best fit ----

  /** The free-list entries that a bounded search looks at. */
  function Window(f: seq<int>): seq<int> {
    if |f| <= SEARCH_MAX then f else f[..SEARCH_MAX]
  }

  /** No entry of `seen` can hold `size` bytes. */
  predicate NoFit(m: seq<Cell>, seen: seq<int>, size: nat)
    requires AllChunks(m, seen)
  {
    forall o | o in seen :: m[o].size < size
  }

  predicate Beats(m: seq<Cell>, size: nat, o: int, b: int) {
    IsChunk(m, o) && IsChunk(m, b) && size <= m[o].size <= m[b].size
  }

  predicate FirstAt(m: seq<Cell>, seen: seq<int>, size: nat, b: int, k: int) {
    0 <= k < |seen| && seen[k] == b && forall o | o in seen[..k] :: !Beats(m, size, o, b)
  }

  /** Entry b is the first of the smallest entries of `seen` that can hold `size` bytes. */
  ghost predicate BestFit(m: seq<Cell>, seen: seq<int>, size: nat, b: int)
    requires AllChunks(m, seen)
  {
    && b in seen && size <= m[b].size
    && (forall o | o in seen && size <= m[o].size :: m[b].size <= m[o].size)
    && exists k :: FirstAt(m, seen, size, b, k)
  }

  /** Outcome of the search over a prefix of the list: NULL, or the best fit of the prefix. */
  ghost predicate Best(m: seq<Cell>, seen: seq<int>, size: nat, b: int)
    requires AllChunks(m, seen)
  {
    if b == NULL then NoFit(m, seen, size) else BestFit(m, seen, size, b)
  }

  lemma BestSkip(m: seq<Cell>, f: seq<int>, j: int, size: nat, b: int)
    requires AllChunks(m, f) && 0 <= j < |f| && Best(m, f[..j], size, b) && IsChunk(m, f[j])
    requires size <= m[f[j]].size ==> b != NULL && m[b].size <= m[f[j]].size
    ensures Best(m, f[..j + 1], size, b)
  {
    var s, t := f[..j], f[..j + 1];
    assert t == s + [f[j]];
    if b != NULL {
      var k :| FirstAt(m, s, size, b, k);
      assert t[..k] == s[..k];
      assert FirstAt(m, t, size, b, k);
    }
  }

  lemma BestTake(m: seq<Cell>, f: seq<int>, j: int, size: nat, b: int)
    requires AllChunks(m, f) && 0 <= j < |f| && Best(m, f[..j], size, b) && IsChunk(m, f[j])
    requires size <= m[f[j]].size && (b != NULL ==> m[f[j]].size < m[b].size)
    ensures BestFit(m, f[..j + 1], size, f[j])
  {
    var s, t := f[..j], f[..j + 1];
    assert t == s + [f[j]];
    assert t[..j] == s;
    assert FirstAt(m, t, size, f[j], j);
  }

  /** A perfect fit ends the search early: later entries cannot do better. */
  lemma BestPerfect(m: seq<Cell>, f: seq<int>, j: int, size: nat, b: int)
    requires AllChunks(m, f) && 0 <= j <= |f| && BestFit(m, f[..j], size, b) && m[b].size == size
    ensures BestFit(m, f, size, b)
  {
    var k :| FirstAt(m, f[..j], size, b, k);
    assert f[..j][..k] == f[..k];
    assert FirstAt(m, f, size, b, k);
  }

  /** Where a search of d for `size` bytes stands: at `chunk`, list position j, with i visits left. */
  ghost predicate Searching(d: View, size: nat, best: int, chunk: int, i: int, j: int) {
    && Good(d)
    && 0 <= i <= SEARCH_MAX && j == SEARCH_MAX - i && j <= |d.free|
    && chunk == At(d.free, j) && (chunk != NULL ==> IsChunk(d.mem, chunk) && chunk in d.free)
    && (best != NULL ==> best in d.free && IsChunk(d.mem, best))
    && AllChunks(d.mem, d.free) && Best(d.mem, d.free[..j], size, best)
  }

  lemma SearchFacts(d: View, size: nat, best: int, chunk: int, i: int, j: int)
    requires Searching(d, size, best, chunk, i, j)
    ensures Good(d) && 0 <= i && 0 <= j
    ensures chunk != NULL ==> IsChunk(d.mem, chunk)
    ensures best != NULL ==> IsChunk(d.mem, best)
  { }

  lemma SearchStart(d: View, size: nat)
    requires Good(d)
    ensures Searching(d, size, NULL, d.head, SEARCH_MAX, 0)
  {
    ListFacts(d);
  }

  /** One entry looked at. */
  lemma SearchStep(d: View, size: nat, best: int, best': int, chunk: int, i: int, j: int)
    requires chunk != NULL && i > 0 && Searching(d, size, best, chunk, i, j)
    requires best' == if size <= d.mem[chunk].size && (best == NULL || d.mem[chunk].size < d.mem[best].size) then chunk else best
    ensures Searching(d, size, best', d.mem[chunk].next, i - 1, j + 1)
  {
    ListFacts(d);
    assert LinkAt(d.mem, d.free, j);
    hide Tiled, FreeExact, Linked, BestFit;
    if best' == chunk && best != chunk {
      BestTake(d.mem, d.free, j, size, best);
    } else {
      BestSkip(d.mem, d.free, j, size, best);
    }
  }

  /** The search ends at the end of the list, when its visits are used up, or on a perfect fit. */
  lemma SearchEnd(d: View, size: nat, best: int, chunk: int, i: int, j: int)
    requires Searching(d, size, best, chunk, i, j)
    requires chunk == NULL || i == 0 || (best != NULL && d.mem[best].size == size)
    ensures AllChunks(d.mem, Window(d.free)) && Best(d.mem, Window(d.free), size, best)
    ensures Linked(d.mem, d.head, d.free) && (best != NULL ==> best in d.free && IsChunk(d.mem, best) && size <= d.mem[best].size)
  {
    ListFacts(d);
    var seen, window := d.free[..j], Window(d.free);
    forall o | o in window ensures o in d.free { }
    assert window[..j] == seen;
    if j == |window| {
      assert window[..j] == window;
    } else {
      BestPerfect(d.mem, window, j, size, best);
    }
  }

  // ---- Handing a chunk out ----

  /** From d to w exactly one object c has come alive, large enough and with at most one header to spare. */
  ghost predicate Given(d: View, w: View, c: int, size: nat)
    requires Good(d)
  {
    && Good(w) && c in Live(w) && c !in Live(d)
    && KeepsOthers(d, w, c)
    && size <= w.mem[c].size <= size + HDR
  }

  lemma TakenGood(d: View, w: View, c: int, k: int)
    requires Good(d) && 0 <= k < |d.free| && d.free[k] == c && Unlinked(d.mem, w.mem, d.free, k)
    requires w.usage == d.usage && w.chunks == d.chunks && w.free == Without(d.free, k) && Linked(w.mem, w.head, w.free)
    ensures Good(w) && c in Live(w) && c !in Live(d) && KeepsOthers(d, w, c) && w.mem[c].size == d.mem[c].size
    ensures c in w.chunks && w.mem[c].inUse
  {
    ListFacts(d);
    forall o | o in d.chunks ensures IsChunk(w.mem, o) && w.mem[o].size == d.mem[o].size && w.mem[o].inUse == (o == c || d.mem[o].inUse) {
      UnlinkHeaders(d.mem, w.mem, d.free, k, o);
    }
    TiledBySizes(d.mem, w.mem, d.usage, d.chunks);
    forall o ensures o in w.free <==> o in d.free && o != c { WithoutMembers(d.free, k, o); }
    assert Good(w);
    hide Linked, FreeExact, Unlinked;
    forall o | o in Live(d) ensures Payload(w.mem, o) == Payload(d.mem, o) { PayloadFrame(d.mem, w.mem, d.usage, d.chunks, o); }
  }

  /** Splitting what was taken off the list completes the hand-out. */
  lemma TakenSplit(d: View, u: View, w: View, c: int, size: nat)
    requires Good(d) && Good(u) && c in Live(u) && c !in Live(d) && KeepsOthers(d, u, c)
    requires Aligned(size) && size <= u.mem[c].size && SplitOff(u, w, c, size)
    ensures Given(d, w, c, size)
  {
    KeepsOthersTrans(d, u, w, c);
  }

  /** Growing the footprint by one chunk of `size` bytes. */
  lemma ExtendedGood(d: View, w: View, c: int, size: nat)
    requires Good(d) && Aligned(size) && c == d.usage && c + HDR + size <= |d.mem|
    requires FormedAt(d, w.mem, c) && w.mem[c].size == size && w.mem[c].inUse
    requires w.usage == c + HDR + size && w.chunks == d.chunks + {c} && w.free == d.free && w.head == d.head
    ensures Given(d, w, c, size)
  {
    ExtendedIsGood(d, w, c, size);
    hide Linked, Aligned;
    forall o | o in Live(d) ensures Payload(w.mem, o) == Payload(d.mem, o) {
      assert End(d.mem, o) <= c;
    }
  }

  lemma ExtendedIsGood(d: View, w: View, c: int, size: nat)
    requires Good(d) && Aligned(size) && c == d.usage && c + HDR + size <= |d.mem|
    requires FormedAt(d, w.mem, c) && w.mem[c].size == size && w.mem[c].inUse
    requires w.usage == c + HDR + size && w.chunks == d.chunks + {c} && w.free == d.free && w.head == d.head
    ensures Good(w) && Live(w) == Live(d) + {c} && c !in d.chunks
  {
    hide Aligned, EndsWell, AlignedChunk;
    ListFacts(d);
    forall o | o in d.chunks ensures w.mem[o] == d.mem[o] { }
    ExtendTile(d.mem, w.mem, d.usage, d.chunks, size);
    LinkedBySame(d.mem, w.mem, d.head, d.free);
    hide Linked, Tiled;
    assert Good(w);
  }
}
