/** The walk of heapmem_stats over the tiling, and what it adds up. */
module HeapStats {
  import opened Sequences
  import opened HeapLayout
  import opened HeapSteps
  import opened HeapMerge
  import opened HeapObjects
  import opened Powers

  /** Bytes in the payloads of the used chunks that start below x. */
  ghost function UsedBelow(m: seq<Cell>, chunks: set<int>, x: int): nat
    decreases x
  {
    if x <= 0 then 0
    else UsedBelow(m, chunks, x - 1) + if x - 1 in chunks && IsChunk(m, x - 1) && m[x - 1].inUse then m[x - 1].size else 0
  }

  /** Bytes in the headers of the chunks that start below x. */
  ghost function HeadersBelow(chunks: set<int>, x: int): nat
    decreases x
  {
    if x <= 0 then 0 else HeadersBelow(chunks, x - 1) + if x - 1 in chunks then HDR else 0
  }

  lemma {:induction false} NothingBetween(m: seq<Cell>, chunks: set<int>, a: int, b: int)
    requires 0 <= a <= b && forall o | o in chunks :: !(a <= o < b)
    ensures UsedBelow(m, chunks, b) == UsedBelow(m, chunks, a) && HeadersBelow(chunks, b) == HeadersBelow(chunks, a)
    decreases b
  {
    if a < b { NothingBetween(m, chunks, a, b - 1); }
  }

  lemma {:induction false} SameBelow(m: seq<Cell>, m': seq<Cell>, chunks: set<int>, chunks': set<int>, x: int)
    requires forall o | 0 <= o < x :: o in chunks <==> o in chunks'
    ensures HeadersBelow(chunks', x) == HeadersBelow(chunks, x)
    ensures (forall o | 0 <= o < x && o in chunks :: IsChunk(m, o) && IsChunk(m', o) && m'[o].inUse == m[o].inUse && m'[o].size == m[o].size)
      ==> UsedBelow(m', chunks', x) == UsedBelow(m, chunks, x)
    decreases x
  {
    if x > 0 { SameBelow(m, m', chunks, chunks', x - 1); }
  }

  lemma {:induction false} CountAll(chunks: set<int>, x: int)
    requires forall o | o in chunks :: 0 <= o < x
    ensures HeadersBelow(chunks, x) == |chunks| * HDR
    decreases x
  {
    if x <= 0 {
      assert forall o | o in chunks :: false;
      assert chunks == {};
    } else {
      var rest := chunks - {x - 1};
      CountAll(rest, x - 1);
      SameBelow([], [], rest, chunks, x - 1);
      assert x - 1 !in chunks ==> rest == chunks;
      assert x - 1 in chunks ==> chunks == rest + {x - 1};
      Distribute(|rest|, 1, HDR);
    }
  }

  /** The walk has reached `cur`: what lies below is summed up, and its free chunks are closed. */
  ghost predicate Tallied(v: View, w: View, cur: int, used: nat, overhead: nat, available: nat)
    requires Good(v)
  {
    && Good(w) && Merged(v, w, NULL)
    && 0 <= cur <= w.usage && (cur < w.usage ==> cur in w.chunks && IsChunk(w.mem, cur))
    && used == UsedBelow(w.mem, w.chunks, cur)
    && overhead == HeadersBelow(w.chunks, cur)
    && used + overhead + available == cur
    && forall o | o in w.free && o < cur :: IsChunk(w.mem, o) && Closed(w, o)
  }

  lemma TallyStart(v: View)
    requires Good(v)
    ensures Tallied(v, v, 0, 0, 0, 0)
  {
    MergedRefl(v, NULL);
    if v.usage > 0 { ChunkFacts(v, 0); }
    forall o | o in v.free ensures o >= 0 { assert o in v.chunks; }
  }

  /** Merging free chunks into the free chunk `cur` disturbs nothing below it. */
  lemma TallyMerge(v: View, u: View, w: View, cur: int, used: nat, overhead: nat, available: nat)
    requires Good(v) && Tallied(v, u, cur, used, overhead, available) && cur < u.usage
    requires cur in u.free && Absorbed(u, w, cur)
    ensures Tallied(v, w, cur, used, overhead, available) && !w.mem[cur].inUse
  {
    AbsorbedFree(u, w, cur);
    MergedTrans(v, u, w, NULL);
    SameBelow(u.mem, w.mem, u.chunks, w.chunks, cur);
    ChunkFacts(w, cur);
    forall o | o in w.free && o < cur ensures IsChunk(w.mem, o) && Closed(w, o) {
      RestrictMembers(u.free, w.chunks, o);
      ChunkFacts(w, o);
      ClosedStays(u, w, cur, o);
    }
  }

  lemma StepBelow(m: seq<Cell>, chunks: set<int>, cur: int, e: int)
    requires 0 <= cur < e && cur in chunks && IsChunk(m, cur) && forall o | o in chunks :: !(cur < o < e)
    ensures UsedBelow(m, chunks, e) == UsedBelow(m, chunks, cur) + if m[cur].inUse then m[cur].size else 0
    ensures HeadersBelow(chunks, e) == HeadersBelow(chunks, cur) + HDR
  {
    NothingBetween(m, chunks, cur + 1, e);
  }

  lemma TallyNext(v: View, w: View, cur: int, size: nat, used: nat, overhead: nat, available: nat)
    requires Good(v) && Tallied(v, w, cur, used, overhead, available) && cur < w.usage
    requires w.mem[cur].inUse || Closed(w, cur)
    requires size == w.mem[cur].size
    ensures w.mem[cur].inUse ==> Tallied(v, w, cur + HDR + size, used + size, overhead + HDR, available)
    ensures !w.mem[cur].inUse ==> Tallied(v, w, cur + HDR + size, used, overhead + HDR, available + size)
  {
    hide Good, Aligned, Merged, UsedBelow, HeadersBelow;
    ChunkFacts(w, cur);
    var e := End(w.mem, cur);
    NoneInside(w, cur);
    StepBelow(w.mem, w.chunks, cur, e);
    forall o | o in w.free && o < e ensures IsChunk(w.mem, o) && Closed(w, o) { ChunkFacts(w, o); }
  }

  /** No chunk starts inside another, and what follows a chunk is a chunk. */
  lemma NoneInside(w: View, c: int)
    requires Good(w) && c in w.chunks && IsChunk(w.mem, c)
    ensures forall o | o in w.chunks :: !(c < o < End(w.mem, c))
    ensures forall o | o in w.free :: o in w.chunks
    ensures End(w.mem, c) < w.usage ==> End(w.mem, c) in w.chunks && IsChunk(w.mem, End(w.mem, c))
  {
    ChunkFacts(w, c);
    hide Linked, Aligned;
  }

  lemma TallyFacts(v: View, w: View, cur: int, used: nat, overhead: nat, available: nat)
    requires Good(v) && Tallied(v, w, cur, used, overhead, available)
    ensures Good(w) && cur <= w.usage <= |w.mem| && Merged(v, w, NULL)
    ensures cur < w.usage ==> cur in w.chunks && IsChunk(w.mem, cur) && (cur in w.free <==> !w.mem[cur].inUse)
  { }

  lemma TallyEnd(v: View, w: View, cur: int, used: nat, overhead: nat, available: nat)
    requires Good(v) && Tallied(v, w, cur, used, overhead, available) && cur >= w.usage
    ensures used + overhead + available == w.usage && used == UsedBelow(w.mem, w.chunks, w.usage)
    ensures overhead == |w.chunks| * HDR && overhead / HDR == |w.chunks|
    ensures AllClosed(w, w.free)
  {
    forall o | o in w.chunks ensures 0 <= o < w.usage { ChunkFacts(w, o); }
    CountAll(w.chunks, w.usage);
    Quotient(|w.chunks| * HDR, HDR, |w.chunks|, 0);
    forall o | o in w.free ensures IsChunk(w.mem, o) && Closed(w, o) { assert o in w.chunks; }
  }

  /** Bytes of the objects whose pointers lie below x. */
  ghost function BytesBelow(store: map<int, seq<Cell>>, x: int): nat
    decreases x
  {
    if x <= 0 then 0 else BytesBelow(store, x - 1) + if x - 1 in store then |store[x - 1]| else 0
  }

  lemma {:induction false} NoneBelow(store: map<int, seq<Cell>>, x: int)
    requires forall p | p in store :: p >= x
    ensures BytesBelow(store, x) == 0
    decreases x
  {
    if x > 0 { NoneBelow(store, x - 1); }
  }

  /** The bytes in use are those of the live objects. */
  lemma {:induction false} UsedIsStored(v: View, x: nat)
    requires Good(v)
    ensures UsedBelow(v.mem, v.chunks, x) == BytesBelow(Objects(v), x + HDR)
    decreases x
  {
    hide Objects, Linked, FreeExact, Tiled;
    if x == 0 {
      forall p | p in Objects(v) ensures p >= HDR {
        ObjectOf(v, p);
        Starts(v, p - HDR);
      }
      NoneBelow(Objects(v), HDR);
    } else {
      UsedIsStored(v, x - 1);
      ObjectOf(v, x - 1 + HDR);
      if x - 1 in v.chunks { Starts(v, x - 1); }
    }
  }

  lemma Starts(v: View, o: int)
    requires Good(v) && o in v.chunks
    ensures o >= 0 && IsChunk(v.mem, o)
  { }
}
