/** Steps on single objects, stated on the map of live objects. */
module HeapClient {
  import opened Sequences
  import opened HeapLayout
  import opened HeapSteps
  import opened HeapMerge
  import opened HeapSplit
  import opened HeapObjects
  import opened HeapRoom

  lemma MergedObjects(v: View, w: View)
    requires Good(v) && Good(w) && Merged(v, w, NULL)
    ensures Objects(w) == Objects(v) && w.usage == v.usage && |w.mem| == |v.mem|
  {
    hide Objects, Linked, FreeExact, KeepsOthers;
    MergedKeeps(v, w, NULL);
    KeepsObjects(v, w, NULL);
    ObjectOf(v, NULL + HDR);
    ObjectOf(w, NULL + HDR);
    hide Tiled, Merged, Good;
    var p := NULL + HDR;
    assert p !in Objects(v) && p !in Objects(w);
    assert Objects(w) - {p} == Objects(w);
    assert Objects(v) - {p} == Objects(v);
  }

  /** What heapmem_alloc promises: v before, d after defragmentation, w after, p the pointer returned. */
  ghost predicate AllocResult(v: View, d: View, w: View, p: int, size: nat)
    requires Good(v)
  {
    && Defragged(v, d) && Good(w) && |w.mem| == |d.mem| == |v.mem|
    && Objects(d) == Objects(v) && d.usage == v.usage
    && AllChunks(d.mem, Window(d.free))
    && if p == NULL then
         w == d && OutOfSpace(d, size, |d.mem|)
       else
         && p !in Objects(v) && p in Objects(w) && Objects(w) - {p} == Objects(v)
         && size <= |Objects(w)[p]| <= size + HDR
         && ((BestFit(d.mem, Window(d.free), size, p - HDR) && IsChunk(d.mem, p - HDR) && CutTo(d, w, p - HDR, d.mem[p - HDR].size, size))
             || (NoFit(d.mem, Window(d.free), size) && p - HDR == d.usage && w.usage == p + size))
  }

  /** Neither a free chunk in reach of the search nor the unused space can hold `size` bytes. */
  ghost predicate OutOfSpace(d: View, size: nat, arena: nat) {
    AllChunks(d.mem, Window(d.free)) && NoFit(d.mem, Window(d.free), size) && d.usage + HDR + size > arena
  }

  lemma GivenObjects(d: View, w: View, c: int, size: nat)
    requires Good(d) && Given(d, w, c, size)
    ensures c + HDR !in Objects(d) && c + HDR in Objects(w) && Objects(w) - {c + HDR} == Objects(d)
    ensures size <= |Objects(w)[c + HDR]| <= size + HDR
  {
    hide Objects;
    KeepsObjects(d, w, c);
    ObjectOf(d, c + HDR);
    ObjectOf(w, c + HDR);
    assert Objects(d) - {c + HDR} == Objects(d);
  }

  // ---- heapmem_free ----

  /** The snapshot after free_chunk(c). */
  ghost predicate Freed(v: View, w: View, c: int)
    requires Good(v) && c in v.chunks && (v.head == NULL || v.head in v.free) && c !in v.free
  {
    && (v.head == NULL || (IsChunk(v.mem, v.head) && v.head != c))
    && FreedAt(v, v.mem, w.mem, w, c)
    && Linked(w.mem, w.head, w.free)
    && w.chunks == if End(v.mem, c) == v.usage then v.chunks - {c} else v.chunks
  }

  lemma FreedHeaders(v: View, w: View, c: int)
    requires Good(v) && c in v.chunks && (v.head == NULL || v.head in v.free) && c !in v.free && Freed(v, w, c)
    ensures SameSizes(v.mem, w.mem, v.chunks) && SameOutside(v.mem, w.mem, v.chunks)
    ensures SameFlags(v.mem, w.mem, v.chunks - {c}) && !w.mem[c].inUse
  {
    hide Linked, Aligned;
  }

  lemma FreedGood(v: View, w: View, c: int)
    requires Good(v) && c in Live(v) && (v.head == NULL || v.head in v.free) && c !in v.free && Freed(v, w, c)
    ensures Good(w) && Live(w) == Live(v) - {c} && KeepsOthers(v, w, c)
  {
    hide Linked, Aligned;
    FreedHeaders(v, w, c);
    TiledBySizes(v.mem, w.mem, v.usage, v.chunks);
    if End(v.mem, c) == v.usage {
      ReleaseLast(w.mem, v.usage, v.chunks, c);
    }
    assert FreeExact(w.mem, w.chunks, w.free);
    hide FreeExact;
    forall o | o in Live(v) ensures Payload(w.mem, o) == Payload(v.mem, o) { PayloadFrame(v.mem, w.mem, v.usage, v.chunks, o); }
  }

  lemma FreedObjects(v: View, w: View, c: int)
    requires Good(v) && Good(w) && Live(w) == Live(v) - {c} && KeepsOthers(v, w, c)
    ensures Objects(w) == Objects(v) - {c + HDR}
  {
    hide Objects;
    KeepsObjects(v, w, c);
    ObjectOf(w, c + HDR);
    assert Objects(w) - {c + HDR} == Objects(w);
  }

  // ---- Writing bytes of one object ----

  ghost predicate OnlyInside(m: seq<Cell>, m': seq<Cell>, c: int)
    requires IsChunk(m, c) && End(m, c) <= |m|
  {
    |m'| == |m| && forall i | 0 <= i < |m| && !(c + HDR <= i < End(m, c)) :: m'[i] == m[i]
  }

  lemma WrittenGood(v: View, w: View, c: int)
    requires Good(v) && c in Live(v) && OnlyInside(v.mem, w.mem, c) && w == v.(mem := w.mem)
    ensures Good(w) && Live(w) == Live(v) && KeepsOthers(v, w, c)
    ensures Objects(w) == Objects(v)[c + HDR := Payload(w.mem, c)]
  {
    hide Objects;
    ListFacts(v);
    forall o | o in v.chunks ensures w.mem[o] == v.mem[o] { if o != c { PayloadSame(v, w, c, o); } }
    TiledBySizes(v.mem, w.mem, v.usage, v.chunks);
    LinkedBySame(v.mem, w.mem, v.head, v.free);
    assert Good(w);
    hide Linked, FreeExact, Aligned, Tiled;
    forall o | o in Live(v) && o != c ensures Payload(w.mem, o) == Payload(v.mem, o) { PayloadSame(v, w, c, o); }
    WrittenObjects(v, w, c);
  }

  lemma UpdatedMap(a: map<int, seq<Cell>>, b: map<int, seq<Cell>>, p: int, bytes: seq<Cell>)
    requires a - {p} == b - {p} && p in a && a[p] == bytes
    ensures a == b[p := bytes]
  {
    forall q ensures q in a <==> q in b[p := bytes] {
      assert q != p ==> (q in a <==> q in a - {p}) && (q in b <==> q in b - {p});
    }
    forall q | q in a ensures a[q] == b[p := bytes][q] {
      if q != p { assert q in a - {p} && (a - {p})[q] == (b - {p})[q]; }
    }
  }

  lemma WrittenObjects(v: View, w: View, c: int)
    requires Good(v) && Good(w) && Live(w) == Live(v) && KeepsOthers(v, w, c) && c in Live(v)
    ensures Objects(w) == Objects(v)[c + HDR := Payload(w.mem, c)]
  {
    hide Objects;
    KeepsObjects(v, w, c);
    ObjectOf(w, c + HDR);
    UpdatedMap(Objects(w), Objects(v), c + HDR, Payload(w.mem, c));
  }

  // ---- heapmem_realloc ----

  /**
   * What heapmem_realloc promises for p != NULL and an aligned size > 0, q being the pointer returned:
   * other objects are untouched, and the object keeps its bytes, up to `size` of them if it was moved or cut.
   */
  ghost predicate Resized(a: map<int, seq<Cell>>, b: map<int, seq<Cell>>, p: int, q: int, size: nat)
    requires p in a
  {
    if q == NULL then
      p in b && a[p] <= b[p] && b - {p} == a - {p}
    else
      && (q == p || q !in a)
      && q in b && size <= |b[q]| <= size + HDR
      && b - {q} == a - {p}
      && var kept := if size < |a[p]| then size else |a[p]|;
         b[q][..kept] == a[p][..kept]
  }

  /** One object changed in place, the others kept. */
  lemma SameOthers(v: View, w: View, c: int)
    requires Good(v) && Good(w) && c in Live(v) && c in Live(w) && KeepsOthers(v, w, c)
    ensures c + HDR in Objects(v) && c + HDR in Objects(w) && Objects(w) - {c + HDR} == Objects(v) - {c + HDR}
    ensures Objects(v)[c + HDR] == Payload(v.mem, c) && Objects(w)[c + HDR] == Payload(w.mem, c)
  {
    hide Objects;
    KeepsObjects(v, w, c);
    ObjectOf(v, c + HDR);
    ObjectOf(w, c + HDR);
  }

  lemma SplitObjects(v: View, u: View, w: View, c: int, size: nat)
    requires Good(v) && Good(u) && c in Live(v) && c in Live(u) && KeepsOthers(v, u, c)
    requires Payload(v.mem, c) <= Payload(u.mem, c) && size <= u.mem[c].size && SplitOff(u, w, c, size)
    ensures Good(w) && c + HDR in Objects(v) && Resized(Objects(v), Objects(w), c + HDR, c + HDR, size)
  {
    hide Tiled, FreeExact, Linked, Aligned, KeepsOthers, Objects;
    KeepsOthersTrans(v, u, w, c);
    SameOthers(v, w, c);
    ChunkFacts(v, c);
    ChunkFacts(u, c);
    ChunkFacts(w, c);
    assert Payload(v.mem, c) == Payload(u.mem, c)[..v.mem[c].size];
  }

  lemma GrownTiled(v: View, w: View, c: int, size: nat)
    requires Good(v) && c in Live(v) && End(v.mem, c) == v.usage && Aligned(size)
    requires v.mem[c].size < size && c + HDR + size <= |v.mem|
    requires w == v.(usage := c + HDR + size, mem := v.mem[c := v.mem[c].(size := size)])
    ensures Tiled(w.mem, w.usage, w.chunks)
  {
    hide Linked, FreeExact, Aligned;
    forall o | o in v.chunks ensures o <= c && (o < c ==> End(v.mem, o) <= c) {
      assert !(o > c);
    }
    forall o | o in w.chunks ensures EndsWell(w.mem, w.usage, w.chunks, o) && AlignedChunk(w.mem, o) {
      assert EndsWell(v.mem, v.usage, v.chunks, o) && AlignedChunk(v.mem, o);
    }
  }

  lemma GrownGood(v: View, w: View, c: int, size: nat)
    requires Good(v) && c in Live(v) && End(v.mem, c) == v.usage && Aligned(size)
    requires v.mem[c].size < size && c + HDR + size <= |v.mem|
    requires w == v.(usage := c + HDR + size, mem := v.mem[c := v.mem[c].(size := size)])
    ensures Good(w) && Live(w) == Live(v)
  {
    hide Aligned;
    ListFacts(v);
    assert c !in v.free;
    LinkedBySame(v.mem, w.mem, v.head, v.free);
    GrownTiled(v, w, c, size);
    hide Linked, Tiled;
    assert Good(w);
  }

  lemma GrownKeeps(v: View, w: View, c: int, size: nat)
    requires Good(v) && Good(w) && c in Live(v) && Live(w) == Live(v) && End(v.mem, c) <= End(w.mem, c)
    requires w.mem == v.mem[c := w.mem[c]]
    ensures KeepsOthers(v, w, c) && Payload(v.mem, c) <= Payload(w.mem, c)
  {
    assert Payload(v.mem, c) <= Payload(w.mem, c);
    hide Linked, Aligned, Payload;
    forall o | o in Live(v) && o != c ensures Payload(w.mem, o) == Payload(v.mem, o) { PayloadSame(v, w, c, o); }
  }

  /** The payload of another chunk does not change when only bytes of c are written. */
  lemma PayloadSame(v: View, w: View, c: int, o: int)
    requires Good(v) && c in v.chunks && o in v.chunks && o != c
    requires |w.mem| == |v.mem| && forall i | 0 <= i < |v.mem| && !(c <= i < End(v.mem, c)) :: w.mem[i] == v.mem[i]
    ensures IsChunk(w.mem, o) && w.mem[o] == v.mem[o] && Payload(w.mem, o) == Payload(v.mem, o)
  {
    hide Linked, FreeExact, Aligned, EndsWell;
    assert o < c ==> End(v.mem, o) <= c;
    assert o > c ==> End(v.mem, c) <= o;
    assert w.mem[o] == v.mem[o];
  }

  lemma GrownObjects(v: View, w: View, c: int, size: nat)
    requires Good(v) && Good(w) && c in Live(v) && c in Live(w) && KeepsOthers(v, w, c)
    requires Payload(v.mem, c) <= Payload(w.mem, c) && w.mem[c].size == size
    ensures c + HDR in Objects(v) && Resized(Objects(v), Objects(w), c + HDR, c + HDR, size)
  {
    hide Objects;
    SameOthers(v, w, c);
  }

  /** Growing in place has failed: c may have absorbed its free neighbours, and nothing else has happened. */
  lemma NotGrown(v: View, u: View, c: int, size: nat)
    requires Good(v) && Good(u) && c in Live(v) && c in Live(u) && KeepsOthers(v, u, c)
    requires Payload(v.mem, c) <= Payload(u.mem, c)
    ensures c + HDR in Objects(v) && Resized(Objects(v), Objects(u), c + HDR, NULL, size)
  {
    hide Objects;
    SameOthers(v, u, c);
  }

  /** The object p of `b` has become the object q of `z`, with all its bytes and room for `size`. */
  ghost predicate Relocated(b: map<int, seq<Cell>>, z: map<int, seq<Cell>>, p: int, q: int, size: nat) {
    && p in b && q !in b && q in z
    && z - {q} == b - {p}
    && b[p] <= z[q] && size <= |z[q]| <= size + HDR
  }

  lemma RelocatedMaps(b: map<int, seq<Cell>>, w: map<int, seq<Cell>>, z: map<int, seq<Cell>>, p: int, q: int, size: nat)
    requires p in b && q !in b && q in w && w - {q} == b && |b[p]| <= |w[q]| && size <= |w[q]| <= size + HDR
    requires z == w[q := b[p] + w[q][|b[p]|..]] - {p}
    ensures Relocated(b, z, p, q, size)
  {
    assert z - {q} == (w - {q}) - {p};
  }

  /** Growing p in place fell short, and then p moved to q. */
  lemma GrownThenMoved(a: map<int, seq<Cell>>, b: map<int, seq<Cell>>, z: map<int, seq<Cell>>, p: int, q: int, size: nat)
    requires p in a && q != NULL && Resized(a, b, p, NULL, size) && |b[p]| < size && Relocated(b, z, p, q, size)
    ensures Resized(a, z, p, q, size)
  {
    assert q in a && q != p ==> q in a - {p} && q in b - {p};
    assert b[p][..|a[p]|] == a[p];
    assert z[q][..|b[p]|] == b[p];
  }

  function Copied(m: seq<Cell>, dst: int, src: int, len: nat): seq<Cell>
    requires 0 <= dst && dst + len <= |m| && 0 <= src && src + len <= |m|
  {
    m[..dst] + m[src..src + len] + m[dst + len..]
  }

  /** Copying one byte more, between ranges that do not overlap. */
  lemma CopiedMore(m: seq<Cell>, dst: int, src: int, i: nat)
    requires 0 <= dst && dst + i <= |m| && 0 <= src && src + i <= |m|
    ensures i == 0 ==> Copied(m, dst, src, i) == m
    ensures dst + i < |m| && src + i < |m| && (dst + i < src || src + i < dst) ==>
      && Copied(m, dst, src, i)[src + i] == m[src + i]
      && Copied(m, dst, src, i + 1) == Copied(m, dst, src, i)[dst + i := m[src + i]]
  { }

  lemma AlignTwice(n: nat)
    ensures AlignUp(AlignUp(n)) == AlignUp(n) && n <= AlignUp(n)
  { }

  /** The old object survives the allocation of the new one. */
  lemma BothAlive(u: View, w: View, c: int, q: int)
    requires Good(u) && c in Live(u)
    requires Good(w) && q !in Objects(u) && q in Objects(w) && Objects(w) - {q} == Objects(u)
    ensures c in Live(w) && q - HDR in Live(w) && q - HDR != c && w.mem[c].size == u.mem[c].size
    ensures Payload(w.mem, c) == Payload(u.mem, c) == Objects(u)[c + HDR]
    ensures IsChunk(w.mem, c) && IsChunk(w.mem, q - HDR) && w.mem[q - HDR].size == |Objects(w)[q]|
  {
    hide Objects, Linked, FreeExact;
    ObjectOf(u, c + HDR);
    ObjectOf(w, c + HDR);
    ObjectOf(w, q);
    assert c + HDR in Objects(w) - {q} && (Objects(w) - {q})[c + HDR] == Objects(u)[c + HDR];
  }

  /** All that a relocation needs to know about the allocation of its new place. */
  lemma NewPlace(u: View, d: View, w: View, c: int, q: int, size: nat)
    requires Good(u) && c in Live(u) && u.mem[c].size < size && AllocResult(u, d, w, q, size)
    ensures q == NULL ==> w == d && Objects(w) == Objects(u) && OutOfSpace(d, size, |u.mem|)
    ensures Good(w) && |w.mem| == |u.mem|
    ensures q != NULL ==>
      && c in Live(w) && q - HDR in Live(w) && q != c + HDR && |Objects(w)[c + HDR]| == w.mem[c].size == u.mem[c].size < w.mem[q - HDR].size
      && q !in Objects(u) && q in Objects(w) && Objects(w) - {q} == Objects(u) && size <= |Objects(w)[q]| <= size + HDR
      && c + HDR in Objects(w) && c + HDR in Objects(u) && Objects(w)[c + HDR] == Objects(u)[c + HDR]
      && |Objects(w)[c + HDR]| <= |Objects(w)[q]|
  {
    hide Objects, OutOfSpace, Tiled, FreeExact, Linked, BestFit, NoFit, AllClosed;
    if q != NULL {
      BothAlive(u, w, c, q);
      ObjectOf(u, c + HDR);
      ObjectOf(w, c + HDR);
    }
  }

  /** Two objects share no byte, so memcpy may copy one to the other. */
  lemma Apart(w: View, c: int, t: int)
    requires Good(w) && c in Live(w) && t in Live(w) && t != c && w.mem[c].size <= w.mem[t].size
    ensures 0 <= c && 0 <= t && t + HDR + w.mem[c].size <= End(w.mem, t) <= |w.mem| && End(w.mem, c) <= |w.mem|
    ensures End(w.mem, t) <= c || End(w.mem, c) <= t
  { }

  lemma CopiedAt(m: seq<Cell>, dst: int, src: int, len: nat, i: int)
    requires 0 <= dst && dst + len <= |m| && 0 <= src && src + len <= |m| && 0 <= i < |m|
    ensures |Copied(m, dst, src, len)| == |m|
    ensures Copied(m, dst, src, len)[i] == if dst <= i < dst + len then m[src + (i - dst)] else m[i]
  { }

  lemma CopiedPayload(w: View, m: seq<Cell>, c: int, t: int)
    requires Good(w) && c in Live(w) && t in Live(w) && t != c && w.mem[c].size <= w.mem[t].size
    requires 0 <= c && 0 <= t && t + HDR + w.mem[c].size <= |w.mem| && End(w.mem, c) <= |w.mem|
    requires m == Copied(w.mem, t + HDR, c + HDR, w.mem[c].size)
    ensures OnlyInside(w.mem, m, t) && IsChunk(m, t) && End(m, t) <= |m|
    ensures Payload(m, t) == Payload(w.mem, c) + Payload(w.mem, t)[w.mem[c].size..]
  {
    Apart(w, c, t);
    hide Good, Live;
    CopiedBytes(w.mem, c, t);
  }

  /** A chunk whose front is overwritten with the bytes of another has these bytes in front of its own. */
  lemma CopiedBytes(m: seq<Cell>, c: int, t: int)
    requires IsChunk(m, c) && IsChunk(m, t) && End(m, c) <= |m| && End(m, t) <= |m| && m[c].size <= m[t].size
    ensures var m' := Copied(m, t + HDR, c + HDR, m[c].size);
      OnlyInside(m, m', t) && m'[t] == m[t] && Payload(m', t) == Payload(m, c) + Payload(m, t)[m[c].size..]
  {
    hide Copied;
    var size := m[c].size;
    var m' := Copied(m, t + HDR, c + HDR, size);
    CopiedAt(m, t + HDR, c + HDR, size, t);
    forall i | 0 <= i < |m| && !(t + HDR <= i < t + HDR + size) ensures m'[i] == m[i] { CopiedAt(m, t + HDR, c + HDR, size, i); }
    var a, b := Payload(m', t), Payload(m, c) + Payload(m, t)[size..];
    forall k | 0 <= k < |a| ensures a[k] == b[k] {
      CopiedAt(m, t + HDR, c + HDR, size, t + HDR + k);
    }
  }

  lemma CopiedObject(w: View, x: View, p: int, q: int)
    requires Good(w) && p in Objects(w) && q in Objects(w) && p != q && |Objects(w)[p]| <= |Objects(w)[q]|
    requires p - HDR in Live(w) && q - HDR in Live(w) && |Objects(w)[p]| == w.mem[p - HDR].size
    requires 0 <= p && 0 <= q && q + |Objects(w)[p]| <= |w.mem| && p + |Objects(w)[p]| <= |w.mem|
    requires x == w.(mem := Copied(w.mem, q, p, |Objects(w)[p]|))
    ensures Good(x) && Live(x) == Live(w)
    ensures Objects(x) == Objects(w)[q := Objects(w)[p] + Objects(w)[q][|Objects(w)[p]|..]]
  {
    hide Good, Objects, Live, Copied, OnlyInside;
    ObjectOf(w, p);
    ObjectOf(w, q);
    Apart(w, p - HDR, q - HDR);
    CopiedPayload(w, x.mem, p - HDR, q - HDR);
    WrittenGood(w, x, q - HDR);
  }

  /** What is left when the object of p could neither grow nor move: no space anywhere, and whether p took in free chunks. */
  ghost predicate ReallocFailed(v: View, w: View, p: int, size: nat)
    requires Good(v) && Good(w) && p - HDR in Live(v)
  {
    && |w.mem| == |v.mem| && OutOfSpace(w, size, |w.mem|)
    && p in Objects(v) && p in Objects(w) && |Objects(w)[p]| < size
    && (|Objects(w)[p]| == |Objects(v)[p]| <==> Closed(v, p - HDR))
  }

  /** What is left when the object of p has been freed. */
  ghost predicate ReallocFreed(v: View, w: View, p: int)
    requires Good(v) && Good(w) && p - HDR in Live(v)
  {
    var c := p - HDR;
    ChunkFacts(v, c);
    && Objects(w) == Objects(v) - {p}
    && if End(v.mem, c) == v.usage then w.usage == c && w.free == v.free else w.usage == v.usage && w.free == [c] + v.free
  }

  /** Where the object of p has come to lie, if q is not NULL. */
  ghost predicate ReallocPlaced(v: View, w: View, p: int, q: int, size: nat)
    requires Good(v) && Good(w) && p - HDR in Live(v)
  {
    && p in Objects(v) && Resized(Objects(v), Objects(w), p, q, size)
    && (q == p <==> Fits(v, p - HDR, size)) && (q == p ==> InPlace(v, w, p - HDR, size))
    && (q == NULL ==> ReallocFailed(v, w, p, size))
  }

  /** What heapmem_realloc promises: v before, w after, d after the defragmentation of an allocation. */
  ghost predicate ReallocResult(v: View, d: View, w: View, p: int, q: int, n: nat)
    requires Good(v)
  {
    && Good(w)
    && if p == NULL then AllocResult(v, d, w, q, AlignUp(n))
       else p - HDR in Live(v) && if n == 0 then q == NULL && ReallocFreed(v, w, p) else ReallocPlaced(v, w, p, q, AlignUp(n))
  }

  /** Coalescing leaves a chunk at its size exactly if it is the last one or is followed by one in use. */
  lemma CoalescedSize(v: View, u: View, c: int)
    requires Good(v) && c in v.chunks && Absorbed(v, u, c) && Closed(u, c)
    ensures u.mem[c].size == v.mem[c].size <==> Closed(v, c)
  {
    hide Linked, FreeExact, Aligned;
    ChunkFacts(v, c);
    ChunkFacts(u, c);
    var e := End(v.mem, c);
    if Closed(v, c) && e != v.usage {
      assert e in u.chunks;
      assert c < e;
    }
  }

  /** What a failed realloc leaves behind, seen from its start. */
  lemma FailedAfter(v: View, u: View, w: View, c: int, size: nat)
    requires Good(v) && Good(u) && Good(w) && c in Live(v) && c in Live(u) && |w.mem| == |v.mem|
    requires Objects(w) == Objects(u) && u.mem[c].size < size && OutOfSpace(w, size, |w.mem|)
    requires u.mem[c].size == v.mem[c].size <==> Closed(v, c)
    ensures ReallocFailed(v, w, c + HDR, size)
  {
    hide Objects, OutOfSpace, Tiled, FreeExact, Linked;
    ObjectOf(v, c + HDR);
    ObjectOf(u, c + HDR);
  }
}
