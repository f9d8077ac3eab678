/** What single steps of the allocator do to a snapshot, and why they keep it good. */
module HeapSteps {
  import opened Sequences
  import opened HeapLayout

  // ---- Frames ----

  predicate SameOutside(m: seq<Cell>, m': seq<Cell>, s: set<int>) {
    && |m'| == |m|
    && forall i | 0 <= i < |m| && i !in s :: m'[i] == m[i]
  }

  /** The headers of `chunks` keep their sizes. */
  predicate SameSizes(m: seq<Cell>, m': seq<Cell>, chunks: set<int>) {
    && |m'| == |m|
    && forall o | o in chunks :: IsChunk(m, o) && IsChunk(m', o) && m'[o].size == m[o].size
  }

  predicate SameFlags(m: seq<Cell>, m': seq<Cell>, chunks: set<int>) {
    forall o | o in chunks :: IsChunk(m, o) && IsChunk(m', o) && m'[o].inUse == m[o].inUse
  }

  lemma TiledBySizes(m: seq<Cell>, m': seq<Cell>, usage: int, chunks: set<int>)
    requires Tiled(m, usage, chunks) && SameSizes(m, m', chunks)
    ensures Tiled(m', usage, chunks)
  {
    forall o | o in chunks ensures EndsWell(m', usage, chunks, o) && AlignedChunk(m', o) {
      assert EndsWell(m, usage, chunks, o) && AlignedChunk(m, o);
    }
  }

  function Payload(m: seq<Cell>, o: int): seq<Cell>
    requires IsChunk(m, o) && End(m, o) <= |m|
  {
    m[o + HDR..End(m, o)]
  }

  /** No header lies inside a payload, so writing headers changes no payload. */
  lemma PayloadFrame(m: seq<Cell>, m': seq<Cell>, usage: int, chunks: set<int>, o: int)
    requires Tiled(m, usage, chunks) && SameOutside(m, m', chunks)
    requires o in chunks && IsChunk(m', o) && m'[o].size == m[o].size
    ensures Payload(m', o) == Payload(m, o)
  {
    forall i | o + HDR <= i < End(m, o) ensures m'[i] == m[i] {
      assert i !in chunks;
    }
  }

  // ---- allocate_chunk: taking a chunk off the free list ----

  /** The header that list position j holds once position k has been taken out and its chunk marked in use. */
  function Relinked(m: seq<Cell>, f: seq<int>, k: int, j: int): Cell
    requires 0 <= j < |f| && 0 <= k < |f| && AllChunks(m, f)
  {
    assert f[j] in f && f[k] in f;
    var h := m[f[j]];
    if j == k then h.(inUse := true)
    else if j == k - 1 then h.(next := m[f[k]].next)
    else if j == k + 1 then h.(prev := m[f[k]].prev)
    else h
  }

  ghost predicate Unlinked(m: seq<Cell>, m': seq<Cell>, f: seq<int>, k: int)
    requires 0 <= k < |f| && AllChunks(m, f)
  {
    && SameOutside(m, m', set o | o in f)
    && forall j {:trigger Relinked(m, f, k, j)} | 0 <= j < |f| :: f[j] in f && m'[f[j]] == Relinked(m, f, k, j)
  }

  /** Entry k of the list and its neighbours, as the code finds them through the pointers of the entry. */
  lemma EntryFacts(m: seq<Cell>, head: int, f: seq<int>, k: int)
    requires Linked(m, head, f) && 0 <= k < |f|
    ensures AllChunks(m, f) && f[k] in f && (f[k] == head <==> k == 0) && f[k] != NULL
    ensures k == 0 ==> m[f[k]].prev == NULL
    ensures k > 0 ==> f[k - 1] in f && m[f[k]].prev == f[k - 1] != f[k]
    ensures k + 1 == |f| ==> m[f[k]].next == NULL
    ensures k + 1 < |f| ==> f[k + 1] in f && m[f[k]].next == f[k + 1] != f[k] && f[k + 1] != NULL
    ensures 0 < k < |f| - 1 ==> f[k - 1] != f[k + 1]
    ensures At(Without(f, k), 0) == if k > 0 then head else m[f[k]].next
  {
    assert LinkAt(m, f, k);
  }

  /** The three writes that take entry k off the list, one after the other. */
  lemma UnlinkWrites(m: seq<Cell>, m1: seq<Cell>, m2: seq<Cell>, m': seq<Cell>, head: int, f: seq<int>, k: int)
    requires Linked(m, head, f) && 0 <= k < |f| && f[k] in f
    requires m1 == m[f[k] := m[f[k]].(inUse := true)]
    requires k == 0 ==> m2 == m1
    requires k > 0 ==> f[k - 1] in f && m2 == m1[f[k - 1] := m[f[k - 1]].(next := m[f[k]].next)]
    requires k + 1 == |f| ==> m' == m2
    requires k + 1 < |f| ==> f[k + 1] in f && m' == m2[f[k + 1] := m[f[k + 1]].(prev := m[f[k]].prev)]
    ensures Unlinked(m, m', f, k)
  {
    forall j | 0 <= j < |f| ensures f[j] in f && m'[f[j]] == Relinked(m, f, k, j) { }
  }

  lemma UnlinkKeepsLinked(m: seq<Cell>, m': seq<Cell>, head: int, f: seq<int>, k: int)
    requires Linked(m, head, f) && 0 <= k < |f| && Unlinked(m, m', f, k)
    ensures Linked(m', At(Without(f, k), 0), Without(f, k))
  {
    var g := Without(f, k);
    forall o | o in g ensures IsChunk(m', o) {
      WithoutMembers(f, k, o);
      var j :| 0 <= j < |f| && f[j] == o;
      assert f[j] in f && m'[f[j]] == Relinked(m, f, k, j);
    }
    forall i | 0 <= i < |g| ensures LinkAt(m', g, i) {
      var j := if i < k then i else i + 1;
      assert g[i] == f[j] && f[j] in f;
      assert m'[f[j]] == Relinked(m, f, k, j);
      assert LinkAt(m, f, j) && LinkAt(m, f, k);
    }
  }

  /** Unlinking leaves sizes alone and flips one flag. */
  lemma UnlinkHeaders(m: seq<Cell>, m': seq<Cell>, f: seq<int>, k: int, o: int)
    requires AllChunks(m, f) && Distinct(f) && 0 <= k < |f| && Unlinked(m, m', f, k) && IsChunk(m, o)
    ensures IsChunk(m', o) && m'[o].size == m[o].size && m'[o].inUse == (o == f[k] || m[o].inUse)
  {
    if o in f {
      var j :| 0 <= j < |f| && f[j] == o;
      assert f[j] in f && m'[f[j]] == Relinked(m, f, k, j);
    }
  }

  // ---- free_chunk: putting a chunk on the free list ----

  ghost predicate Pushed(m: seq<Cell>, m': seq<Cell>, head: int, c: int)
    requires IsChunk(m, c) && (head == NULL || IsChunk(m, head)) && head != c
  {
    && SameOutside(m, m', {c, head})
    && m'[c] == m[c].(inUse := false, prev := NULL, next := head)
    && (head != NULL ==> m'[head] == m[head].(prev := c))
  }

  lemma PushKeepsLinked(m: seq<Cell>, m': seq<Cell>, head: int, f: seq<int>, c: int)
    requires Linked(m, head, f) && IsChunk(m, c) && c !in f
    requires head != NULL ==> head in f
    requires Pushed(m, m', head, c)
    ensures Linked(m', c, [c] + f)
  {
    var g := [c] + f;
    forall o | o in g ensures IsChunk(m', o) { }
    forall i | 0 <= i < |g| ensures LinkAt(m', g, i) {
      if i > 0 {
        assert g[i] == f[i - 1] && f[i - 1] in f;
        assert LinkAt(m, f, i - 1);
        if i > 1 { assert f[i - 1] != f[0]; }
      }
    }
  }

  lemma LinkedBySame(m: seq<Cell>, m': seq<Cell>, head: int, f: seq<int>)
    requires Linked(m, head, f) && AllChunks(m', f)
    requires forall o | o in f :: m'[o].next == m[o].next && m'[o].prev == m[o].prev
    ensures Linked(m', head, f)
  {
    forall i | 0 <= i < |f| ensures LinkAt(m', f, i) { assert LinkAt(m, f, i) && f[i] in f; }
  }

  lemma LinkedOutside(m: seq<Cell>, head: int, f: seq<int>, c: int, h: Cell)
    requires Linked(m, head, f) && c !in f && 0 <= c < |m|
    ensures Linked(m[c := h], head, f)
  {
    LinkedBySame(m, m[c := h], head, f);
  }

  // ---- What a good snapshot says of one chunk ----

  lemma ChunkFacts(v: View, c: int)
    requires Good(v) && c in v.chunks
    ensures IsChunk(v.mem, c) && End(v.mem, c) <= v.usage <= |v.mem|
    ensures EndsWell(v.mem, v.usage, v.chunks, c) && AlignedChunk(v.mem, c)
    ensures !v.mem[c].inUse <==> c in v.free
    ensures AllChunks(v.mem, v.free)
  {
    assert EndsWell(v.mem, v.usage, v.chunks, c) && AlignedChunk(v.mem, c);
  }

  lemma ListFacts(v: View)
    requires Good(v)
    ensures AllChunks(v.mem, v.free) && v.head == At(v.free, 0)
    ensures forall i | 0 <= i < |v.free| :: v.free[i] in v.free && v.free[i] in v.chunks && v.free[i] != NULL
  {
    assert forall i | 0 <= i < |v.free| :: v.free[i] in v.free;
  }

  // ---- Objects that a step leaves alone ----

  ghost function Live(v: View): set<int>
    requires Good(v)
  {
    set o | o in v.chunks && v.mem[o].inUse
  }

  /** Apart from chunk c, exactly the same objects are live, with the same bytes. */
  ghost predicate KeepsOthers(v: View, w: View, c: int)
    requires Good(v) && Good(w)
  {
    && Live(v) - {c} == Live(w) - {c}
    && forall o | o in Live(v) && o in Live(w) && o != c :: Payload(w.mem, o) == Payload(v.mem, o)
  }

  lemma KeepsOthersTrans(u: View, v: View, w: View, c: int)
    requires Good(u) && Good(v) && Good(w) && KeepsOthers(u, v, c) && KeepsOthers(v, w, c)
    ensures KeepsOthers(u, w, c)
  {
    forall o | o in Live(u) && o != c ensures o in Live(w) && Payload(w.mem, o) == Payload(u.mem, o) {
      assert o in Live(u) - {c};
      assert o in Live(v) - {c};
      assert o in Live(w) - {c};
    }
    forall o | o in Live(w) && o != c ensures o in Live(u) {
      assert o in Live(w) - {c};
      assert o in Live(v) - {c};
      assert o in Live(u) - {c};
    }
  }

  // ---- Tilings: releasing, splitting, absorbing, extending ----

  lemma ReleaseLast(m: seq<Cell>, usage: int, chunks: set<int>, c: int)
    requires Tiled(m, usage, chunks) && c in chunks && End(m, c) == usage
    ensures Tiled(m, c, chunks - {c})
  {
    forall o | o in chunks - {c} ensures End(m, o) <= c && EndsWell(m, c, chunks - {c}, o) && AlignedChunk(m, o) {
      assert EndsWell(m, usage, chunks, o) && AlignedChunk(m, o);
      assert !(o > c);
    }
  }

  lemma SplitAligned(m: seq<Cell>, c: int, offset: nat)
    requires IsChunk(m, c) && AlignedChunk(m, c) && 0 <= c && Aligned(offset) && offset + HDR < m[c].size
    ensures Aligned(c + HDR + offset) && Aligned(m[c].size - HDR - offset)
  {
    AlignedSum(c, HDR);
    AlignedSum(c + HDR, offset);
    AlignedSum(HDR, offset);
    AlignedDifference(m[c].size, HDR + offset);
  }

  lemma SplitTile(m: seq<Cell>, m': seq<Cell>, usage: int, chunks: set<int>, c: int, offset: nat, n: int)
    requires Tiled(m, usage, chunks) && c in chunks && Aligned(offset) && offset + HDR < m[c].size
    requires n == c + HDR + offset && |m'| == |m| && IsChunk(m', n) && m'[n].size == m[c].size - HDR - offset
    requires IsChunk(m', c) && m'[c].size == offset
    requires SameSizes(m, m', chunks - {c})
    ensures n !in chunks
    ensures Tiled(m', usage, chunks + {n})
  {
    hide Aligned, EndsWell, AlignedChunk;
    var chunks' := chunks + {n};
    assert End(m', c) == n && End(m', n) == End(m, c) && c < n < End(m, c);
    assert n !in chunks;
    forall o | o in chunks' ensures IsChunk(m', o) && End(m', o) <= usage && EndsWell(m', usage, chunks', o) && AlignedChunk(m', o) {
      SplitEnd(m, m', usage, chunks, c, offset, n, o);
    }
    forall o, p | o in chunks' && p in chunks' && o < p ensures End(m', o) <= p {
      SplitOrder(m, m', usage, chunks, c, n, o, p);
    }
  }

  lemma SplitEnd(m: seq<Cell>, m': seq<Cell>, usage: int, chunks: set<int>, c: int, offset: nat, n: int, o: int)
    requires Tiled(m, usage, chunks) && c in chunks && Aligned(offset) && offset + HDR < m[c].size
    requires n == c + HDR + offset && IsChunk(m', n) && m'[n].size == m[c].size - HDR - offset
    requires IsChunk(m', c) && m'[c].size == offset && SameSizes(m, m', chunks - {c}) && o in chunks + {n}
    ensures IsChunk(m', o) && End(m', o) <= usage && EndsWell(m', usage, chunks + {n}, o) && AlignedChunk(m', o)
  {
    hide Aligned;
    if o == n || o == c {
      assert EndsWell(m, usage, chunks, c) && AlignedChunk(m, c);
      SplitAligned(m, c, offset);
    } else {
      assert EndsWell(m, usage, chunks, o) && AlignedChunk(m, o);
    }
  }

  /** The chunks stay apart when c is cut at n. */
  lemma SplitOrder(m: seq<Cell>, m': seq<Cell>, usage: int, chunks: set<int>, c: int, n: int, o: int, p: int)
    requires Tiled(m, usage, chunks) && c in chunks && c < n < End(m, c)
    requires IsChunk(m', c) && IsChunk(m', n) && End(m', c) == n && End(m', n) == End(m, c) && SameSizes(m, m', chunks - {c})
    requires o in chunks + {n} && p in chunks + {n} && o < p
    ensures IsChunk(m', o) && End(m', o) <= p
  {
    hide Aligned, EndsWell;
    if o == n {
      assert End(m, c) <= p;
    } else if p == n {
      assert o == c || End(m, o) <= c;
    } else {
      assert End(m, o) <= p;
    }
  }

  lemma AbsorbTile(m: seq<Cell>, m': seq<Cell>, usage: int, chunks: set<int>, c: int)
    requires Tiled(m, usage, chunks) && c in chunks && End(m, c) in chunks
    requires |m'| == |m| && IsChunk(m', c) && m'[c].size == m[c].size + HDR + m[End(m, c)].size
    requires SameSizes(m, m', chunks - {c})
    ensures Tiled(m', usage, chunks - {End(m, c)})
  {
    var n := End(m, c);
    var chunks' := chunks - {n};
    assert EndsWell(m, usage, chunks, n) && AlignedChunk(m, c) && AlignedChunk(m, n);
    AlignedSum(m[c].size, HDR);
    AlignedSum(m[c].size + HDR, m[n].size);
    hide Aligned;
    forall o | o in chunks' ensures IsChunk(m', o) && End(m', o) == (if o == c then End(m, n) else End(m, o)) && End(m', o) <= usage { }
    forall o | o in chunks' ensures EndsWell(m', usage, chunks', o) && AlignedChunk(m', o) {
      assert EndsWell(m, usage, chunks, o) && AlignedChunk(m, o);
    }
    forall o, p | o in chunks' && p in chunks' && o < p ensures End(m', o) <= p {
      if o == c { assert p != n; }
    }
  }

  lemma ExtendTile(m: seq<Cell>, m': seq<Cell>, usage: int, chunks: set<int>, size: nat)
    requires Tiled(m, usage, chunks) && Aligned(size) && usage + HDR + size <= |m|
    requires |m'| == |m| && IsChunk(m', usage) && m'[usage].size == size && SameSizes(m, m', chunks)
    ensures usage !in chunks
    ensures Tiled(m', usage + HDR + size, chunks + {usage})
  {
    LastAligned(m, usage, chunks);
    var usage', chunks' := usage + HDR + size, chunks + {usage};
    forall o | o in chunks' ensures EndsWell(m', usage', chunks', o) && AlignedChunk(m', o) {
      if o in chunks { assert EndsWell(m, usage, chunks, o) && AlignedChunk(m, o); }
    }
  }

  /** The footprint is where the last chunk ends, so it is aligned too. */
  lemma LastAligned(m: seq<Cell>, usage: int, chunks: set<int>)
    requires Tiled(m, usage, chunks)
    ensures Aligned(usage)
  {
    if usage > 0 {
      var c := LastChunk(m, usage, chunks, 0);
      assert AlignedChunk(m, c);
      AlignedSum(c, HDR);
      AlignedSum(c + HDR, m[c].size);
    }
  }

  /** Walking from any chunk by NEXT_CHUNK reaches the chunk that ends at the footprint. */
  lemma LastChunk(m: seq<Cell>, usage: int, chunks: set<int>, o: int) returns (c: int)
    requires Tiled(m, usage, chunks) && o in chunks
    ensures c in chunks && End(m, c) == usage
    decreases usage - o
  {
    assert EndsWell(m, usage, chunks, o);
    if End(m, o) == usage { c := o; } else { c := LastChunk(m, usage, chunks, End(m, o)); }
  }
}
