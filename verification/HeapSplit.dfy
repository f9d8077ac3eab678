/** Splitting a chunk: the kept front, and the rest as a free chunk or as unused space. */
module HeapSplit {
  import opened Sequences
  import opened HeapLayout
  import opened HeapSteps

  /** The result of splitting chunk c of v at `offset`. */
  ghost predicate SplitOff(v: View, w: View, c: int, offset: nat)
    requires Good(v) && c in Live(v)
  {
    && Good(w)
    && c in Live(w)
    && KeepsOthers(v, w, c)
    && var n := c + HDR + offset;
    if offset + HDR >= v.mem[c].size then w == v
    else
      && w.mem[c].size == offset
      && Payload(w.mem, c) == Payload(v.mem, c)[..offset]
      && if End(v.mem, c) == v.usage then
        w.usage == n && w.chunks == v.chunks && w.free == v.free
      else
        && w.usage == v.usage && w.chunks == v.chunks + {n} && w.free == [n] + v.free
        && w.mem[n].size == v.mem[c].size - HDR - offset
  }

  lemma SplitNone(v: View, c: int, offset: nat)
    requires Good(v) && c in Live(v) && offset + HDR >= v.mem[c].size
    ensures SplitOff(v, v, c, offset)
  { }

  /** A header formed at n has overwritten only payload of c. */
  ghost predicate FormedAt(v: View, m: seq<Cell>, n: int) {
    && |m| == |v.mem|
    && IsChunk(m, n)
    && forall i | 0 <= i < |m| && !(n <= i < n + HDR) :: m[i] == v.mem[i]
  }

  lemma FormedInside(v: View, m: seq<Cell>, c: int, n: int)
    requires Good(v) && c in v.chunks && v.mem[c].inUse && c + HDR <= n && n + HDR < End(v.mem, c) && FormedAt(v, m, n)
    ensures Linked(m, v.head, v.free) && n !in v.chunks && n !in v.free && c !in v.free && c != n
    ensures v.head != NULL ==> v.head in v.free && v.head != n && v.head != c && IsChunk(m, v.head)
    ensures forall o | o in v.chunks :: 0 <= o < |m| && m[o] == v.mem[o]
  {
    forall o | o in v.chunks ensures !(n <= o < n + HDR) { }
    assert forall o | o in v.free :: o in v.chunks;
    forall i | 0 <= i < |v.free| ensures LinkAt(m, v.free, i) { assert LinkAt(v.mem, v.free, i) && v.free[i] in v.free; }
    if v.free != [] { assert v.free[0] in v.free; }
  }

  /** What free_chunk made of the formed chunk n. */
  ghost predicate FreedAt(v: View, m: seq<Cell>, m1: seq<Cell>, w: View, n: int)
    requires IsChunk(m, n) && (v.head == NULL || IsChunk(m, v.head)) && v.head != n
  {
    if End(m, n) == v.usage then
      w.usage == n && w.free == v.free && w.head == v.head && m1 == m[n := m[n].(inUse := false)]
    else
      w.usage == v.usage && w.free == [n] + v.free && Pushed(m, m1, v.head, n)
  }

  /** Everything the steps of split_chunk leave behind, seen from the snapshot before. */
  ghost predicate Parted(v: View, w: View, c: int, offset: nat, n: int)
    requires Good(v) && c in Live(v)
  {
    && Aligned(offset) && offset + HDR < v.mem[c].size && n == c + HDR + offset
    && |w.mem| == |v.mem|
    && (forall i | 0 <= i < |v.mem| && i !in v.chunks && !(n <= i < n + HDR) :: w.mem[i] == v.mem[i])
    && (forall o | o in v.chunks :: IsChunk(w.mem, o) && w.mem[o].inUse == v.mem[o].inUse && (o != c ==> w.mem[o].size == v.mem[o].size))
    && w.mem[c].size == offset
    && IsChunk(w.mem, n) && !w.mem[n].inUse && w.mem[n].size == v.mem[c].size - HDR - offset
    && if End(v.mem, c) == v.usage then w.usage == n && w.chunks == v.chunks && w.free == v.free
       else w.usage == v.usage && w.chunks == v.chunks + {n} && w.free == [n] + v.free
  }

  lemma PartedTiled(v: View, w: View, c: int, offset: nat, n: int)
    requires Good(v) && c in Live(v) && Parted(v, w, c, offset, n)
    ensures Tiled(w.mem, w.usage, w.chunks) && n !in v.chunks
  {
    hide FreeExact, Linked, Aligned;
    SplitTile(v.mem, w.mem, v.usage, v.chunks, c, offset, n);
    if End(v.mem, c) == v.usage {
      ReleaseLast(w.mem, v.usage, v.chunks + {n}, n);
      assert v.chunks + {n} - {n} == v.chunks;
    }
  }

  lemma PartedFreeExact(v: View, w: View, c: int, offset: nat, n: int)
    requires Good(v) && c in Live(v) && Parted(v, w, c, offset, n)
    ensures FreeExact(w.mem, w.chunks, w.free)
  {
    hide Linked, Aligned;
    PartedTiled(v, w, c, offset, n);
  }

  lemma PartedPayload(v: View, w: View, c: int, offset: nat, n: int, o: int)
    requires Good(v) && c in Live(v) && Parted(v, w, c, offset, n) && o in v.chunks
    ensures End(w.mem, o) <= |w.mem|
    ensures o != c ==> Payload(w.mem, o) == Payload(v.mem, o)
    ensures o == c ==> Payload(w.mem, o) == Payload(v.mem, o)[..offset]
  {
    hide Linked, Aligned, FreeExact;
    forall i | o + HDR <= i < End(w.mem, o) ensures w.mem[i] == v.mem[i] {
      assert i !in v.chunks;
      assert o < c ==> End(v.mem, o) <= c;
      assert o > c ==> End(v.mem, c) <= o;
    }
  }

  lemma SplitGood(v: View, w: View, c: int, offset: nat, n: int)
    requires Good(v) && c in Live(v) && Parted(v, w, c, offset, n)
    requires Linked(w.mem, w.head, w.free)
    ensures SplitOff(v, w, c, offset)
  {
    PartedTiled(v, w, c, offset, n);
    PartedFreeExact(v, w, c, offset, n);
    hide Linked, Aligned, FreeExact;
    PartedPayload(v, w, c, offset, n, c);
    forall o | o in Live(v) ensures o in Live(w) && (o != c ==> Payload(w.mem, o) == Payload(v.mem, o)) {
      PartedPayload(v, w, c, offset, n, o);
    }
    forall o | o in Live(w) ensures o in Live(v) { }
  }

  lemma FreedParted(v: View, m: seq<Cell>, m1: seq<Cell>, w: View, c: int, offset: nat, n: int)
    requires Good(v) && c in Live(v) && Aligned(offset) && offset + HDR < v.mem[c].size
    requires n == c + HDR + offset && FormedAt(v, m, n)
    requires m[n].size == v.mem[c].size - HDR - offset && !m[n].inUse
    requires v.head != NULL ==> v.head in v.free
    requires n !in v.chunks && c !in v.free
    requires forall o | o in v.chunks :: 0 <= o < |m| && m[o] == v.mem[o]
    requires v.head == NULL || (v.head != n && IsChunk(m, v.head))
    requires FreedAt(v, m, m1, w, n)
    requires IsChunk(m1, c) && w.mem == m1[c := m1[c].(size := offset, next := NULL, prev := NULL)]
    requires w.chunks == if End(m, n) == v.usage then v.chunks else v.chunks + {n}
    ensures Parted(v, w, c, offset, n)
  {
    hide Linked, Aligned, Tiled;
  }
}
